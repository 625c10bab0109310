# Char-server model

The char-server of the repository keeps shared state in memory that packets from several
map-servers, timers and one worker thread change, and that has to agree with a database.
This project models those parts and proves what they keep. SQL tables are maps of rows,
queries that may fail are given by which of them fail, packets and timers are events, and
C integers wrap or saturate where the program's do. A pass over a table (`foreach`) visits
each entry once in an arbitrary order.

Each part comes as functions on values with lemmas about steps and whole runs, and as a
class whose methods follow the program's loops and assignments and are proved to do exactly
what those functions say.

| module | part of the program |
|---|---|
| `LaneProtocol`, `CharLane` | the asynchronous character-load lane: two threads, two linked queues, one counter |
| `ErsPool`, `ErsAccounting`, `ErsManager` | the Entry Reusage System: block allocator, destroy walk, report, shared managers |
| `OnlineRegistry`, `OnlineSync`, `StaleReap`, `OnlineSeats`, `OnlineServer` | the online-session registry: its invariant, online lists, timed reaping, who is where, handlers |
| `ItemSync`, `ItemViews`, `ItemAgain`, `ItemFailures`, `ItemTable` | the item table synchroniser: one save, the same save again, failing queries; and the inventory part of a character save |
| `FameList`, `DbMacros` | the fame ranking and the array macros |
| `DiffSave`, `LogStore` | the saves of quest and achievement logs by difference, and the order of a quest log |
| `Party`, `PartyMembers`, `PartyData` | party counters, level bounds and even share; the members |
| `GuildSaver`, `GuildMembers`, `GuildTales`, `GuildDrop`, `GuildData`, `GuildLevel` | the guild saver, members' rows, what a member is after a run, what a drop loses, levels |
| `StorageLock` | the guild-storage lock |
| `Whisper` | whispers to all map-servers |
| `Foreach`, `Ticks` | passes over tables, the 32-bit clock |

## What the code does not keep

Some properties hold only under a condition.  Of the lemmas in parentheses, those before the
semicolon give it exactly, and those after it an input on which the property fails.

- The comment at src/char_sql/char_async_load.c:21 calls the cap one on jobs in flight. It bounds
  the request queue only; jobs in flight stay within it exactly in the runs in which `acl_pending`
  is below it at every accepted job (`LaneProtocol.CapHoldsIffPendingIsChecked`;
  `LaneProtocol.CapDoesNotBoundInflight`).
- The comment at src/common/ers.c:309 says that duplicate frees are reported as missing entries.
  Of the entries that they cut off, one goes unreported when the list runs into itself
  (`ErsAccounting.DestroyReports`; `ErsAccounting.UnnoticedDoubleFree`).
- The comment above `ers_report` (src/common/ers.c:406) counts extra entries among the reusable ones; the
  code counts them apart (`ErsManager.Manager.Report`).
- The quick update of stacks leaves refine, attribute, card 1 and expiry as they were
  (`ItemSync.ExactlyWhenRestAgrees`; `ItemSync.ExpiryIsLost`). A SELECT whose result is lost duplicates
  every item that it manages to insert (`ItemTable.LostResultDuplicates`, `ItemFailures.LostInStep`). Failing
  writes are logged and passed over; the table is in step exactly when no DELETE and no INSERT failed and
  the failed UPDATEs make up for one another (`ItemFailures.InStepIffStaleCancel`). A save that did not work
  is repaired by the next one exactly when the inventory has changed again
  (`ItemTable.FailedSaveIsForgotten`; `ItemTable.FirstItemIsLost`).
- Saving the same list again can change rows when like items come back in another order
  (`ItemAgain.SecondSaveIff`; `ItemSync.OrderMatters`).
- Fame taken from a listed character can land one place too far (`FameList.FallIsRight`;
  `FameList.OnePlaceTooFar`), and past an empty place the map-servers lose sight of it
  (`FameList.CopyFollows`; `FameList.CopyLosesOne`).
- A log save whose SELECT missed rows is still acknowledged when none of those rows was sent,
  and leaves them in the table (`DiffSave.ExactlyTheSentSet`, `LogStore.QuestLimit`;
  `LogStore.GivenUpQuestStays`).
- A party member that jumps from strictly inside the level range to outside it, staying
  online, leaves the bounds stale (`Party.ChangeMapIsRight`; `Party.TrioJumps`). A change of leader to a
  character not in the party leaves no leader (`Party.LeaderChangeLeaders`).
- `inter_party_CharOffline` makes the count wrong for a member that is not online
  (`Party.CharOfflineIsRight`). Nothing under src/ calls it or `inter_party_CharOnline`: there are only their
  definitions at src/char_sql/int_party.c:814 and :860 and two prototypes. So this input does not
  arise in the server as it is. The events that packets cause are `Added`, `Option`, `Left`, `Moved` and
  `LedBy`, and of these `Moved` alone can spoil a party (`Party.NextIsRight`).
- A guild member with a position beyond the last one is loaded differing from its row
  (`GuildMembers.LoadIsInStep`; `GuildMembers.LoadedOutOfStep`). Coming online and going offline mark the
  member but do not set the bit that makes the guild saved, so a guild can be dropped with the change
  unsaved (`GuildDrop.OfflineLosesIff`, `GuildDrop.OnlineLosesIff`; `GuildDrop.OneMemberLost`). A member's
  row outlives it when its DELETE fails (`GuildMembers.StrayIsHistory`; `GuildMembers.RowLeftBehind`).
- The guild's share of experience is the percentage only while the product fits in 32 bits
  (`GuildLevel.ShareIsExact`; `GuildLevel.ShareWraps`).
- An account that no map-server has confirmed is never reaped, and one that has been is
  (`StaleReap.UnstampedIsNeverReaped`, `StaleReap.LastSeenIsReaped`; `StaleReap.HandedOverIsNeverReaped`).

## Model

| member | source | states |
|---|---|---|
| LaneProtocol.StepKeepsInv | src/char_sql/char_async_load.c:106-263 | every step of the game thread or the worker keeps: dispatched, detached, done, held and queued jobs are the accepted submissions in order; `q_len` is the queue length and at most the cap; `inflight` counts the accepted jobs not yet subtracted; no wake-up is lost |
| LaneProtocol.RunKeepsInv | src/char_sql/char_async_load.c:106-263 | the same over every interleaving of steps |
| LaneProtocol.EveryReachableState | src/char_sql/char_async_load.c:169-302 | the same for every state reachable from a new lane |
| LaneProtocol.FifoKept | src/char_sql/char_async_load.c:225-262 | exactly once and in order: no step loses, repeats or reorders an accepted job |
| LaneProtocol.WorkedInOrderKept | src/char_sql/char_async_load.c:119-126 | the jobs worked on are a prefix of the accepted ones, in order |
| LaneProtocol.CountedStep | src/char_sql/char_async_load.c:229-259 | the 32-bit in-flight counter follows the number of accepted jobs not yet subtracted |
| LaneProtocol.SleepKept | src/char_sql/char_async_load.c:138-141 | a worker asleep without a pending signal means an empty queue and no shutdown |
| LaneProtocol.PendingIsExact | src/char_sql/char_async_load.c:265-273 | `acl_pending` is exactly the number of accepted jobs not yet subtracted while that number fits 32 bits |
| LaneProtocol.RefinesOneSequence | src/char_sql/char_async_load.c:207-263 | every step of the lane is at most one move of a cursor along the single sequence of accepted jobs |
| LaneProtocol.ListsAreSlices | src/char_sql/char_async_load.c:207-263 | each list of the lane is the slice of that sequence between two cursors |
| LaneProtocol.CursorsAreOrdered | src/char_sql/char_async_load.c:207-263 | dispatched, detached, done and taken never overtake one another |
| LaneProtocol.DoneOnlyAfterWork | src/char_sql/char_async_load.c:250-256 | `done_fn` is called at most once for a job and only after `work_fn` ran on it |
| LaneProtocol.ShutdownProgress | src/char_sql/char_async_load.c:135-157 | after shutdown a worker that has not ended can always take a step, and each step brings its end nearer |
| LaneProtocol.WorkerRunsAreBounded | src/char_sql/char_async_load.c:135-157 | after shutdown the worker takes no more steps than the jobs left allow |
| LaneProtocol.ShutdownDrains | src/char_sql/char_async_load.c:281-285 | from any state with shutdown requested there is a run of the worker alone that ends it, with the queue empty and every accepted job worked on |
| LaneProtocol.ExitedHasDrained | src/char_sql/char_async_load.c:135-157 | a worker that has ended has left nothing in the queue and has worked on every accepted job |
| LaneProtocol.DestroyAccounting | src/char_sql/char_async_load.c:275-302 | once the worker is joined every accepted job was worked on exactly once, and what is discarded is what was never dispatched |
| LaneProtocol.CapDoesNotBoundInflight | src/char_sql/char_async_load.c:21 | the cap bounds the queue only: for every n a run exists with n jobs in flight |
| LaneProtocol.CapHoldsIffPendingIsChecked | src/char_sql/char_async_load.c:207-236 | exactly when it bounds the jobs in flight: no state of a run has more than the cap iff every job of the run is accepted while `acl_pending` is below it |
| LaneProtocol.SubmitDoes | src/char_sql/char_async_load.c:207-236 | a job is accepted, at the end of the queue, exactly when context and memory are there and fewer than 65536 are queued; nothing else changes otherwise but the count of drops |
| LaneProtocol.DroppedIsRefused | src/char_sql/char_async_load.c:217-223 | `q_dropped` is the number of submissions that found the queue full, in 32 bits |
| LaneProtocol.CheckDoes | src/char_sql/char_async_load.c:135-148 | the worker at the top of its loop takes the oldest job, or ends if told to, or sleeps |
| CharLane.NodeQueue.Push | src/char_sql/char_async_load.c:225-227 | appending at the tail pointer appends to the list |
| CharLane.NodeQueue.Pop | src/char_sql/char_async_load.c:144-146 | taking the head takes the first node and keeps head and tail in agreement with the list |
| CharLane.NodeQueue.DetachAll | src/char_sql/char_async_load.c:245-248 | detaching hands over the whole chain and leaves an empty list |
| CharLane.CharLane.Submit | src/char_sql/char_async_load.c:207-236 | the result is 1 exactly for a job that is accepted; the new state is the step of the protocol, with the node lists and pointers agreeing with it |
| CharLane.CharLane.TakeJob | src/char_sql/char_async_load.c:135-148 | the worker goes on, sleeps or ends as the queue and the shutdown flag say |
| CharLane.CharLane.Dequeue | src/char_sql/char_async_load.c:144-147 | the oldest request is taken and `q_len` counts one less |
| CharLane.CharLane.Finish | src/char_sql/char_async_load.c:121-126 | the worked job is appended to the done list |
| CharLane.CharLane.DetachDone | src/char_sql/char_async_load.c:245-248 | the whole done list becomes the batch of the game thread |
| CharLane.CharLane.DispatchOne | src/char_sql/char_async_load.c:250-256 | `done_fn` is called on the head of the batch |
| CharLane.CharLane.SubtractDispatched | src/char_sql/char_async_load.c:257-261 | the dispatched batch leaves the in-flight count |
| CharLane.CharLane.Poll | src/char_sql/char_async_load.c:238-263 | a poll dispatches exactly the jobs that were done, in order, and returns their number |
| CharLane.CharLane.RequestShutdown | src/char_sql/char_async_load.c:280-284 | shutdown is set and the worker signalled |
| ErsPool.AllocKeeps | src/common/ers.c:178-210 | alloc never returns an outstanding entry and keeps: every carved entry is outstanding or on the free list exactly once |
| ErsPool.FreeKeeps | src/common/ers.c:222-238 | free of an outstanding entry keeps that partition |
| ErsPool.FreeThenAlloc | src/common/ers.c:178-238 | an entry freed is the next one handed out; NULL is ignored |
| ErsPool.GrowthNeverWraps | src/common/ers.c:194-202 | the block capacity is always 4^k-1, so `max*4+3` does not wrap before the UINT32_MAX guard stops it |
| ErsPool.CarvedSize | src/common/ers.c:190-207 | the number of carved entries is 4096 a block less the free ones |
| ErsPool.OutstandingPlusReusable | src/common/ers.c:178-238 | outstanding plus reusable entries are `num*4096 - free` |
| ErsPool.EntriesAreDisjoint | src/common/ers.c:193-206 | any two distinct carved entries, of one block or of two, occupy disjoint byte ranges |
| ErsPool.NewManagerIsWellUsed | src/common/ers.c:384-398 | a new manager starts with the partition |
| ErsPool.RunKeepsPartition | src/common/ers.c:178-238 | the partition holds after every run of allocs and frees in which only outstanding entries are freed |
| ErsAccounting.EveryListIsLasso | src/common/ers.c:222-238 | whatever was freed, however often, the free list is distinct entries followed by NULL or by one of them |
| ErsAccounting.WalkEnds | src/common/ers.c:305-310 | so the destroy walk, which cuts links behind it, ends: after each entry of the list once, and one of them a second time if the list runs into itself |
| ErsAccounting.LeftAfter | src/common/ers.c:305-322 | what is left of the walk after any number of steps: nothing is left out, and a cycle that begins beyond them is still whole |
| ErsAccounting.FollowExtent | src/common/ers.c:427-460 | where a walk that cuts nothing first meets NULL, if it ever does |
| ErsAccounting.ListedAndUnlisted | src/common/ers.c:178-238 | however often carved entries were freed, the entries on the list and those it no longer leads to are all the carved ones, each once |
| ErsAccounting.DestroyReports | src/common/ers.c:293-322 | a destroy reports an entry missing for each carved one that the list no longer leads to, but one fewer when the list runs into itself; then, with none lost, it reports one too many |
| ErsAccounting.RunReports | src/common/ers.c:178-322 | the same at the end of every run of allocs and of frees of carved entries, held by the caller or not, in which nobody writes into an entry while it is on the list |
| ErsAccounting.WellUsedAccounting | src/common/ers.c:293-322 | for a well-used manager the entries that a destroy reports missing and those that the report counts as used are both the outstanding ones, up to saturation; the reusable ones are those on the list; and none are extra in either |
| ErsAccounting.DoubleFree | src/common/ers.c:293-322 | one double free hides one entry behind the one it repeats and cuts off those after it; with nothing outstanding the destroy walk reports missing entries iff two or more were cut off, an extra one iff none was, and nothing iff exactly one was |
| ErsAccounting.UnnoticedDoubleFree | src/common/ers.c:293-322 | two entries taken and returned, the second twice: the first is lost and nothing is reported |
| ErsManager.Manager.constructor | src/common/ers.c:384-398 | a new manager has no block and an empty list |
| ErsManager.Manager.Alloc | src/common/ers.c:178-210 | the entry returned and the new state are those of the pool step |
| ErsManager.Manager.FreeEntry | src/common/ers.c:222-238 | the entry becomes the head of the free list |
| ErsManager.Manager.CountEntries | src/common/ers.c:293-322 | the destroy walk ends on any list, and the entries it reports as missing and as extra are those of the two functions that the lemmas above are about |
| ErsManager.Manager.CountList | src/common/ers.c:455-460 | the loop over extra entries counts them, up to UINT32_MAX; on a list that runs into itself it stops there |
| ErsManager.Manager.Report | src/common/ers.c:427-460 | on any list, used, reusable and extra in the report are the carved entries beyond its length, those within it, and its length beyond the carved ones, each up to UINT32_MAX; a list that runs into itself counts as endless |
| ErsAccounting.ReportAddsUp | src/common/ers.c:427-460 | the entries carved are used or reusable, and what of the list is not reusable is extra |
| ErsAccounting.ReachedExtent | src/common/ers.c:427-460 | after any number of its entries what is left of a list is what the report still has to count |
| ErsManager.Manager.CountRemaining | src/common/ers.c:438-447 | the inner loop adds whole blocks and saturates |
| ErsManager.RemoveAtRemoves | src/common/ers.c:283-292 | moving the last manager into the freed place removes exactly one manager |
| ErsManager.Root.New | src/common/ers.c:352-399 | one manager for each entry size, counting its instances; its entries are as large as asked for, or as a list node if that is larger; none for size 0, nor when the root array is full (there the program ends) |
| ErsManager.Root.Add | src/common/ers.c:377-399 | a new manager of the size, with no block, after all the others |
| ErsManager.EntriesHold | src/common/ers.c:363-366 | so entries that it has handed out do not overlap in the bytes asked for |
| ErsManager.Root.FindRoot | src/common/ers.c:368-375 | the search finds the manager of an entry size iff there is one |
| ErsManager.Root.Destroy | src/common/ers.c:279-292 | the manager goes with its last instance, and no other does |
| OnlineRegistry.StepKeepsInv | src/char_sql/char.c:214-343 | every event keeps: `server` is -2, -1 or a valid index, -1 exactly when `char_id` is -1, nobody offline has a pending timer, and timers and records point at each other one to one |
| OnlineRegistry.RunKeepsInv | src/char_sql/char.c:214-343 | the same in every state of every run |
| OnlineRegistry.HonestyIsNeeded | src/char_sql/char.c:247-248 | an account put online or handed over leaves the invariant intact iff the reported char id is not -1 |
| OnlineRegistry.SetOnlineKeeps | src/char_sql/char.c:214-268 | logging in replaces the record and drops its pending timer |
| OnlineRegistry.SetOfflineKeeps | src/char_sql/char.c:270-309 | going offline drops the pending timer with the record's marks |
| OnlineRegistry.KickAndWaitKeeps | src/char_sql/char.c:1798-1802 | a kicked account waits on one timer at most |
| OnlineRegistry.AuthOkKeeps | src/char_sql/char.c:1782-1825 | a login that is let in or turned away keeps the invariant |
| OnlineRegistry.SessionClosedKeeps | src/char_sql/char.c:3500-3513 | a closed client session keeps it |
| OnlineRegistry.HandOverKeeps | src/char_sql/char.c:2713-2767 | a hand-over to another map-server keeps it |
| OnlineRegistry.MarkUnknownKeeps | src/char_sql/char.c:311-325 | tagging the accounts of a map-server as unknown keeps it |
| OnlineRegistry.ConfirmAllKeeps | src/char_sql/char.c:2633-2647 | an online list without the char id -1 keeps it |
| OnlineRegistry.OffAllKeeps | src/char_sql/char.c:270-309 | putting any set of accounts offline keeps it |
| OnlineRegistry.CleanupKeeps | src/char_sql/char.c:4381-4407 | cleanup keeps it and forgets no record with a pending timer |
| OnlineRegistry.FireTimerKeeps | src/char_sql/char.c:3997-4006 | a timer puts offline the account it was set for, and touches no other record |
| OnlineSeats.MarkedIsHistory | src/char_sql/char.c:214-383 | in every run an account that is on a map-server is on the one, and as the character, that the last report, online list or hand-over to mark it named |
| OnlineSeats.AskedToLeaveLeaves | src/char_sql/char.c:1798-1802 | a player asked to leave is off every map-server once its 20 s or 15 s are up, if timers fire in time and nobody reports it or hands it over anew |
| OnlineSeats.OnlineDoes | src/char_sql/char.c:241-256 | a report puts the account on the reporting server, stamped, without its timer; one kick goes to the connected server that held it, if that is another and the check is on; no other record, timer or kick changes |
| OnlineSeats.OfflineDoes | src/char_sql/char.c:292-301 | going offline clears the record's marks and its timer, and nothing else |
| OnlineSeats.AuthDoes | src/char_sql/char.c:1793-1818 | a login is refused while the account is on a map-server, which is told to disconnect it within 20 s, or has another session; otherwise the account is at the char server |
| OnlineSeats.KickedDoes | src/char_sql/char.c:2190-2212 | a kick from the login server: the same within 15 s, or offline if it has no session |
| OnlineSeats.ClosedDoes | src/char_sql/char.c:3503-3511 | a closed session gives up its socket, and puts the account offline if it is on no server |
| OnlineSeats.MovedDoes | src/char_sql/char.c:2749-2751 | a hand-over changes character and server of the record alone |
| OnlineSeats.FireDoes | src/char_sql/char.c:3997-4006 | a timer puts its account offline and is gone |
| OnlineSeats.MapDoes | src/char_sql/char.c:311-325 | a map-server that is lost leaves its accounts on server -2 |
| OnlineSeats.AllOfflineDoes | src/char_sql/char.c:327-343 | one kick to each player on the map-server named, or on any; idle accounts are put offline when none is named |
| OnlineSeats.StaleSweepDoes | src/char_sql/char.c:356-366 | the sweep puts exactly the accounts offline that are on a map-server, stamped, and unconfirmed for more than 150 s |
| OnlineSeats.CleanUpDoes | src/char_sql/char.c:4381-4407 | cleanup forgets exactly the accounts that are on no connected map-server, with their timers |
| OnlineSync.SyncReplacesTheSet | src/char_sql/char.c:2624-2651 | after an online list from a server the accounts marked on it are exactly those listed; others that were on it become -2 with `char_id` unchanged; the rest are untouched |
| OnlineSync.SyncKicksTheOtherServer | src/char_sql/char.c:2638-2643 | a kick goes to exactly the other servers that held a listed account |
| OnlineSync.ConfirmAllPointwise | src/char_sql/char.c:2633-2647 | what each account's record is after the list: its last entry counts |
| OnlineSync.ConfirmAllKicks | src/char_sql/char.c:2638-2643 | one kick for each account found elsewhere, at its first entry |
| OnlineSync.ListHonestyIsNeeded | src/char_sql/char.c:2645-2646 | an online list keeps the invariant iff no account's last entry has the char id -1 |
| StaleReap.SweepTakes | src/char_sql/char.c:356-366 | a sweep takes a marked account iff it was ever stamped and the stamp is more than 150 s old |
| StaleReap.GhostIsReaped | src/char_sql/char.c:356-375 | with a sweep every 30 s, an account last confirmed at c, and neither confirmed nor handed over again, is on no map-server once c + 180 s has passed |
| StaleReap.LastSeenIsReaped | src/char_sql/char.c:344-375 | in any run, hand-overs included, an account is on no map-server by 30 s after the later of the end of the 150 s grace of its last stamp and its last hand-over, as long as a hand-over finds a stamp that the clock can date |
| StaleReap.ConfirmedIsNeverReaped | src/char_sql/char.c:344-366 | an account confirmed again within 60 s of its last stamp, or of one hand-over within 60 s of that, is never reaped |
| StaleReap.UnmarkedStays | src/char_sql/char.c:214-343 | no other event marks an account or renews its stamp |
| StaleReap.UnstampedStays | src/char_sql/char.c:214-343 | stamps come only from online lists, from set_char_online and from logins |
| StaleReap.StampIsNow | src/char_sql/char.c:249 | a stamp is the time of the event |
| StaleReap.UnstampedIsNeverReaped | src/char_sql/char.c:356-366 | an account without a stamp is in no sweep of any run in which nothing stamps it |
| StaleReap.HandedOverIsNeverReaped | src/char_sql/char.c:2749-2751 | such is an account first seen in a hand-over: marked on its server and in no sweep until it is stamped |
| StaleReap.HandOverDoesNotConfirm | src/char_sql/char.c:2749-2751 | a hand-over that comes when the stamp is out of grace leaves the account to the next sweep |
| OnlineServer.Server.DisconnectPlayer | src/char_sql/inter.c:585-597 | a disconnect request is sent to a connected server and to nobody else |
| OnlineServer.Server.SetCharOnline | src/char_sql/char.c:214-268 | the new table, timers and kicks are those of the registry step |
| OnlineServer.Server.SetCharOffline | src/char_sql/char.c:270-309 | the same for going offline |
| OnlineServer.Server.TagUnknown | src/char_sql/char.c:311-325 | a pass over all accounts, in any order, tags exactly those of the server |
| OnlineServer.Server.SetMapUsers | src/char_sql/char.c:2624-2651 | the handler of an online list is the registry step |
| OnlineServer.Server.ConfirmUser | src/char_sql/char.c:2634-2646 | one entry of the list |
| OnlineServer.Server.StaleReap | src/char_sql/char.c:368-375 | a pass over all accounts, in any order, puts offline exactly the stale ones and counts them |
| OnlineServer.Server.StaleReapSub | src/char_sql/char.c:356-366 | one account of that pass |
| OnlineServer.Server.DataCleanup | src/char_sql/char.c:4381-4420 | a pass in any order puts ghosts offline and forgets everybody offline |
| OnlineServer.Server.DataCleanupSub | src/char_sql/char.c:4381-4407 | one account of that pass |
| OnlineServer.Server.KickAllOffline | src/char_sql/char.c:377-383 | a pass in any order kicks exactly the accounts on map-servers and puts the idle ones offline |
| OnlineServer.Server.KickOfflineSub | src/char_sql/char.c:327-343 | one account of that pass |
| OnlineServer.Server.CharAuthOk | src/char_sql/char.c:1793-1825 | the registry step, and refused exactly when the account is on a map-server or has another session |
| OnlineServer.Server.KickRequest | src/char_sql/char.c:2183-2215 | the registry step for a kick from the login server |
| OnlineServer.Server.CloseSession | src/char_sql/char.c:3500-3513 | the registry step for a closed session |
| OnlineServer.Server.ChangeMapServer | src/char_sql/char.c:2749-2751 | the registry step for a hand-over |
| OnlineServer.Server.WaitingDisconnect | src/char_sql/char.c:3997-4006 | the registry step for a timer |
| OnlineServer.Server.LoseMapServer | src/char_sql/char.c:2463-2465 | the registry step for a lost map-server |
| OnlineServer.CleanedOneMore | src/char_sql/char.c:4381-4407 | visiting accounts one by one, in any order, is the whole cleanup |
| OnlineServer.KickedOneMore | src/char_sql/char.c:327-343 | visiting accounts one by one, in any order, is the whole kick |
| OnlineServer.ReapedOneMore | src/char_sql/char.c:356-366 | visiting accounts one by one, in any order, is the whole reap |
| Ticks.DiffTickIsElapsed | src/common/timer.h:17 | the signed 32-bit tick difference is the time elapsed for less than 2^31 ms, across wrap-around |
| Ticks.DiffTickBackwards | src/common/timer.h:17 | the other way round it is negative |
| ItemSync.Pick | src/char_sql/char.c:849-856 | the item a row is given is the first unused one that matches on nameid and cards 0, 2 and 3 |
| ItemSync.AssignIsMatching | src/char_sql/char.c:846-911 | each row is given a like item and no item is given twice |
| ItemSync.AssignIsMaximal | src/char_sql/char.c:846-911 | no row is deleted while a like item is inserted |
| ItemSync.SyncMakesSynced | src/char_sql/char.c:811-941 | after a save with working writes the owner's rows are in bijection with the items, agreeing on all fields for equipment and on the synchronised fields for stacks; other owners' rows are untouched |
| ItemSync.MatchingSyncs | src/char_sql/char.c:811-941 | the bijection itself, for any matching: matched rows keep their id |
| ItemSync.RowAt | src/char_sql/char.c:856-911 | a matched row keeps its id and holds what the update writes; an unmatched one is gone |
| ItemSync.NewRowAt | src/char_sql/char.c:915-938 | an unmatched item has a new row equal to it in every field |
| ItemSync.OthersStay | src/char_sql/char.c:832-938 | rows of other owners are untouched |
| ItemSync.RowHasItem | src/char_sql/char.c:846-938 | every row left belongs to an item |
| ItemSync.ExactlyWhenRestAgrees | src/char_sql/char.c:864-879 | a matched row equals its item in every field iff the item is equipment or refine, attribute, card 1 and expiry already agreed |
| ItemSync.ExpiryIsLost | src/char_sql/char.c:872-879 | a stack whose expiry changed leaves the table as it was |
| ItemSync.HomesAscend | src/char_sql/char.c:846-938 | among like items earlier ones get smaller ids |
| ItemSync.GreedyIsUnique | src/char_sql/char.c:849-856 | the greedy choice is the only matching that never passes over a like item for later |
| ItemAgain.SecondSaveIff | src/char_sql/char.c:811-941 | saving the same list again leaves the table as it is exactly when each row read back agrees with the item whose turn it is: the n-th like it, when n rows like it came before |
| ItemAgain.InStepStaysIff | src/char_sql/char.c:811-941 | the same for any table that is in step with the list |
| ItemAgain.AssignIsNth | src/char_sql/char.c:846-856 | the item a row is given is the n-th like it, n being the number of rows like it before |
| ItemSync.SecondSaveChangesNothing | src/char_sql/char.c:811-941 | so it is when like rows come back in the order in which they were visited, new ones last |
| ItemSync.OrderMatters | src/char_sql/char.c:832-855 | two stacks read back the other way round swap their amounts |
| ItemFailures.InStepIffStaleCancel | src/char_sql/char.c:857-938 | for any set of failing queries: the table is in step exactly when no DELETE and no INSERT failed and the rows whose UPDATE failed are, in some order, as the items that they were given |
| ItemFailures.InStepIffFailuresCancel | src/char_sql/char.c:857-938 | for any choice of items for the rows: exactly when the rows whose query failed are, in some order, as the items whose query failed should be |
| ItemFailures.SwappedAllTheSame | src/char_sql/char.c:857-899 | two stacks in each other's row, whose UPDATEs both fail, are in step all the same |
| ItemFailures.InStepIffHarmless | src/char_sql/char.c:857-938 | and exactly when no UPDATE that was needed, no DELETE and no INSERT failed, each item is in the row it was given, or in a new one, and no row is without an item |
| ItemFailures.LostInStep | src/char_sql/char.c:844-846 | with the result of the SELECT lost and any INSERTs failing, the table is in step exactly when the owner's rows are, in some order, as the items whose INSERT failed |
| ItemViews.SyncedIsViews | src/char_sql/char.c:849-911 | a table is in step exactly when the owner's rows and the items, each as far as they must agree, are the same in some order |
| ItemFailures.RowAtBut | src/char_sql/char.c:857-911 | a row whose query fails stays as it was, any other is as in a save without failures |
| ItemFailures.NewRowAtBut | src/char_sql/char.c:915-938 | an item that had no row has one if its INSERT succeeds |
| ItemFailures.OthersStayBut | src/char_sql/char.c:846-938 | whatever fails, rows of other owners are untouched |
| ItemFailures.NoFailuresIsSync | src/char_sql/char.c:811-941 | with no failing query this is the save above |
| ItemTable.LostResultDuplicates | src/char_sql/char.c:844-846 | when the result of the SELECT is lost everything is inserted again: the table is in step with the list iff the owner had no rows |
| ItemTable.Store.FindItem | src/char_sql/char.c:849-856 | the search returns the greedy choice |
| ItemTable.Store.UpdateRow | src/char_sql/char.c:857-898 | the row holds what the update writes, or is as it was if the query fails; no other row changes |
| ItemTable.Store.HandleRow | src/char_sql/char.c:846-911 | one row is written or deleted, and exactly its item is flagged |
| ItemTable.Store.UpdateRows | src/char_sql/char.c:846-911 | the pass over the rows carries out the greedy assignment and flags exactly the items it used |
| ItemTable.Store.InsertRest | src/char_sql/char.c:915-938 | the second pass inserts exactly the unflagged items |
| ItemTable.Store.MemitemdataToSql | src/char_sql/char.c:811-941 | the table after the save, for a SELECT that fails, loses its result or returns the rows, and for any set of failing writes |
| ItemTable.NoFailures | src/char_sql/char.c:811-941 | with working writes that is the save of the lemmas below |
| ItemTable.CharCache.Gather | src/char_sql/char.c:503-519 | the items of exactly the slots in use, that of each slot at the number of used slots before it, and whether any slot differs from the cached one |
| ItemTable.InUseAt | src/char_sql/char.c:503-519 | the same of the list of items |
| ItemTable.CharCache.SaveInventory | src/char_sql/char.c:483-526 | the inventory is written exactly when some slot differs from the cached one, and the cache takes the new inventory; with working queries the owner's rows are then one to one with the slots in use, and agree with them |
| ItemTable.WhenSaveIsInStep | src/char_sql/char.c:503-526 | exactly when a save leaves the table in step with the inventory, slot by slot, for all three answers to the SELECT: one that is skipped or fails needs the table to have been in step, one without a result needs it to have been empty of the owner, one with its rows always works |
| ItemTable.InStepIsBySlots | src/char_sql/char.c:503-526 | being in step, slot by slot, is being in step with the items gathered |
| ItemTable.WhenSaveWorks | src/char_sql/char.c:503-526 | the same with any set of failing writes |
| ItemTable.SaveKeepsStep | src/char_sql/char.c:503-526 | a table in step with the cached inventory stays in step, whether or not anything is written |
| ItemTable.FailedSaveIsForgotten | src/char_sql/char.c:521-523 | after a save of a changed inventory, whatever its SELECT answered and whichever of its writes failed, the next save that works leaves the table in step iff its inventory differs, or the first save had worked all the same |
| ItemTable.FirstItemIsLost | src/char_sql/char.c:521-523 | a first item whose save fails is not in the table after the same inventory is saved again |
| FameList.UpdateIsRight | src/char_sql/char.c:2943-2970 | the ranking stays a correct top N iff the update does not take fame from a listed character in a way that passes over another; it always does when fame does not fall |
| FameList.RunStaysRight | src/char_sql/char.c:2943-2970 | over any run in which fame never falls the list stays sorted, without repetitions, and the top N of everybody's fame |
| FameList.NewcomerIsRight | src/char_sql/char.c:2955-2961 | a new ranker is inserted at its place and the last one drops out |
| FameList.RiseIsRight | src/char_sql/char.c:2948-2967 | a listed character whose fame did not fall moves up to its place or stays |
| FameList.FallIsRight | src/char_sql/char.c:2962-2967 | exactly when taking fame from a listed character leaves the ranking right |
| FameList.OnePlaceTooFar | src/char_sql/char.c:2943-2967 | 10, 5, 3 with the first set to 4 becomes 5, 3, 4: right before, and not after |
| FameList.CopyFollows | src/map/chrif.c:1083-1134 | a map-server's copy that was the ranking is the ranking again after the message iff the new ranking has no gap, that is unless a listed character lost fame and its place is now an empty one |
| FameList.CopyLosesOne | src/char_sql/char.c:2943-2970 | 10, 5 and an empty place with the first set to 4: the map-servers keep 5 alone |
| FameList.WhatIsSent | src/char_sql/char.c:2946-2970 | nothing, one value or the whole ranking, as the player and the place are found |
| FameList.FilledIs | src/char_sql/char.c:2356-2389 | the ranking sent is what comes before the first empty place |
| FameList.FilledIsPrefix | src/char_sql/char.c:2356-2389 | what is sent, padded with empty places, is the whole list iff that has no gap |
| FameList.PlayerPos | src/char_sql/char.c:2943 | the first place of the player |
| FameList.FamePos | src/char_sql/char.c:2944 | the first place with no more fame |
| FameList.Board.FindPlayer | src/char_sql/char.c:2943 | the search returns that place |
| FameList.Board.FindPlace | src/char_sql/char.c:2944 | the search returns that place |
| FameList.Board.InsertRanker | src/char_sql/char.c:2957-2959 | the last entry makes room for the new one, the others keep their order |
| FameList.Board.MoveRanker | src/char_sql/char.c:2964-2967 | the entry goes to its place, the others keep their order |
| FameList.Board.SendList | src/char_sql/char.c:2356-2389 | the entries before the first empty place are sent |
| FameList.Board.UpdateFame | src/char_sql/char.c:2923-2973 | the list after the packet, and what the map-servers are told |
| FameList.Board.constructor | src/char_sql/char.c:4294-4311 | an empty ranking of the configured size, no larger than the array; it is right for no characters |
| DbMacros.ArrMove | src/common/db.h:724-736 | the entry at one index goes to the other and those between close up in order |
| DbMacros.CloseUp | src/common/db.h:731 | the memmove towards the front |
| DbMacros.MakeRoom | src/common/db.h:733 | the memmove towards the back |
| DbMacros.OthersKeepOrder | src/common/db.h:724-736 | the entries not moved keep their order |
| DiffSave.RestIsUnsent | src/char_sql/int_quest.c:106-121 | the old array shrunk in place holds exactly the fetched rows not sent, in order: none is skipped or matched twice |
| DiffSave.SuccessMeansSaved | src/char_sql/int_quest.c:92-133 | an acknowledged save sent no id twice, left every entry in its row with the fixed part preserved, and removed every fetched row that was not sent |
| DiffSave.ExactlyTheSentSet | src/char_sql/int_quest.c:92-126 | an acknowledged save leaves exactly the rows sent iff the SELECT returned all of the character's rows |
| DiffSave.LimitDecides | src/char_sql/int_quest.c:22-50 | a SELECT that works returns all rows iff there are no more than its limit |
| DiffSave.WhenItSucceeds | src/char_sql/int_quest.c:106-133 | with no failing query a save is acknowledged iff no id is sent twice and none belongs to a row the SELECT missed |
| DiffSave.AcknowledgedIffAllSucceed | src/char_sql/int_quest.c:106-133 | a save makes one query for each entry that is new or changed and one for each fetched row not sent, and is acknowledged exactly when all succeed, if no id is sent twice and none belongs to a row that was missed |
| DiffSave.OtherRowsStay | src/char_sql/int_quest.c:53-90 | whatever fails, rows of other characters and rows neither sent nor fetched are untouched |
| DiffSave.SecondSaveWritesNothing | src/char_sql/int_quest.c:106-126 | saving the same log again issues no query |
| DiffSave.MissedRowFails | src/char_sql/int_quest.c:66-76 | an entry whose row the SELECT missed makes the save fail |
| DiffSave.SentReached | src/char_sql/int_quest.c:106-122 | in a successful first pass each entry reaches its row |
| DiffSave.EntrySaved | src/char_sql/int_quest.c:92-133 | the same after the whole save, for one entry |
| LogStore.QuestTimeIsKept | src/char_sql/int_quest.c:79-90 | a quest that was in the table keeps its time and takes the state and counters sent; a new one takes the time sent |
| LogStore.AchievementsAreTheList | src/char_sql/int_achievement.c:85-118 | a successful achievement save leaves exactly the list sent, field for field |
| LogStore.QuestLimit | src/char_sql/int_quest.c:22-50 | an acknowledged quest save leaves exactly the quests sent iff the character had no more than 500, or none when the SELECT failed |
| LogStore.AchievementLimit | src/char_sql/int_achievement.c:20-45 | the same for achievements and 256 |
| LogStore.GivenUpQuestStays | src/char_sql/int_quest.c:92-133 | a quest given up while the SELECT fails: acknowledged, and still in the table |
| LogStore.Table.UpdateRow | src/char_sql/int_quest.c:79-90 | an UPDATE changes the live part of a row that is there |
| LogStore.Table.AddRow | src/char_sql/int_quest.c:66-76 | an INSERT fails on a row that is there |
| LogStore.Table.DeleteRow | src/char_sql/int_quest.c:53-63 | a DELETE removes the row |
| LogStore.Table.FindOld | src/char_sql/int_quest.c:108 | the search for the old row |
| LogStore.Table.DropOld | src/char_sql/int_quest.c:115-119 | the matched row is dropped from the old rows in place |
| LogStore.Table.SaveEntry | src/char_sql/int_quest.c:106-122 | one entry of the log: the step of the save |
| LogStore.Table.DeleteOld | src/char_sql/int_quest.c:125-126 | the rows left over are deleted |
| LogStore.Table.SaveLog | src/char_sql/int_achievement.c:86-126 | the table after the whole save, and the byte of the acknowledgement |
| LogStore.SentLogIsStable | src/char_sql/int_quest.c:156-169 | the log sent out holds the same quests, complete ones last, each kind in the order of the table |
| LogStore.OnlyAt | src/char_sql/int_quest.c:156-169 | where each quest goes |
| LogStore.PutOthers | src/char_sql/int_quest.c:156-165 | the first loop puts what is not complete and notes the rest |
| LogStore.QuestLoad | src/char_sql/int_quest.c:138-174 | the packet holds the others, then the complete ones |
| Party.RunStaysRight | src/char_sql/int_party.c:569-906 | in every state of a run, families included, count and size are exact, the bounds are those of the members online, with or without the kid of a family, and even share is on only if these are within the share level, iff no event of the run is one of the two that spoil it |
| Party.NextIsRight | src/char_sql/int_party.c:569-906 | the same for one event: exactly a jump out of the level range and the going offline of a member that is not online spoil it |
| Party.RightMeans | src/char_sql/int_party.c:345-348 | without a family the bounds are those of everybody online; in a family the others are within the share level while even share is on |
| Party.CheckLvIsRight | src/char_sql/int_party.c:35-57 | recomputing the bounds makes them exact for everybody online, a kid as well, and ends even share if it is no longer fair |
| Party.CalcStateIsRight | src/char_sql/int_party.c:57-100 | calculating from scratch makes everything exact, the kid of a family not counting for bounds and even share |
| Party.RuleIsFair | src/char_sql/int_party.c:345-348 | the rule on the bounds holds iff any two members online are close enough in level |
| Party.RuleIsFairToOthers | src/char_sql/int_party.c:345-348 | with the kid left out of the bounds the rule never allows what is unfair among the others |
| Party.NeverWraps | src/char_sql/int_party.c:345-348 | with somebody online the unsigned difference of the bounds does not wrap |
| Party.MinLvIsMin | src/char_sql/int_party.c:39-48 | the loop's minimum is the least level online, UINT_MAX with nobody online |
| Party.MaxLvIsMax | src/char_sql/int_party.c:39-48 | the loop's maximum is the greatest level online, 0 with nobody online |
| Party.OnlineAt | src/char_sql/int_party.c:71-76 | changing one place changes the counters by that place |
| Party.BoundsAreUnique | src/char_sql/int_party.c:35-57 | only one pair of bounds is exact |
| Party.AddMemberKeeps | src/char_sql/int_party.c:569-604 | a new member, whether or not it makes the party a family or ends one |
| Party.ChangeOptionKeeps | src/char_sql/int_party.c:606-624 | a change of options: even share is granted only when fair |
| Party.LeaveKeeps | src/char_sql/int_party.c:626-677 | a member leaving a party that remains |
| Party.ToggleKeeps | src/char_sql/int_party.c:694-713 | a member going online or offline |
| Party.SetLvKeeps | src/char_sql/int_party.c:716-727 | a change of level keeps the party right iff a member online, not the kid of a family, does not jump from strictly inside the range to outside it |
| Party.KidMoves | src/char_sql/int_party.c:716-727 | the kid of a family may jump: the range it leaves is that of the others |
| Party.ChangeMapIsRight | src/char_sql/int_party.c:679-733 | the same for the whole packet: the exact condition under which the party stays right |
| Party.OneLevelNeverJumps | src/char_sql/int_party.c:716-727 | a change by one level never does |
| Party.JumpKeepsShare | src/char_sql/int_party.c:716-727 | a member that jumps up far enough leaves even share on although it is unfair |
| Party.TrioJumps | src/char_sql/int_party.c:716-727 | levels 10, 15 and 20 with a share level of 10: the second goes to 40 and even share stays on |
| Party.LeaderChangeLeaders | src/char_sql/int_party.c:759-781 | afterwards exactly the member asked for leads, and nobody if it is not in the party |
| Party.CharOnlineKeeps | src/char_sql/int_party.c:814-858 | a character coming online |
| Party.CharOfflineIsRight | src/char_sql/int_party.c:860-906 | a character going offline keeps the party right iff it was online |
| Party.OnlyLevelsMatter | src/char_sql/int_party.c:728-731 | nothing but who the members are, their levels and online flags matters |
| PartyMembers.MovedMembers | src/char_sql/int_party.c:679-733 | the member found has the map, online flag and level reported, and nobody else changes |
| PartyMembers.AddedMembers | src/char_sql/int_party.c:569-604 | a newcomer takes the first free place as it comes, but for being the leader; without one nothing changes; the family is asked for when the third member has come |
| PartyMembers.LeftMembers | src/char_sql/int_party.c:626-677 | a leader that leaves, or the last member, breaks the party up; anybody else leaves an empty place, and a party without family |
| PartyMembers.OnlineMembers | src/char_sql/int_party.c:814-906 | the character found is online, or offline, and nothing else about the members changes |
| PartyMembers.OptionIsGrantedIff | src/char_sql/int_party.c:606-624 | without a family even share is on exactly if it was asked for and is fair |
| PartyMembers.ShareStaysIffFair | src/char_sql/int_party.c:35-57 | without a family no event that keeps the party right ends even share unless it is unfair |
| PartyMembers.BoundsLeftAlone | src/char_sql/int_party.c:713-721 | a member whose level was no bound of the party changes it, and bounds and even share stay as they are, wherever the new level is |
| PartyMembers.OnlineBoundsLeftAlone | src/char_sql/int_party.c:840-906 | the same when a character within the bounds comes online or goes offline |
| PartyMembers.CalcCounts | src/char_sql/int_party.c:57-83 | a party calculated afresh has the size of its taken places and counts those of them that are online; a family only with three |
| PartyMembers.CalcBounds | src/char_sql/int_party.c:84-95 | its bounds are the least and the greatest level of those online, the kid of the family apart; UINT_MAX and 0 if there is none |
| PartyMembers.CountUnderflows | src/char_sql/int_party.c:869-906 | going offline with the count at 0 makes it 255 |
| PartyData.Data.CheckLevels | src/char_sql/int_party.c:35-57 | the loop computes the bounds and ends even share when the rule fails |
| PartyData.Data.CountMembers | src/char_sql/int_party.c:71-76 | the loop counts the taken places and those online |
| PartyData.Data.BoundLevels | src/char_sql/int_party.c:85-96 | the loop computes the bounds without the kid of a family |
| PartyData.Data.CalculateState | src/char_sql/int_party.c:57-100 | the state calculated from scratch |
| PartyData.Data.CheckExpShare | src/char_sql/int_party.c:345-348 | the rule in unsigned arithmetic |
| PartyData.Data.Add | src/char_sql/int_party.c:569-604 | the new state, and the answer 1 exactly for a full party |
| PartyData.Data.SetOption | src/char_sql/int_party.c:606-624 | the new options, and the flag that tells the requester of a refusal |
| PartyData.Data.LeaveParty | src/char_sql/int_party.c:626-677 | the new state, or that the party is broken up |
| PartyData.Data.RemoveMember | src/char_sql/int_party.c:662-672 | the state without the member |
| PartyData.Data.ToggleOnline | src/char_sql/int_party.c:694-713 | the state after the online flag |
| PartyData.Data.SetLevel | src/char_sql/int_party.c:716-727 | the state after the level |
| PartyData.Data.Move | src/char_sql/int_party.c:679-733 | the state after the packet |
| PartyData.Data.ChangeLeader | src/char_sql/int_party.c:759-781 | the state after the change of leader |
| PartyData.Data.SetOnline | src/char_sql/int_party.c:843-856 | the state after coming online |
| PartyData.Data.SetOffline | src/char_sql/int_party.c:888-905 | the state after going offline, and whether the party is dropped |
| GuildSaver.Fair | src/char_sql/int_guild.c:49-88 | in a fixed population of n guilds one that stays dirty is tried within n + 1 ticks, however saves fare |
| GuildSaver.FairWhileDropping | src/char_sql/int_guild.c:49-88 | in a cache of n guilds that only the saver's own drops change, one that stays dirty is tried within (n+1)(n+2)/2 ticks, although a drop can send the saver back to the start |
| GuildSaver.PatienceShrinks | src/char_sql/int_guild.c:49-88 | each tick that passes it over, dropping guilds or not, uses up some of that |
| GuildSaver.TurnComesNearer | src/char_sql/int_guild.c:49-88 | each tick that passes it over brings its turn nearer |
| GuildSaver.TickTakesTurns | src/char_sql/int_guild.c:49-82 | a tick tries at most one guild: the first dirty one after the last |
| GuildSaver.TicksFitInterval | src/char_sql/int_guild.c:84-86 | a tick for each guild fits in one autosave interval, and no more than a millisecond a guild is wasted |
| GuildSaver.OnlySavedIsCleared | src/char_sql/int_guild.c:56-70 | save bits are cleared exactly for that guild after a full success, and nothing else of any guild changes; a guild is in the cache afterwards iff it is still wanted or has a save bit |
| GuildSaver.WalkTo | src/char_sql/int_guild.c:49-73 | where the walk stands after some of the cache |
| GuildSaver.WalkKeeps | src/char_sql/int_guild.c:67-71 | which guilds remain |
| GuildSaver.Cache.GuildSave | src/char_sql/int_guild.c:49-73 | one guild of the walk |
| GuildSaver.Cache.SaveNext | src/char_sql/int_guild.c:49-73 | one guild of the walk, dropped if it is removable |
| GuildSaver.Cache.GuildSaveTimer | src/char_sql/int_guild.c:75-88 | the cache and the last guild after a tick, and the delay of the next |
| GuildMembers.RunKeepsInv | src/char_sql/int_guild.c:251-292 | under any pattern of failing queries, in every state of every run an occupied slot that is not marked equals its row |
| GuildMembers.NextKeeps | src/char_sql/int_guild.c:251-292 | the same for one event |
| GuildMembers.SaveKeeps | src/char_sql/int_guild.c:251-292 | a save, whatever fails, leaves no unmarked slot out of step |
| GuildMembers.SuccessMeansSaved | src/char_sql/int_guild.c:251-292 | a save that reports success leaves every member equal to its row |
| GuildMembers.SuccessIsExact | src/char_sql/int_guild.c:251-292 | after such a save the guild has no other rows iff none was left behind in the run before it |
| GuildMembers.StrayIsHistory | src/char_sql/int_guild.c:90-105 | in every run the rows without a member are exactly those left behind by a member whose DELETE failed or found another account, and who has not joined again |
| GuildMembers.StrayStep | src/char_sql/int_guild.c:90-105 | the same for one event |
| GuildMembers.RowLeftBehind | src/char_sql/int_guild.c:1427-1478 | a guild's one member leaves while the DELETE fails |
| GuildMembers.OtherGuildsStay | src/char_sql/int_guild.c:263-275 | rows of other guilds are untouched |
| GuildMembers.JoinKeeps | src/char_sql/int_guild.c:1391-1424 | a new member keeps the marks right, and the characters distinct iff it is not a member already |
| GuildMembers.LeaveKeeps | src/char_sql/int_guild.c:1427-1478 | a member leaving takes no other member's row |
| GuildMembers.InfoShortKeeps | src/char_sql/int_guild.c:1490-1545 | the short change of a member's info |
| GuildMembers.InfoChangeKeeps | src/char_sql/int_guild.c:1661-1772 | a change of one field; positions out of range are refused |
| GuildMembers.MasterChangeKeeps | src/char_sql/int_guild.c:2031-2066 | a change of master |
| GuildMembers.ChangeMasterKeeps | src/char_sql/int_guild.c:2031-2066 | the same with the search for the name |
| GuildMembers.CharOnlineKeeps | src/char_sql/int_guild.c:784-791 | a character coming online |
| GuildMembers.CharOfflineKeeps | src/char_sql/int_guild.c:824-837 | a character going offline |
| GuildTales.MemberIsItsTale | src/char_sql/int_guild.c:1391-2066 | in every run, a member that stays in the guild has, but for its position, the data that it came with and what the events since said about it |
| GuildTales.TaleIsSaved | src/char_sql/int_guild.c:251-292 | and a successful save writes just that |
| GuildTales.NewcomerIsMember | src/char_sql/int_guild.c:1404-1418 | a newcomer that finds room is a member with all the data it came with |
| GuildTales.JoinedPlace | src/char_sql/int_guild.c:1404-1418 | it takes the first free place, and no other place changes |
| GuildTales.LeftPlace | src/char_sql/int_guild.c:1427-1471 | a member that leaves gives up its place and its rows, and no other place or row changes |
| GuildTales.ToldField | src/char_sql/int_guild.c:1688-1770 | each message changes its own field of the member found, and no other |
| GuildTales.ToldShort | src/char_sql/int_guild.c:1490-1545 | the short message changes online flag, level and class wherever the ids are found; the guild is kept while a member has a level |
| GuildTales.MasterPlaces | src/char_sql/int_guild.c:2041-2064 | the new master takes the first place with position 0, the one before its place and position |
| GuildTales.NamesAlike | src/char_sql/int_guild.c:2043 | two names are taken for the same when they agree up to the length given, both ending there or neither |
| GuildTales.OnlinePlaces | src/char_sql/int_guild.c:780-792 | the first place of the character is online and marked |
| GuildTales.OfflinePlaces | src/char_sql/int_guild.c:824-837 | every place of the character is offline and marked; the guild is let go of exactly when nobody is online |
| GuildTales.SavedPlaces | src/char_sql/int_guild.c:251-292 | a save changes no member, and clears its mark exactly if its queries succeed |
| GuildTales.SavedRows | src/char_sql/int_guild.c:251-292 | and it writes exactly the rows of the marked members whose REPLACE works, with all their data; every other row stays |
| GuildTales.LoadedPlaces | src/char_sql/int_guild.c:484-508 | a loaded guild holds its rows in order, positions brought down to the last one |
| GuildMembers.LoadIsInStep | src/char_sql/int_guild.c:486-508 | loading starts in step iff no position had to be brought down to the last one |
| GuildMembers.LoadedOutOfStep | src/char_sql/int_guild.c:500-503 | a member saved with position 25 is loaded with 19, unmarked |
| GuildMembers.NotedIsKept | src/char_sql/int_guild.c:1391-1772 | changes from map-servers set the save bit with the mark |
| GuildMembers.OnlineIsNotNoted | src/char_sql/int_guild.c:780-792 | coming online marks the member without the save bit: it is looked at iff the bit was set anyway or no member was found |
| GuildMembers.OfflineIsNotNoted | src/char_sql/int_guild.c:824-837 | the same for going offline |
| GuildDrop.LastOfflineIsLost | src/char_sql/int_guild.c:824-837 | when the last member online goes offline and all was saved, the next tick of the saver drops the guild without trying to save it, and whenever it is loaded again that member is online |
| GuildDrop.OneMemberLost | src/char_sql/int_guild.c:824-837 | a guild of one member, all the way |
| GuildDrop.DroppedAtOnce | src/char_sql/int_guild.c:67-71 | a guild that is not wanted and has no save bit is in the cache no more after the next tick, which tries another or none |
| GuildDrop.OfflineLosesIff | src/char_sql/int_guild.c:824-837 | with all marks noted and the save bit clear, after a character goes offline every member is what its row says exactly when that character was offline already wherever it is a member |
| GuildDrop.OnlineLosesIff | src/char_sql/int_guild.c:780-792 | and after one comes online exactly when it is no member, or was online already |
| GuildDrop.NotedLosesNothing | src/char_sql/int_guild.c:67-71 | where every mark came with the save bit, a guild that is dropped has every member equal to its row |
| GuildData.Data.SaveMembers | src/char_sql/int_guild.c:251-292 | the loop saves exactly the marked members whose queries succeed and counts the failures |
| GuildData.Data.GuildSave | src/char_sql/int_guild.c:56-60 | the save bit is cleared only after a full success |
| GuildData.Data.AddMember | src/char_sql/int_guild.c:1391-1424 | the first free slot, or the answer 1 |
| GuildData.Data.RemoveMember | src/char_sql/int_guild.c:1427-1471 | the slot is emptied and the row removed if the DELETE succeeds; the guild is to be broken up iff a member left and nobody is left |
| GuildData.Data.CheckEmpty | src/char_sql/int_guild.c:897-908 | whether nobody is left |
| GuildData.Data.ChangeInfoShort | src/char_sql/int_guild.c:1490-1545 | the member changed and marked, and the guild kept while it has members with a level |
| GuildData.Data.ChangeInfo | src/char_sql/int_guild.c:1661-1772 | the field changed and marked |
| GuildData.Data.ChangeMaster | src/char_sql/int_guild.c:2031-2066 | the first member whose name begins alike is swapped with the first place, the positions with them, both marked; a name too long or of nobody changes nothing |
| GuildData.Data.SwapMaster | src/char_sql/int_guild.c:2050-2058 | the swap |
| GuildData.Data.SetOnline | src/char_sql/int_guild.c:780-792 | the member online and marked |
| GuildData.Data.SetOffline | src/char_sql/int_guild.c:824-837 | the members offline and marked, the guild removable with nobody online |
| GuildLevel.BuyAllConserves | src/char_sql/int_guild.c:938-946 | levelling loses no experience, gives a skill point a level, ends with too little for the next level or at the last, and never passes level 100 |
| GuildLevel.BuysEveryLevel | src/char_sql/int_guild.c:938-946 | every level reached had a price and could be paid for |
| GuildLevel.CalcLevelConserves | src/char_sql/int_guild.c:930-949 | the same from a level that may have been unset |
| GuildLevel.CalcLevelTwice | src/char_sql/int_guild.c:930-949 | calculating again changes nothing |
| GuildLevel.LevelsArePaidFor | src/char_sql/int_guild.c:910-949 | the experience spent is the sum of the table's entries for the levels gained; none of these is 0, and the next is, or is too dear, or there is none |
| GuildLevel.NoGainWithoutRise | src/char_sql/int_guild.c:1705-1711 | experience that does not rise gives the guild nothing |
| GuildLevel.ShareIsExact | src/char_sql/int_guild.c:1707-1711 | the guild's share is the percentage rounded down iff the product fits in 32 bits |
| GuildLevel.ShareWraps | src/char_sql/int_guild.c:1707-1711 | 43000000 points at 200 percent become 100654 |
| GuildLevel.FullRate | src/char_sql/int_guild.c:1707-1711 | at the full rate the guild gets all of a rise, however large |
| GuildLevel.GainIsConserved | src/char_sql/int_guild.c:1700-1726 | experience before plus the share, up to UINT_MAX, is experience after plus the cost of the levels gained |
| GuildLevel.Info.CalcInfo | src/char_sql/int_guild.c:930-949 | the loop that buys levels, and the next price |
| GuildLevel.Info.MemberExp | src/char_sql/int_guild.c:1700-1726 | the guild after a member's experience changed |
| StorageLock.Exclusive | src/char_sql/int_storage.c:339-384 | two connections are let through to the same guild only with a release by the first in between |
| StorageLock.TableIsHistory | src/char_sql/int_storage.c:339-384 | for any guild number: the table holds exactly the connections last let through for a positive one that have not released since |
| StorageLock.OnlyGuilds | src/char_sql/int_storage.c:343-367 | only positive guild numbers are ever in the table |
| StorageLock.OnlyPositiveGuilds | src/char_sql/int_storage.c:343-350 | loads for numbers that are not positive are let through and lock nothing; a free guild is locked for whoever loads it |
| StorageLock.HeldUntilReleased | src/char_sql/int_storage.c:339-384 | a lock leaves its holder only by a release |
| StorageLock.RefusedIffHeld | src/char_sql/int_storage.c:347-350 | a load is refused iff somebody else holds the lock |
| StorageLock.OnlyTheHolderUnlocks | src/char_sql/int_storage.c:362-367 | an unlock from anybody else changes nothing |
| StorageLock.DisconnectIsClean | src/char_sql/char.c:2463-2466 | after a disconnect the connection holds nothing until it is let through again |
| StorageLock.LockTable.LoadGuildStorage | src/char_sql/int_storage.c:339-354 | granted or not, and the table after |
| StorageLock.LockTable.GuildStorageUnlock | src/char_sql/int_storage.c:357-369 | the table after an unlock |
| StorageLock.LockTable.Release | src/char_sql/int_storage.c:373-384 | the pass removes exactly the locks of the connection |
| Whisper.SenderGetsTheVerdict | src/char_sql/inter.c:645-736 | in every run the sender of a whisper is told exactly the verdict of its replies, and nothing before there is one; a whisper purged before it had a verdict never gets a result, whatever comes later |
| Whisper.PurgeForgets | src/char_sql/inter.c:614-632 | only whispers without a verdict are purged |
| Whisper.LostIffLate | src/char_sql/inter.c:602-632 | a whisper is lost exactly when a request finds it older than a minute and without a verdict |
| Whisper.AskDoes | src/char_sql/inter.c:692-706 | a request takes an entry of its own and drops exactly those older than a minute |
| Whisper.AtMostOneResult | src/char_sql/inter.c:719-736 | no whisper is answered twice in any run |
| Whisper.VerdictIsFirst | src/char_sql/inter.c:730-733 | a verdict other than 1 is the first reply other than 1; 1 is given only after as many replies of 1 as servers asked |
| Whisper.NoVerdictYet | src/char_sql/inter.c:730-733 | there is no verdict iff fewer servers than asked have replied, all with 1 |
| Whisper.Server.NoteExpired | src/char_sql/inter.c:602-612 | the pass notes expired whispers only, no two alike, and all of them if they fit |
| Whisper.Server.CheckTtl | src/char_sql/inter.c:614-632 | the batches end and leave exactly the whispers that have not expired |
| Whisper.Server.DropNoted | src/char_sql/inter.c:622-628 | the noted whispers are removed |
| Whisper.Server.WisRequest | src/char_sql/inter.c:692-706 | the table after a request: the expired gone, the new one waiting for every server reached |
| Whisper.Server.WisReply | src/char_sql/inter.c:719-736 | the table and the answers after a reply |

## Left out

- SQL text, escaping, logging, sockets, packet layouts and reading of configuration: rows, answers and events stand for them.
- The `online` column of the character table: `set_char_offline` with the char id 99 builds its UPDATE but does not send it, so the column cannot be followed from the registry.
- The login server's packets about accounts online, the guild side of going online and offline within the registry, and `char_load_done`'s checks of the session.
- Records of the registry, members and items are values in their table or array; pointers to them that a handler keeps across another handler are not modelled.
- More than 2^32 instances of one ERS manager, and the bytes inside entries.
- ErsAccounting.RunReports: a caller that writes into an entry which a double free has left on the list changes the link that its first word is; such writes are not modelled.
- CharLane.CharLane.WakeUp, RunWork and Commit: the two threads' blocking calls are ghost steps of the protocol; memory-model effects below the mutex are not modelled.
- The cart, storage and guild-storage tables: they are saved by the same routine as the inventory. The other fields of a character save are not covered by its comparison and are left out.
- Names in the fame ranking, and the initial ranking read from the database.
- Column widths of quest and achievement rows (values that MySQL would clip).
- Party saves and party creation's queries; a party that is broken up or dropped is simply gone.
- The guild tables other than members, and what a new member's UPDATE does to the character table beyond its success or failure.
- The guild's average level, and the capacity that a skill gives: any capacity is allowed at any time (`GuildMembers.Resized`).
- The map-server side of the guild-storage lock, and saving of guild storage, which the lock does not guard.
- Overflow of the whisper counter after 2^31 whispers; name lookups, and whispers answered at once because the receiver does not exist or is the sender.
- Party.NextIsRight: a newcomer's family is any answer of `char_family` that names at most one member; the query behind it is left out.
- GuildData.Data.RemoveMember: says when the guild is to be broken up, not the deletion of its tables; the list of expulsions, of which the last ones are kept, is left out.
- GuildData.Data.ChangeInfo: leaves the guild experience that a member's gain brings to `GuildLevel.Info.MemberExp`.
- GuildSaver.Fair: is about a population that stays the same, and FairWhileDropping about one that only shrinks, because guilds loaded in between may be visited first any number of times.
