/** The guild-storage lock: which map-server connection may load a guild's storage. */
module StorageLock {
  import opened Foreach

  /** Loads and unlocks from a connection, and the loss of one. */
  datatype Event = Load(fd: int, guild: int) | Unlock(fd: int, guild: int) | Disconnect(fd: int)

  type Locks = map<int, int>

  predicate Locked(guild: int) { guild > 0 }

  /** Whether a load is let through. */
  predicate Granted(locks: Locks, fd: int, guild: int) {
    Locked(guild) && guild in locks ==> locks[guild] == fd
  }

  /** The locks after an event, with the lock configured on. */
  function Next(locks: Locks, e: Event): Locks {
    match e
    case Load(fd, guild) => if Locked(guild) && Granted(locks, fd, guild) then locks[guild := fd] else locks
    case Unlock(fd, guild) => if Locked(guild) && guild in locks && locks[guild] == fd then locks - {guild} else locks
    case Disconnect(fd) => map g | g in locks && locks[g] != fd :: locks[g]
  }

  /** The locks after the first n events, none being held at first. */
  function After(es: seq<Event>, n: nat): Locks
    requires n <= |es|
  {
    if n == 0 then map[] else Next(After(es, n - 1), es[n - 1])
  }

  /** Event i is a load that was let through. */
  predicate GrantedAt(es: seq<Event>, i: nat, fd: int, guild: int) {
    i < |es| && es[i] == Load(fd, guild) && Granted(After(es, i), fd, guild)
  }

  /** The holder gives the lock up, or is gone. */
  predicate Releases(e: Event, fd: int, guild: int) { e == Unlock(fd, guild) || e == Disconnect(fd) }

  predicate Released(es: seq<Event>, from: nat, to: nat, fd: int, guild: int) {
    exists k :: from <= k < to && k < |es| && Releases(es[k], fd, guild)
  }

  /** Who holds the lock can be told from the history alone: whoever was last let
      through and has neither unlocked nor been disconnected since. */
  ghost predicate Holds(es: seq<Event>, n: nat, fd: int, guild: int) {
    exists i :: 0 <= i < n && GrantedAt(es, i, fd, guild) && !Released(es, i + 1, n, fd, guild)
  }

  /** The lock goes from a holder only by a release. */
  lemma {:induction false} HeldUntilReleased(es: seq<Event>, i: nat, n: nat, fd: int, guild: int)
    requires Locked(guild) && i < n <= |es| && GrantedAt(es, i, fd, guild)
    requires !Released(es, i + 1, n, fd, guild)
    ensures guild in After(es, n) && After(es, n)[guild] == fd
    decreases n
  {
    if n > i + 1 {
      HeldUntilReleased(es, i, n - 1, fd, guild);
      assert !Releases(es[n - 1], fd, guild);
    }
  }

  /** Only positive guilds are ever in the table. */
  lemma {:induction false} OnlyGuilds(es: seq<Event>, n: nat)
    requires n <= |es|
    ensures forall g :: g in After(es, n) ==> Locked(g)
  {
    if n > 0 {
      OnlyGuilds(es, n - 1);
    }
  }

  predicate HolderIs(locks: Locks, fd: int, guild: int) { guild in locks && locks[guild] == fd }

  lemma {:induction false} HolderWasLetThrough(es: seq<Event>, n: nat, fd: int, guild: int)
    requires n <= |es| && HolderIs(After(es, n), fd, guild)
    ensures Holds(es, n, fd, guild)
    decreases n
  {
    OnlyGuilds(es, n);
    if HolderIs(After(es, n - 1), fd, guild) {
      HolderWasLetThrough(es, n - 1, fd, guild);
      var i :| 0 <= i < n - 1 && GrantedAt(es, i, fd, guild) && !Released(es, i + 1, n - 1, fd, guild);
      assert !Releases(es[n - 1], fd, guild);
      assert !Released(es, i + 1, n, fd, guild);
    } else {
      assert GrantedAt(es, n - 1, fd, guild) && !Released(es, n, n, fd, guild);
    }
  }

  /** The table is exactly the history's holders of real guilds: nobody holds a lock for
      a guild number that is not positive, although all such loads are let through. */
  lemma TableIsHistory(es: seq<Event>, n: nat, fd: int, guild: int)
    requires n <= |es|
    ensures HolderIs(After(es, n), fd, guild) <==> Locked(guild) && Holds(es, n, fd, guild)
  {
    if HolderIs(After(es, n), fd, guild) {
      OnlyGuilds(es, n);
      HolderWasLetThrough(es, n, fd, guild);
    }
    if Locked(guild) && Holds(es, n, fd, guild) {
      var i :| 0 <= i < n && GrantedAt(es, i, fd, guild) && !Released(es, i + 1, n, fd, guild);
      HeldUntilReleased(es, i, n, fd, guild);
    }
  }

  /** Two connections are let through to the same guild only with a release by the first
      in between. */
  lemma Exclusive(es: seq<Event>, i: nat, j: nat, f: int, f': int, guild: int)
    requires Locked(guild) && i < j && f != f'
    requires GrantedAt(es, i, f, guild) && GrantedAt(es, j, f', guild)
    ensures exists k :: i < k < j && Releases(es[k], f, guild)
  {
    if !Released(es, i + 1, j, f, guild) {
      HeldUntilReleased(es, i, j, f, guild);
    }
  }

  /** A load is refused exactly when somebody else holds the lock. */
  lemma RefusedIffHeld(es: seq<Event>, i: nat, fd: int, guild: int)
    requires i < |es| && es[i] == Load(fd, guild)
    ensures !GrantedAt(es, i, fd, guild) <==> Locked(guild) && exists f :: f != fd && Holds(es, i, f, guild)
  {
    var locks := After(es, i);
    if guild in locks {
      TableIsHistory(es, i, locks[guild], guild);
    }
    if f :| f != fd && Locked(guild) && Holds(es, i, f, guild) {
      TableIsHistory(es, i, f, guild);
    }
  }

  /** Numbers that are not positive stand for no guild: loads for them are let through, and
      nothing is locked.  A free guild is locked for whoever loads it. */
  lemma OnlyPositiveGuilds(locks: Locks, fd: int, guild: int)
    ensures guild <= 0 ==> Granted(locks, fd, guild) && Next(locks, Load(fd, guild)) == locks
    ensures guild > 0 && guild !in locks ==> Next(locks, Load(fd, guild)) == locks[guild := fd]
  {
  }

  /** An unlock from anybody but the holder changes nothing. */
  lemma OnlyTheHolderUnlocks(locks: Locks, fd: int, guild: int)
    requires guild in locks ==> locks[guild] != fd
    ensures Next(locks, Unlock(fd, guild)) == locks
  {
  }

  /** After a disconnect the connection holds nothing until it is let through again, so a
      later connection with the same number starts with no lock. */
  lemma {:induction false} DisconnectIsClean(es: seq<Event>, d: nat, n: nat, fd: int, guild: int)
    requires d < n <= |es| && es[d] == Disconnect(fd)
    requires forall k :: d < k < n ==> !GrantedAt(es, k, fd, guild)
    ensures guild in After(es, n) ==> After(es, n)[guild] != fd
    decreases n
  {
    if n > d + 1 {
      DisconnectIsClean(es, d, n - 1, fd, guild);
      assert !GrantedAt(es, n - 1, fd, guild);
    }
  }

  class LockTable {
    var locks: map<int, int>
    const enabled: bool            // guild_storage_lock

    /** mapif_parse_LoadGuildStorage. */
    method LoadGuildStorage(fd: int, guild: int) returns (granted: bool)
      requires fd != 0
      modifies this
      ensures granted <==> !enabled || Granted(old(locks), fd, guild)
      ensures locks == if enabled then Next(old(locks), Load(fd, guild)) else old(locks)
    {
      if enabled && guild > 0 {
        var owner := if guild in locks then locks[guild] else 0;
        if guild in locks && owner != fd {
          return false;
        }
        locks := locks[guild := fd];
      }
      return true;
    }

    /** mapif_parse_GuildStorageUnlock. */
    method GuildStorageUnlock(fd: int, guild: int)
      modifies this
      ensures locks == if enabled then Next(old(locks), Unlock(fd, guild)) else old(locks)
    {
      if enabled && guild > 0 {
        if guild in locks && locks[guild] == fd {
          locks := locks - {guild};
        }
      }
    }

    /** inter_storage_guildlock_release, when a map-server is lost. */
    method Release(fd: int)
      modifies this
      ensures locks == Next(old(locks), Disconnect(fd))
    {
      ghost var was := locks;
      var todo := locks.Keys;
      while todo != {}
        invariant todo <= was.Keys
        invariant forall g :: g in locks <==> g in was && (g in todo || was[g] != fd)
        invariant forall g :: g in locks ==> locks[g] == was[g]
        decreases |todo|
      {
        SomeLeft(todo);
        var g :| g in todo;
        todo := todo - {g};
        if locks[g] == fd {
          locks := locks - {g};
        }
      }
      ghost var freed := Next(was, Disconnect(fd));
      assert forall g :: g in freed <==> g in locks;
      assert forall g :: g in freed ==> freed[g] == locks[g];
      assert locks == Next(was, Disconnect(fd));
    }
  }
}
