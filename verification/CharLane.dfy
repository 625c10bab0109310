/** The lane's memory: linked request and completion queues, counters and flags.

    Each method of CharLane is one critical section of the source, or one turn of
    a loop outside the mutex, and is proved to take the lane from one state of
    LaneProtocol to the next. */
module CharLane {
  import opened LaneProtocol

  class Node {
    const ctx: Ctx
    ghost const serial: nat   // the job's position among the accepted ones
    var next: Node?

    constructor (ctx: Ctx, ghost serial: nat)
      ensures this.ctx == ctx && this.serial == serial && next == null
    {
      this.ctx := ctx;
      this.serial := serial;
      next := null;
    }
  }

  function First(nodes: seq<Node>): Node? { if nodes == [] then null else nodes[0] }

  function Last(nodes: seq<Node>): Node? { if nodes == [] then null else nodes[|nodes| - 1] }

  /** The next pointers link nodes into one chain that ends in NULL. */
  ghost predicate Linked(nodes: seq<Node>)
    reads nodes
  {
    && (forall i {:trigger nodes[i].next} :: 0 <= i < |nodes| - 1 ==> nodes[i].next == nodes[i + 1])
    && (nodes != [] ==> nodes[|nodes| - 1].next == null)
  }

  /** Serial numbers are consecutive, so the nodes are pairwise distinct. */
  ghost predicate Numbered(nodes: seq<Node>) {
    forall i {:trigger nodes[i].serial} :: 0 <= i < |nodes| ==> nodes[i].serial == nodes[0].serial + i
  }

  /** A head/tail pair of the lane: q_head and q_tail, or done_head and done_tail. */
  class NodeQueue {
    var head: Node?
    var tail: Node?
    ghost var nodes: seq<Node>

    ghost predicate Valid()
      reads this, nodes
    {
      head == First(nodes) && tail == Last(nodes) && Linked(nodes) && Numbered(nodes)
    }

    constructor ()
      ensures Valid() && nodes == []
    {
      head, tail, nodes := null, null, [];
    }

    method Push(node: Node)
      requires Valid() && node.next == null
      requires nodes != [] ==> node.serial == nodes[0].serial + |nodes|
      modifies this, nodes
      ensures Valid() && nodes == old(nodes) + [node]
    {
      if tail != null { tail.next := node; } else { head := node; }
      tail := node;
      nodes := nodes + [node];
    }

    method Pop() returns (node: Node)
      requires Valid() && nodes != []
      modifies this, nodes
      ensures Valid() && nodes == old(nodes)[1..] && node == old(nodes)[0] && node.next == null
    {
      node := head;
      head := node.next;
      if head == null { tail := null; }
      node.next := null;
      assert forall i :: 0 <= i < |nodes| ==> nodes[i].serial == nodes[0].serial + i;
      nodes := nodes[1..];
      assert forall i {:trigger nodes[i].next} :: 0 <= i < |nodes| - 1 ==>
          nodes[i] == old(nodes)[i + 1] && nodes[i] != node && nodes[i].next == old(nodes)[i + 2];
    }

    /** Leave the chain to the caller and start afresh. */
    method DetachAll() returns (chain: Node?)
      requires Valid()
      modifies this
      ensures Valid() && nodes == [] && chain == First(old(nodes))
    {
      chain := head;
      head, tail, nodes := null, null, [];
    }
  }

  /** nodes carry these contexts and consecutive serial numbers. */
  ghost predicate Carries(nodes: seq<Node>, from: nat, ctxs: seq<Ctx>) {
    |nodes| == |ctxs| &&
    forall i :: 0 <= i < |nodes| ==> nodes[i].serial == from + i && nodes[i].ctx == ctxs[i]
  }

  ghost predicate Avoids(a: seq<Node>, b: seq<Node>) {
    forall i :: 0 <= i < |a| ==> a[i] !in b
  }

  /** Lists with different serial ranges share no node. */
  lemma Apart(a: seq<Node>, fromA: nat, ca: seq<Ctx>, b: seq<Node>, fromB: nat, cb: seq<Ctx>)
    requires Carries(a, fromA, ca) && Carries(b, fromB, cb) && fromA + |a| <= fromB
    ensures Avoids(a, b) && Avoids(b, a)
  {
    forall i, j | 0 <= i < |a| && 0 <= j < |b|
      ensures a[i] != b[j]
    {
      assert a[i].serial == fromA + i && b[j].serial == fromB + j;
    }
  }

  /** Where the nodes of a protocol state are: the detached batch, the completion
      queue, the worker's hand and the request queue, oldest first. */
  ghost predicate Places(m: Lane, batch: seq<Node>, done: seq<Node>, held: seq<Node>, queue: seq<Node>) {
    && Carries(batch, |m.dispatched|, Batch(m.game))
    && Carries(done, |m.dispatched| + |batch|, m.done)
    && Carries(held, |m.dispatched| + |batch| + |done|, Held(m.worker))
    && Carries(queue, |m.dispatched| + |batch| + |done| + |held|, m.queue)
  }

  lemma PlacesEnqueue(m: Lane, batch: seq<Node>, done: seq<Node>, held: seq<Node>, queue: seq<Node>, node: Node)
    requires Places(m, batch, done, held, queue)
    requires node.serial == |m.dispatched| + |batch| + |done| + |held| + |queue|
    ensures Places(DoEnqueue(m, node.ctx), batch, done, held, queue + [node])
    ensures queue != [] ==> node.serial == queue[0].serial + |queue|
    ensures Avoids(done, queue) && Avoids(batch, queue)
  {
    QueueApart(m, batch, done, held, queue);
  }

  lemma PlacesDequeue(m: Lane, batch: seq<Node>, done: seq<Node>, queue: seq<Node>)
    requires Places(m, batch, done, [], queue) && m.worker.AtTop? && queue != []
    ensures m.queue != [] && m.queue[0] == queue[0].ctx
    ensures Places(DoDequeue(m), batch, done, [queue[0]], queue[1..])
    ensures Avoids(done, queue) && Avoids(batch, queue)
  {
    QueueApart(m, batch, done, [], queue);
  }

  lemma PlacesComplete(m: Lane, batch: seq<Node>, done: seq<Node>, node: Node, queue: seq<Node>)
    requires Places(m, batch, done, [node], queue) && m.worker.Worked?
    ensures Places(DoComplete(m), batch, done + [node], [], queue)
    ensures node !in done && node !in batch && node !in queue
    ensures done != [] ==> node.serial == done[0].serial + |done|
    ensures Avoids(queue, done) && Avoids(batch, done)
  {
    var from := |m.dispatched|;
    Apart(batch, from, Batch(m.game), done, from + |batch|, m.done);
    Apart(batch, from, Batch(m.game), [node], from + |batch| + |done|, Held(m.worker));
    Apart(done, from + |batch|, m.done, [node], from + |batch| + |done|, Held(m.worker));
    Apart(done, from + |batch|, m.done, queue, from + |batch| + |done| + 1, m.queue);
    Apart([node], from + |batch| + |done|, Held(m.worker), queue, from + |batch| + |done| + 1, m.queue);
    assert [node][0] == node;
  }

  lemma PlacesSubtract(m: Lane, done: seq<Node>, held: seq<Node>, queue: seq<Node>)
    requires Places(m, [], done, held, queue) && m.game.Dispatching?
    ensures Places(DoSubtract(m), [], done, held, queue)
  {
  }

  lemma QueueApart(m: Lane, batch: seq<Node>, done: seq<Node>, held: seq<Node>, queue: seq<Node>)
    requires Places(m, batch, done, held, queue)
    ensures Avoids(done, queue) && Avoids(batch, queue)
  {
    var from := |m.dispatched|;
    Apart(batch, from, Batch(m.game), queue, from + |batch| + |done| + |held|, m.queue);
    Apart(done, from + |batch|, m.done, queue, from + |batch| + |done| + |held|, m.queue);
  }

  /** Part of the jobs completed in `before` have been dispatched, in order. */
  ghost predicate Drained(before: Lane, m: Lane) {
    && m.dispatched + Batch(m.game) == before.dispatched + before.done
    && m.done == [] && m.queue == before.queue && m.accepted == before.accepted
    && m.subtracted == before.subtracted
  }

  lemma DrainedKept(before: Lane, m: Lane)
    requires Drained(before, m) && m.game.Dispatching?
    ensures m.game.batch != [] ==> Drained(before, DoDispatch(m))
  {
    if m.game.batch != [] {
      MoveToDispatched(m.dispatched, m.game.batch);
    }
  }

  datatype Turn = Slept | Left | Took(node: Node)

  class CharLane {
    const q: NodeQueue
    const done: NodeQueue
    var qLen: nat
    var qDropped: nat
    var inflight: nat
    var qShutdown: bool

    ghost var model: Lane        // the protocol state these fields represent
    ghost var held: seq<Node>    // the worker's own node, if it has one
    ghost var batch: seq<Node>   // nodes detached by acl_poll and not yet freed

    /** The pointer structure. */
    ghost predicate Shape()
      reads this`batch, q, done, q.nodes, done.nodes, batch
    {
      q != done && q.Valid() && done.Valid() && Linked(batch)
    }

    /** The fields represent the protocol state. */
    ghost predicate Valid()
      reads this, q, done, q.nodes, done.nodes, batch
    {
      && Shape()
      && Places(model, batch, done.nodes, held, q.nodes)
      && qLen == model.qLen == |q.nodes| <= ACL_MAX_QUEUE && qDropped == model.qDropped
      && inflight == model.inflight < 0x1_0000_0000 && qShutdown == model.shutdown
    }

    constructor ()
      ensures Valid() && model == CREATED
    {
      q := new NodeQueue();
      done := new NodeQueue();
      qLen, qDropped, inflight, qShutdown := 0, 0, 0, false;
      model, held, batch := CREATED, [], [];
    }

    /** Record the protocol step that the updated fields have made. */
    ghost method Commit(next: Lane)
      requires Shape() && Places(next, batch, done.nodes, held, q.nodes)
      requires qLen == next.qLen == |q.nodes| <= ACL_MAX_QUEUE && qDropped == next.qDropped
      requires inflight == next.inflight < 0x1_0000_0000 && qShutdown == next.shutdown
      modifies this`model
      ensures Valid() && model == next
    {
      model := next;
    }

    method PushRequest(node: Node)
      requires Shape() && Avoids(done.nodes, q.nodes) && Avoids(batch, q.nodes) && node.next == null
      requires q.nodes != [] ==> node.serial == q.nodes[0].serial + |q.nodes|
      modifies q, q.nodes
      ensures Shape() && q.nodes == old(q.nodes) + [node]
    {
      q.Push(node);
    }

    method PopRequest() returns (node: Node)
      requires Shape() && Avoids(done.nodes, q.nodes) && Avoids(batch, q.nodes) && q.nodes != []
      modifies q, q.nodes
      ensures Shape() && q.nodes == old(q.nodes)[1..] && node == old(q.nodes)[0] && node.next == null
    {
      node := q.Pop();
    }

    method PushDone(node: Node)
      requires Shape() && Avoids(q.nodes, done.nodes) && Avoids(batch, done.nodes)
      requires node !in done.nodes && node !in q.nodes && node !in batch
      requires done.nodes != [] ==> node.serial == done.nodes[0].serial + |done.nodes|
      modifies node, done, done.nodes
      ensures Shape() && done.nodes == old(done.nodes) + [node]
    {
      node.next := null;
      done.Push(node);
    }

    /** acl_submit. */
    method Submit(ctx: Ctx, mallocOk: bool) returns (queued: bool)
      requires Valid()
      modifies this, q, q.nodes
      ensures Valid() && model == DoSubmit(old(model), ctx, mallocOk)
      ensures queued == Accepts(old(model), ctx, mallocOk)
    {
      if ctx == 0 || !mallocOk { return false; }
      var node := new Node(ctx, |model.dispatched| + |batch| + |done.nodes| + |held| + |q.nodes|);
      if qLen >= ACL_MAX_QUEUE {
        qDropped := Inc(qDropped);
        model := DoSubmit(model, ctx, mallocOk);
        return false;
      }
      Enqueue(node);
      queued := true;
    }

    /** acl_submit past the cap. */
    method Enqueue(node: Node)
      requires Valid() && node.ctx != 0 && qLen < ACL_MAX_QUEUE
      requires node.serial == |model.dispatched| + |batch| + |done.nodes| + |held| + |q.nodes| && node.next == null
      modifies this, q, q.nodes
      ensures Valid() && model == DoEnqueue(old(model), node.ctx)
    {
      ghost var next := DoEnqueue(model, node.ctx);
      PlacesEnqueue(model, batch, done.nodes, held, q.nodes, node);
      PushRequest(node);
      qLen := Inc(qLen);
      inflight := Inc(inflight);
      Commit(next);
    }

    /** One turn of acl_worker's loop under the mutex: sleep, leave, or take the
        oldest request. */
    method TakeJob() returns (turn: Turn)
      requires Valid() && model.worker.AtTop?
      modifies this, q, q.nodes
      ensures Valid() && model == DoCheck(old(model))
      ensures match turn
              case Slept => model.worker == Asleep(false)
              case Left => model.worker == Exited
              case Took(node) => model.worker == Working(node.ctx) && held == [node]
    {
      if !qShutdown && q.head == null {
        turn := Slept;
      } else if qShutdown && q.head == null {
        turn := Left;
      } else {
        var node := Dequeue();
        return Took(node);
      }
      model := DoCheck(model);
    }

    /** The head of the request queue goes to the worker. */
    method TakeRequest() returns (node: Node)
      requires Shape() && Avoids(done.nodes, q.nodes) && Avoids(batch, q.nodes) && q.nodes != []
      modifies this`qLen, this`held, q, q.nodes
      ensures Shape() && q.nodes == old(q.nodes)[1..] && qLen == Dec(old(qLen))
      ensures node == old(q.nodes)[0] && node.next == null && held == [node]
    {
      node := PopRequest();
      qLen := Dec(qLen);
      held := [node];
    }

    /** acl_worker with a request at hand. */
    method Dequeue() returns (node: Node)
      requires Valid() && model.worker.AtTop? && model.queue != []
      modifies this, q, q.nodes
      ensures Valid() && model == DoDequeue(old(model))
      ensures held == [node] && model.worker == Working(node.ctx)
    {
      ghost var next := DoDequeue(model);
      PlacesDequeue(model, batch, done.nodes, q.nodes);
      node := TakeRequest();
      Commit(next);
    }

    /** The worker's wake-up from pthread_cond_wait. */
    ghost method WakeUp()
      requires Valid() && model.worker.Asleep?
      modifies this`model
      ensures Valid() && model == old(model).(worker := AtTop)
    {
      model := model.(worker := AtTop);
    }

    /** acl_process outside the mutex: work_fn runs on the held node. */
    ghost method RunWork(node: Node)
      requires Valid() && model.worker.Working? && held == [node]
      modifies this`model
      ensures Valid() && model == DoWork(old(model))
    {
      model := DoWork(model);
    }

    /** acl_process under the mutex: append the node to the completion queue. */
    method Finish(node: Node)
      requires Valid() && model.worker.Worked? && held == [node]
      modifies this, node, done, done.nodes
      ensures Valid() && model == DoComplete(old(model))
      ensures done.nodes == old(done.nodes) + [node] && held == []
    {
      PlacesComplete(model, batch, done.nodes, node, q.nodes);
      PushDone(node);
      held := [];
      Commit(DoComplete(model));
    }

    /** acl_poll, first critical section: detach the whole completion queue. */
    method DetachDone() returns (chain: Node?)
      requires Valid() && model.game.Ready?
      modifies this, done
      ensures Valid() && model == DoDetach(old(model))
      ensures batch == old(done.nodes) && chain == First(batch)
    {
      batch := done.nodes;
      chain := done.DetachAll();
      model := DoDetach(model);
    }

    /** One turn of acl_poll's dispatch loop: done_fn on the first detached node. */
    method DispatchOne(node: Node) returns (next: Node?)
      requires Valid() && model.game.Dispatching? && batch != [] && batch[0] == node
      modifies this
      ensures Valid() && model == DoDispatch(old(model))
      ensures batch == old(batch)[1..] && next == First(batch)
    {
      next := node.next;
      assert forall i :: 0 <= i < |batch| - 1 ==> batch[1..][i] == batch[i + 1];
      batch := batch[1..];
      model := DoDispatch(model);
    }

    /** acl_poll, last critical section. */
    method SubtractDispatched(dispatched: nat)
      requires Valid() && model.game.Dispatching? && batch == [] && dispatched == model.game.count
      modifies this
      ensures Valid() && model == DoSubtract(old(model)) && batch == []
    {
      ghost var next := DoSubtract(model);
      PlacesSubtract(model, done.nodes, held, q.nodes);
      if dispatched > 0 {
        inflight := U32(inflight - dispatched);
      }
      Commit(next);
    }

    /** acl_poll run without interruption: done_fn is called on everything that had
        completed, oldest first, and exactly that many jobs leave inflight. */
    method Poll() returns (dispatched: nat)
      requires Valid() && model.game.Ready?
      modifies this, done
      ensures Valid() && model.game.Ready? && batch == []
      ensures model.dispatched == old(model.dispatched) + old(model.done) && model.done == []
      ensures dispatched == |old(model.done)| && model.subtracted == old(model.subtracted) + dispatched
      ensures model.queue == old(model.queue) && model.accepted == old(model.accepted)
    {
      ghost var before := model;
      var node := DetachDone();
      dispatched := 0;
      while node != null
        invariant Valid() && node == First(batch)
        invariant model.game.Dispatching? && model.game.count == dispatched
        invariant dispatched + |batch| == |before.done|
        invariant Drained(before, model)
        decreases |batch|
      {
        DrainedKept(before, model);
        node := DispatchOne(node);
        dispatched := dispatched + 1;
      }
      SubtractDispatched(dispatched);
    }

    /** acl_destroy up to pthread_join. */
    method RequestShutdown()
      requires Valid() && model.game.Ready?
      modifies this
      ensures Valid() && model == DoShutdown(old(model))
    {
      qShutdown := true;
      model := DoShutdown(model);
    }
  }
}
