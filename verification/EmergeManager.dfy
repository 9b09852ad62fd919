/** The emerge manager and its threads, updated in place; each method is one critical section. */
module EmergeManagers {
  import opened Numbers
  import opened Options
  import opened Positions
  import opened Emerge

  class EmergeThread {
    var blockQueue: seq<Pos>

    constructor ()
      ensures blockQueue == []
    {
      blockQueue := [];
    }

    method PushBlock(pos: Pos)
      modifies this
      ensures blockQueue == old(blockQueue) + [pos]
    {
      blockQueue := blockQueue + [pos];
    }
  }

  ghost function QueuesOf(threads: seq<EmergeThread>): (queues: seq<seq<Pos>>)
    reads threads
    ensures |queues| == |threads| && forall i :: 0 <= i < |threads| ==> queues[i] == threads[i].blockQueue
  {
    seq(|threads|, i requires 0 <= i < |threads| reads threads => threads[i].blockQueue)
  }

  /** The tests that stand before a request: `n` blocks wait, `countPeer` of them for its peer. */
  method OverLimit(limits: Limits, req: Request, n: nat, countPeer: nat, ghost s: Shared) returns (full: bool)
    requires n == |s.blocks| && countPeer == s.Count(req.peer)
    ensures full <==> Refuses(limits, s, req)
  {
    if !req.flags.forceQueue {
      if n >= limits.total {
        return true;
      }
      if req.peer != PEER_ID_INEXISTENT {
        var qlimitPeer := if req.flags.allowGen then limits.generate else limits.diskonly;
        if countPeer >= qlimitPeer {
          return true;
        }
      } else {
        if countPeer * 2 >= limits.total {
          return true;
        }
      }
    }
    return false;
  }

  /** The entry of the block, found or fresh, with what the request adds. */
  method Merge(limits: Limits, req: Request, exists_: bool, found: BlockEmergeData, ghost s: Shared)
    returns (data: BlockEmergeData)
    requires exists_ == (req.pos in s.blocks) && !Refuses(limits, s, req)
    requires found == if exists_ then s.blocks[req.pos] else BlockEmergeData(0, Flags(false, false), [])
    ensures data == Push(limits, s, req).blocks[req.pos]
  {
    data := found;
    if req.callback.Some? {
      data := data.(callbacks := data.callbacks + [req.callback.value]);
    }
    if exists_ {
      data := data.(flags := Flags(data.flags.allowGen || req.flags.allowGen,
                                   data.flags.forceQueue || req.flags.forceQueue));
    } else {
      data := data.(flags := req.flags, peerRequested := req.peer);
    }
  }

  lemma Recorded(limits: Limits, s: Shared, req: Request, blocks: map<Pos, BlockEmergeData>, peers: map<u16, nat>,
                 data: BlockEmergeData)
    requires !Refuses(limits, s, req) && data == Push(limits, s, req).blocks[req.pos]
    requires blocks == s.blocks[req.pos := data]
    requires peers == if req.pos in s.blocks then s.peers[req.peer := s.Count(req.peer)]
                      else s.peers[req.peer := s.Count(req.peer)][req.peer := s.Count(req.peer) + 1]
    ensures Shared(blocks, peers, s.queues) == Push(limits, s, req)
  {
  }

  class EmergeManager {
    const limits: Limits
    const threads: seq<EmergeThread>
    var blocksEnqueued: map<Pos, BlockEmergeData>
    var peerQueueCount: map<u16, nat>

    ghost function State(): Shared
      reads this, threads
    {
      Shared(blocksEnqueued, peerQueueCount, QueuesOf(threads))
    }

    ghost predicate DistinctThreads() {
      forall i, j :: 0 <= i < j < |threads| ==> threads[i] != threads[j]
    }

    ghost predicate Valid()
      reads this, threads
    {
      && DistinctThreads()
      && Inv(State())
    }

    /** The settings give the total at least the room of either per-peer limit. */
    constructor (total: u32, diskonly: u32, generate: u32, threads: seq<EmergeThread>)
      requires threads != [] && forall i, j :: 0 <= i < j < |threads| ==> threads[i] != threads[j]
      requires forall i :: 0 <= i < |threads| ==> threads[i].blockQueue == []
      ensures Valid() && this.threads == threads && blocksEnqueued == map[] && peerQueueCount == map[]
      ensures limits.diskonly <= limits.total && limits.generate <= limits.total
      ensures limits.total in {total, limits.diskonly, limits.generate} && limits.total >= total
      ensures limits.diskonly == (if diskonly < 2 then 2 else if diskonly > 1000000 then 1000000 else diskonly)
      ensures limits.generate == (if generate < 1 then 1 else if generate > 1000000 then 1000000 else generate)
    {
      var d: u32 := RangeLim(diskonly, 2, 1000000);
      var g: u32 := RangeLim(generate, 1, 1000000);
      limits := Limits(Max(total, Max(d, g)), d, g);
      this.threads := threads;
      blocksEnqueued := map[];
      peerQueueCount := map[];
      new;
      EmptyQueues(QueuesOf(threads));
    }

    method PushBlockEmergeData(req: Request) returns (ok: bool, entryAlreadyExists: bool)
      modifies `blocksEnqueued, `peerQueueCount
      ensures State() == Push(limits, old(State()), req)
      ensures ok == !Refuses(limits, old(State()), req)
      ensures old(CountsExact(blocksEnqueued, peerQueueCount)) ==> (ok <==> Welcome(limits, old(blocksEnqueued), req))
      ensures ok ==> entryAlreadyExists == (req.pos in old(blocksEnqueued))
    {
      ghost var before := State();
      if CountsExact(blocksEnqueued, peerQueueCount) {
        RefusesTheOthers(limits, before, req);
      }
      if req.peer !in peerQueueCount {
        peerQueueCount := peerQueueCount[req.peer := 0];
      }
      var countPeer := peerQueueCount[req.peer];
      assert peerQueueCount == before.peers[req.peer := before.Count(req.peer)];
      var full := OverLimit(limits, req, |blocksEnqueued|, countPeer, before);
      if full {
        return false, false;
      }
      entryAlreadyExists := req.pos in blocksEnqueued;
      var found := if entryAlreadyExists then blocksEnqueued[req.pos] else BlockEmergeData(0, Flags(false, false), []);
      var data := Merge(limits, req, entryAlreadyExists, found, before);
      if !entryAlreadyExists {
        peerQueueCount := peerQueueCount[req.peer := countPeer + 1];
      }
      blocksEnqueued := blocksEnqueued[req.pos := data];
      ok := true;
      Recorded(limits, before, req, blocksEnqueued, peerQueueCount, data);
    }

    method GetOptimalThread() returns (index: nat)
      requires threads != []
      ensures index < |threads| && index == Shortest(QueuesOf(threads))
    {
      index := 0;
      var lowest := |threads[0].blockQueue|;
      ghost var queues := QueuesOf(threads);
      for i := 1 to |threads|
        invariant index < i && lowest == |queues[index]|
        invariant forall j :: 0 <= j < i ==> lowest <= |queues[j]|
        invariant forall j :: 0 <= j < index ==> lowest < |queues[j]|
      {
        var nitems := |threads[i].blockQueue|;
        if nitems < lowest {
          index := i;
          lowest := nitems;
        }
      }
      assert Shortest(queues) == index;
    }

    method AssignBlock(pos: Pos)
      requires threads != [] && DistinctThreads()
      modifies threads
      ensures State() == old(State()).(queues := Append(old(State()).queues, Shortest(old(State()).queues), pos))
    {
      var t := GetOptimalThread();
      threads[t].PushBlock(pos);
      assert QueuesOf(threads) == Append(old(QueuesOf(threads)), t, pos);
    }

    method EnqueueBlockEmergeEx(req: Request) returns (ok: bool)
      requires Valid()
      modifies this, threads
      ensures Valid() && (State(), ok) == Enqueue(limits, old(State()), req)
      ensures ok <==> Welcome(limits, old(blocksEnqueued), req)
    {
      EnqueueKeepsInv(limits, State(), req);
      AcceptsTheWelcome(limits, State(), req);
      ok := Admit(req);
    }

    method Admit(req: Request) returns (ok: bool)
      requires threads != [] && DistinctThreads()
      modifies this, threads
      ensures (State(), ok) == Enqueue(limits, old(State()), req)
    {
      var exists_;
      ok, exists_ := PushBlockEmergeData(req);
      if ok && !exists_ {
        AssignBlock(req.pos);
      }
    }

    /** The assertion is the one in the source. */
    method PopBlockEmergeData(pos: Pos) returns (data: BlockEmergeData)
      requires CountsExact(blocksEnqueued, peerQueueCount)
      modifies `blocksEnqueued, `peerQueueCount
      ensures State() == PopData(old(State()), pos) && data == Taken(old(State()), pos)
    {
      if pos !in blocksEnqueued {
        return BlockEmergeData(0, Flags(false, false), []);
      }
      data := blocksEnqueued[pos];
      if data.peerRequested !in peerQueueCount {
        return;
      }
      CountsAfterRemove(blocksEnqueued, peerQueueCount, pos);
      assert peerQueueCount[data.peerRequested] != 0;
      peerQueueCount := peerQueueCount[data.peerRequested := peerQueueCount[data.peerRequested] - 1];
      blocksEnqueued := blocksEnqueued - {pos};
    }

    method PopFront(t: nat) returns (pos: Pos)
      requires DistinctThreads() && t < |threads| && threads[t].blockQueue != []
      modifies threads[t]
      ensures pos == old(threads[t].blockQueue)[0]
      ensures var s := old(State()); State() == s.(queues := s.queues[t := s.queues[t][1..]])
    {
      pos := threads[t].blockQueue[0];
      threads[t].blockQueue := threads[t].blockQueue[1..];
      assert QueuesOf(threads) == old(QueuesOf(threads))[t := old(threads[t].blockQueue)[1..]];
    }

    /** Called by thread `t`; finds nothing exactly when its queue is empty. */
    method PopBlockEmerge(t: nat) returns (r: Option<InHand>)
      requires Valid() && t < |threads|
      modifies this, threads[t]
      ensures Valid()
      ensures old(threads[t].blockQueue) == [] ==> r == None && State() == old(State())
      ensures old(threads[t].blockQueue) != [] ==>
                var s := old(State());
                var pos := s.queues[t][0];
                State() == Pop(s, t).0 && r == Some(InHand(pos, Taken(s, pos))) && pos in s.blocks
      ensures old(threads[t].blockQueue) != [] ==>
                var pos := old(threads[t].blockQueue)[0];
                && pos in old(blocksEnqueued) && r == Some(InHand(pos, old(blocksEnqueued)[pos]))
                && blocksEnqueued == old(blocksEnqueued) - {pos}
                && threads[t].blockQueue == old(threads[t].blockQueue)[1..]
    {
      if threads[t].blockQueue == [] {
        return None;
      }
      PopKeepsInv(State(), t);
      var pos := PopFront(t);
      var data := PopBlockEmergeData(pos);
      r := Some(InHand(pos, data));
    }

    /** Runs the callbacks of a block in their order; `done` records the calls made. */
    method RunCompletionCallbacks(pos: Pos, callbacks: seq<Callback>, done: seq<Call>) returns (done': seq<Call>)
      ensures done' == done + seq(|callbacks|, i requires 0 <= i < |callbacks| => Call(pos, callbacks[i]))
      ensures multiset(done') == multiset(done) + CallsOf(pos, callbacks)
    {
      done' := done;
      for i := 0 to |callbacks|
        invariant done' == done + seq(i, j requires 0 <= j < i => Call(pos, callbacks[j]))
      {
        done' := done' + [Call(pos, callbacks[i])];
      }
      CallsInOrder(pos, callbacks);
    }

    method CancelPendingItems(t: nat) returns (done: seq<Call>)
      requires Valid() && t < |threads|
      modifies this, threads[t]
      ensures Valid() && threads[t].blockQueue == []
      ensures (State(), multiset(done)) == Drain(old(State()), t, multiset{})
    {
      done := [];
      ghost var result := Drain(State(), t, multiset{});
      while threads[t].blockQueue != []
        invariant Valid() && Drain(State(), t, multiset(done)) == result
        decreases |threads[t].blockQueue|
      {
        var h := PopBlockEmerge(t);
        done := RunCompletionCallbacks(h.value.pos, h.value.data.callbacks, done);
      }
    }
  }

  lemma {:induction false} CallsInOrder(pos: Pos, callbacks: seq<Callback>)
    ensures multiset(seq(|callbacks|, i requires 0 <= i < |callbacks| => Call(pos, callbacks[i]))) == CallsOf(pos,
        callbacks)
  {
    if callbacks != [] {
      var calls := seq(|callbacks|, i requires 0 <= i < |callbacks| => Call(pos, callbacks[i]));
      var rest := callbacks[1..];
      CallsInOrder(pos, rest);
      assert calls == [calls[0]] + seq(|rest|, i requires 0 <= i < |rest| => Call(pos, rest[i]));
    }
  }

  function RangeLim(x: u32, lo: u32, hi: u32): u32 {
    if x < lo then lo else if x > hi then hi else x
  }

  lemma {:induction false} EmptyQueues(queues: seq<seq<Pos>>)
    requires forall i :: 0 <= i < |queues| ==> queues[i] == []
    ensures Queued(queues) == multiset{}
  {
    if queues != [] {
      EmptyQueues(queues[1..]);
    }
  }
}
