/**
  The queue of map blocks waiting to be loaded or generated: requests from
  peers, worker threads that take blocks off their queues, and the completion
  callbacks. Every step is one critical section of the source.
 */
module Emerge {
  import opened Numbers
  import opened Options
  import opened Positions

  const PEER_ID_INEXISTENT: u16 := 0
  const MAX_LIMIT_BP := 1937

  predicate OverMaxLimit(p: Pos) {
    || p.x < -MAX_LIMIT_BP || p.x > MAX_LIMIT_BP
    || p.y < -MAX_LIMIT_BP || p.y > MAX_LIMIT_BP
    || p.z < -MAX_LIMIT_BP || p.z > MAX_LIMIT_BP
  }

  datatype Flags = Flags(allowGen: bool, forceQueue: bool)

  datatype Callback = Callback(function_: nat, param: nat)

  datatype BlockEmergeData = BlockEmergeData(peerRequested: u16, flags: Flags, callbacks: seq<Callback>)

  datatype Request = Request(pos: Pos, peer: u16, flags: Flags, callback: Option<Callback>)

  datatype Limits = Limits(total: u32, diskonly: u32, generate: u32)

  /** What `m_queue_mutex` protects: the requested blocks, the blocks counted per peer, the queues of the threads. */
  datatype Shared = Shared(blocks: map<Pos, BlockEmergeData>, peers: map<u16, nat>, queues: seq<seq<Pos>>) {
    function Count(peer: u16): nat {
      if peer in peers then peers[peer] else 0
    }
  }

  // ---------------------------------------------------------------------------
  // The critical sections
  // ---------------------------------------------------------------------------

  predicate Refuses(l: Limits, s: Shared, req: Request) {
    && !req.flags.forceQueue
    && (|| |s.blocks| >= l.total
        || if req.peer != PEER_ID_INEXISTENT
           then s.Count(req.peer) >= (if req.flags.allowGen then l.generate else l.diskonly)
           else s.Count(req.peer) * 2 >= l.total)
  }

  function Calls(callback: Option<Callback>): seq<Callback> {
    if callback.Some? then [callback.value] else []
  }

  /** Records a request; a block already waiting only gains flags and a callback. */
  function Push(l: Limits, s: Shared, req: Request): Shared {
    var n := s.Count(req.peer);
    if Refuses(l, s, req) then s.(peers := s.peers[req.peer := n])
    else if req.pos in s.blocks then
      var old_ := s.blocks[req.pos];
      var flags := Flags(old_.flags.allowGen || req.flags.allowGen, old_.flags.forceQueue || req.flags.forceQueue);
      var data := BlockEmergeData(old_.peerRequested, flags, old_.callbacks + Calls(req.callback));
      s.(blocks := s.blocks[req.pos := data], peers := s.peers[req.peer := n])
    else
      var data := BlockEmergeData(req.peer, req.flags, Calls(req.callback));
      s.(blocks := s.blocks[req.pos := data], peers := s.peers[req.peer := n + 1])
  }

  /** The first of the shortest queues. */
  function Shortest(queues: seq<seq<Pos>>): (t: nat)
    requires queues != []
    ensures t < |queues|
    ensures forall i :: 0 <= i < |queues| ==> |queues[t]| <= |queues[i]|
    ensures forall i :: 0 <= i < t ==> |queues[t]| < |queues[i]|
  {
    if |queues| == 1 then 0
    else
      var last := |queues| - 1;
      var t := Shortest(queues[..last]);
      if |queues[last]| < |queues[t]| then last else t
  }

  function Append(queues: seq<seq<Pos>>, t: nat, pos: Pos): seq<seq<Pos>>
    requires t < |queues|
  {
    queues[t := queues[t] + [pos]]
  }

  function Enqueue(l: Limits, s: Shared, req: Request): (Shared, bool)
    requires s.queues != []
  {
    var s' := Push(l, s, req);
    if Refuses(l, s, req) then (s', false)
    else if req.pos in s.blocks then (s', true)
    else (s'.(queues := Append(s.queues, Shortest(s.queues), req.pos)), true)
  }

  /** Forgets a block; nothing happens if the block or its peer is unknown. */
  function PopData(s: Shared, pos: Pos): Shared {
    if pos !in s.blocks || s.blocks[pos].peerRequested !in s.peers then s
    else
      var peer := s.blocks[pos].peerRequested;
      s.(blocks := s.blocks - {pos}, peers :=
         s.peers[peer := if s.peers[peer] == 0 then 0xFFFF_FFFF else s.peers[peer] - 1])
  }

  /** What a thread holds after taking block `pos`. */
  function Taken(s: Shared, pos: Pos): BlockEmergeData {
    if pos in s.blocks then s.blocks[pos] else BlockEmergeData(0, Flags(false, false), [])
  }

  /** Takes the front block off the queue of thread `t`. */
  function Pop(s: Shared, t: nat): (Shared, Pos)
    requires t < |s.queues| && s.queues[t] != []
  {
    var pos := s.queues[t][0];
    (PopData(s.(queues := s.queues[t := s.queues[t][1..]]), pos), pos)
  }

  // ---------------------------------------------------------------------------
  // The invariant of the shared state
  // ---------------------------------------------------------------------------

  function Queued(queues: seq<seq<Pos>>): multiset<Pos> {
    if queues == [] then multiset{} else multiset(queues[0]) + Queued(queues[1..])
  }

  /** The blocks a peer was the first to request. */
  function RequestedBy(blocks: map<Pos, BlockEmergeData>, peer: u16): set<Pos> {
    set pos | pos in blocks && blocks[pos].peerRequested == peer
  }

  /**
    Every requested block waits in exactly one queue, once, and nothing else
    waits; the count of a peer is the number of blocks it requested first.
   */
  ghost predicate Inv(s: Shared) {
    && s.queues != []
    && EachOnce(s.queues, s.blocks.Keys)
    && CountsExact(s.blocks, s.peers)
  }

  ghost predicate EachOnce(queues: seq<seq<Pos>>, blocks: set<Pos>) {
    Queued(queues) == multiset(blocks)
  }

  ghost predicate CountsExact(blocks: map<Pos, BlockEmergeData>, peers: map<u16, nat>) {
    && (forall pos :: pos in blocks ==> blocks[pos].peerRequested in peers)
    && (forall peer :: peer in peers ==> peers[peer] == |RequestedBy(blocks, peer)|)
  }

  lemma {:induction false} QueuedAppend(queues: seq<seq<Pos>>, t: nat, pos: Pos)
    requires t < |queues|
    ensures Queued(Append(queues, t, pos)) == Queued(queues) + multiset{pos}
  {
    var longer := Append(queues, t, pos);
    if t == 0 {
      assert longer[1..] == queues[1..];
    } else {
      assert longer[1..] == Append(queues[1..], t - 1, pos);
      QueuedAppend(queues[1..], t - 1, pos);
    }
  }

  lemma {:induction false} QueuedPop(queues: seq<seq<Pos>>, t: nat)
    requires t < |queues| && queues[t] != []
    ensures Queued(queues) == Queued(queues[t := queues[t][1..]]) + multiset{queues[t][0]}
  {
    var shorter := queues[t := queues[t][1..]];
    assert queues[t] == [queues[t][0]] + queues[t][1..];
    if t == 0 {
      assert shorter[1..] == queues[1..];
    } else {
      assert shorter[1..] == queues[1..][t - 1 := queues[t][1..]];
      QueuedPop(queues[1..], t - 1);
    }
  }

  lemma AppendKeepsOnce(queues: seq<seq<Pos>>, t: nat, pos: Pos, blocks: set<Pos>)
    requires t < |queues| && EachOnce(queues, blocks) && pos !in blocks
    ensures EachOnce(Append(queues, t, pos), blocks + {pos})
  {
    QueuedAppend(queues, t, pos);
  }

  lemma PopKeepsOnce(queues: seq<seq<Pos>>, t: nat, blocks: set<Pos>)
    requires t < |queues| && queues[t] != [] && EachOnce(queues, blocks)
    ensures queues[t][0] in blocks && EachOnce(queues[t := queues[t][1..]], blocks - {queues[t][0]})
  {
    var pos := queues[t][0];
    QueuedPop(queues, t);
    assert pos in multiset(blocks);
    Cancel(Queued(queues[t := queues[t][1..]]), multiset(blocks - {pos}), pos);
  }

  lemma Cancel(a: multiset<Pos>, b: multiset<Pos>, pos: Pos)
    requires a + multiset{pos} == b + multiset{pos}
    ensures a == b
  {
    assert a == (a + multiset{pos}) - multiset{pos};
    assert b == (b + multiset{pos}) - multiset{pos};
  }

  lemma CountsAfterAdd(blocks: map<Pos, BlockEmergeData>, peers: map<u16, nat>, pos: Pos, data: BlockEmergeData)
    requires CountsExact(blocks, peers) && pos !in blocks
    requires data.peerRequested !in peers ==> RequestedBy(blocks, data.peerRequested) == {}
    ensures var p := data.peerRequested;
            CountsExact(blocks[pos := data], peers[p := (if p in peers then peers[p] else 0) + 1])
  {
    var p := data.peerRequested;
    assert RequestedBy(blocks[pos := data], p) == RequestedBy(blocks, p) + {pos};
    forall q | q in peers && q != p
      ensures RequestedBy(blocks[pos := data], q) == RequestedBy(blocks, q)
    {
    }
  }

  lemma CountsAfterTouch(blocks: map<Pos, BlockEmergeData>, peers: map<u16, nat>, pos: Pos, data: BlockEmergeData)
    requires CountsExact(blocks, peers) && pos in blocks && data.peerRequested == blocks[pos].peerRequested
    ensures CountsExact(blocks[pos := data], peers)
  {
    forall q | q in peers
      ensures RequestedBy(blocks[pos := data], q) == RequestedBy(blocks, q)
    {
    }
  }

  lemma CountsAfterRemove(blocks: map<Pos, BlockEmergeData>, peers: map<u16, nat>, pos: Pos)
    requires CountsExact(blocks, peers) && pos in blocks
    ensures var p := blocks[pos].peerRequested;
            p in peers && peers[p] != 0 && CountsExact(blocks - {pos}, peers[p := peers[p] - 1])
  {
    var p := blocks[pos].peerRequested;
    assert pos in RequestedBy(blocks, p);
    assert RequestedBy(blocks, p) == RequestedBy(blocks - {pos}, p) + {pos};
    forall q | q in peers && q != p
      ensures RequestedBy(blocks - {pos}, q) == RequestedBy(blocks, q)
    {
    }
  }

  /** A peer without an entry requested nothing. */
  lemma NoEntryNoBlocks(blocks: map<Pos, BlockEmergeData>, peers: map<u16, nat>, peer: u16)
    requires CountsExact(blocks, peers)
    ensures peer !in peers ==> RequestedBy(blocks, peer) == {} && CountsExact(blocks, peers[peer := 0])
    ensures peer in peers ==> CountsExact(blocks, peers[peer := peers[peer]])
  {
    if peer !in peers {
      forall pos | pos in RequestedBy(blocks, peer)
        ensures false
      {
      }
    } else {
      assert peers[peer := peers[peer]] == peers;
    }
  }

  lemma TouchKeepsInv(s: Shared, pos: Pos, data: BlockEmergeData)
    requires Inv(s) && pos in s.blocks && data.peerRequested == s.blocks[pos].peerRequested
    ensures Inv(s.(blocks := s.blocks[pos := data]))
  {
    CountsAfterTouch(s.blocks, s.peers, pos, data);
    assert s.blocks[pos := data].Keys == s.blocks.Keys;
  }

  lemma AddKeepsInv(s: Shared, t: nat, pos: Pos, data: BlockEmergeData)
    requires Inv(s) && pos !in s.blocks && t < |s.queues|
    ensures var p := data.peerRequested;
            Inv(Shared(s.blocks[pos := data], s.peers[p := s.Count(p) + 1], Append(s.queues, t, pos)))
  {
    NoEntryNoBlocks(s.blocks, s.peers, data.peerRequested);
    CountsAfterAdd(s.blocks, s.peers, pos, data);
    AppendKeepsOnce(s.queues, t, pos, s.blocks.Keys);
    assert s.blocks[pos := data].Keys == s.blocks.Keys + {pos};
  }

  lemma EnqueueKeepsInv(l: Limits, s: Shared, req: Request)
    requires Inv(s)
    ensures Inv(Enqueue(l, s, req).0)
  {
    NoEntryNoBlocks(s.blocks, s.peers, req.peer);
    var counted := s.(peers := s.peers[req.peer := s.Count(req.peer)]);
    assert Inv(counted);
    if !Refuses(l, s, req) {
      var data := Push(l, s, req).blocks[req.pos];
      if req.pos in s.blocks {
        TouchKeepsInv(counted, req.pos, data);
      } else {
        AddKeepsInv(s, Shortest(s.queues), req.pos, data);
      }
    }
  }

  /** The front block of a queue is known, and its peer is counted at least once: the assertion in the source holds. */
  lemma FrontIsCounted(s: Shared, t: nat)
    requires Inv(s) && t < |s.queues| && s.queues[t] != []
    ensures var pos := s.queues[t][0];
            pos in s.blocks && s.blocks[pos].peerRequested in s.peers && s.peers[s.blocks[pos].peerRequested] != 0
  {
    PopKeepsOnce(s.queues, t, s.blocks.Keys);
    CountsAfterRemove(s.blocks, s.peers, s.queues[t][0]);
  }

  lemma PopKeepsInv(s: Shared, t: nat)
    requires Inv(s) && t < |s.queues| && s.queues[t] != []
    ensures var (s', pos) := Pop(s, t);
            Inv(s') && s'.blocks == s.blocks - {pos} && pos in s.blocks && |s'.blocks| == |s.blocks| - 1
  {
    FrontIsCounted(s, t);
    var pos := s.queues[t][0];
    PopKeepsOnce(s.queues, t, s.blocks.Keys);
    CountsAfterRemove(s.blocks, s.peers, pos);
    assert (s.blocks - {pos}).Keys == s.blocks.Keys - {pos};
  }

  // ---------------------------------------------------------------------------
  // Who is let in, said of the requested blocks
  // ---------------------------------------------------------------------------

  /**
    A request that is not forced needs room in the queue and room for its peer,
    whose limit depends on whether the request allows generating; the server
    itself may fill half of the queue.
   */
  ghost predicate Welcome(l: Limits, blocks: map<Pos, BlockEmergeData>, req: Request) {
    var own := |RequestedBy(blocks, req.peer)|;
    || req.flags.forceQueue
    || (&& |blocks| < l.total
        && if req.peer == 0 then own + own < l.total
           else if req.flags.allowGen then own < l.generate
           else own < l.diskonly)
  }

  lemma RefusesTheOthers(l: Limits, s: Shared, req: Request)
    requires CountsExact(s.blocks, s.peers)
    ensures Refuses(l, s, req) <==> !Welcome(l, s.blocks, req)
  {
    NoEntryNoBlocks(s.blocks, s.peers, req.peer);
  }

  lemma AcceptsTheWelcome(l: Limits, s: Shared, req: Request)
    requires Inv(s)
    ensures Enqueue(l, s, req).1 <==> Welcome(l, s.blocks, req)
  {
    RefusesTheOthers(l, s, req);
  }

  /** The callbacks of a request come last, and its flags are added to those that the block has. */
  ghost predicate Merged(before: BlockEmergeData, req: Request, after: BlockEmergeData) {
    && after.peerRequested == before.peerRequested
    && (after.flags.allowGen <==> before.flags.allowGen || req.flags.allowGen)
    && (after.flags.forceQueue <==> before.flags.forceQueue || req.flags.forceQueue)
    && (req.callback.None? ==> after.callbacks == before.callbacks)
    && (req.callback.Some? ==> after.callbacks == before.callbacks + [req.callback.value])
  }

  /** Exactly one queue is longer, by `pos` at its end, and none was shorter. */
  ghost predicate JoinsShortest(before: seq<seq<Pos>>, after: seq<seq<Pos>>, pos: Pos) {
    && |after| == |before|
    && exists t :: 0 <= t < |before| && after[t] == before[t] + [pos] && LeastAt(before, t)
         && forall i :: 0 <= i < |before| && i != t ==> after[i] == before[i]
  }

  ghost predicate LeastAt(queues: seq<seq<Pos>>, t: int)
    requires 0 <= t < |queues|
  {
    forall i :: 0 <= i < |queues| ==> |queues[t]| <= |queues[i]|
  }

  lemma AppendJoins(queues: seq<seq<Pos>>, pos: Pos)
    requires queues != []
    ensures JoinsShortest(queues, Append(queues, Shortest(queues), pos), pos)
  {
    var t := Shortest(queues);
    assert LeastAt(queues, t);
  }

  lemma PushMerges(l: Limits, s: Shared, req: Request)
    requires !Refuses(l, s, req)
    ensures var before := if req.pos in s.blocks then s.blocks[req.pos] else BlockEmergeData(req.peer, req.flags, []);
            var blocks' := Push(l, s, req).blocks;
            && req.pos in blocks' && Merged(before, req, blocks'[req.pos])
            && blocks' == s.blocks[req.pos := blocks'[req.pos]]
  {
  }

  ghost predicate Entered(s: Shared, s': Shared, req: Request, data: BlockEmergeData) {
    && s'.blocks == s.blocks[req.pos := data]
    && if req.pos in s.blocks then Merged(s.blocks[req.pos], req, data) && s'.queues == s.queues
       else Merged(BlockEmergeData(req.peer, req.flags, []), req, data) && JoinsShortest(s.queues, s'.queues, req.pos)
  }

  /**
    What a request does: refused, it changes no block and no queue; accepted for
    a block that waits, it is merged into it; else the block is the peer's, has
    the flags of the request and joins a shortest queue.
   */
  lemma EnqueueIs(l: Limits, s: Shared, req: Request)
    requires Inv(s)
    ensures var (s', ok) := Enqueue(l, s, req);
            && (ok <==> Welcome(l, s.blocks, req))
            && (!ok ==> s'.blocks == s.blocks && s'.queues == s.queues)
            && (ok ==> exists data :: Entered(s, s', req, data))
  {
    AcceptsTheWelcome(l, s, req);
    if !Refuses(l, s, req) {
      PushMerges(l, s, req);
      AppendJoins(s.queues, req.pos);
      var data := Push(l, s, req).blocks[req.pos];
      assert Entered(s, Enqueue(l, s, req).0, req, data);
    }
  }

  const MAX_MAP_GENERATION_LIMIT := 31007

  /** Outside the map are the blocks that begin more than 31007 nodes from the middle. */
  lemma OutsideIs(p: Pos)
    ensures OverMaxLimit(p) <==>
            || p.x * 16 < -MAX_MAP_GENERATION_LIMIT || p.x * 16 > MAX_MAP_GENERATION_LIMIT
            || p.y * 16 < -MAX_MAP_GENERATION_LIMIT || p.y * 16 > MAX_MAP_GENERATION_LIMIT
            || p.z * 16 < -MAX_MAP_GENERATION_LIMIT || p.z * 16 > MAX_MAP_GENERATION_LIMIT
  {
  }

  // ---------------------------------------------------------------------------
  // Whole runs
  // ---------------------------------------------------------------------------

  datatype Call = Call(pos: Pos, callback: Callback)

  datatype InHand = InHand(pos: Pos, data: BlockEmergeData)

  /** The callbacks of accepted requests, those that ran, and those that were dropped without running. */
  datatype Log = Log(accepted: multiset<Call>, ran: multiset<Call>, lost: multiset<Call>)

  /** The shared state, what each thread is working on, and the history. */
  datatype Machine = Machine(shared: Shared, hands: seq<Option<InHand>>, log: Log)

  datatype Step =
    | Ask(req: Request)
    | Take(t: nat)    // a thread pops its next block; a block outside the map is dropped at once
    | Finish(t: nat)  // the thread is done with its block, whatever the outcome, and runs the callbacks
    | Abort(t: nat)   // loading the block threw an exception, which ends the loop of the thread
    | Cancel(t: nat)  // a stopping thread cancels everything in its queue

  function CallsOf(pos: Pos, callbacks: seq<Callback>): multiset<Call> {
    if callbacks == [] then multiset{} else multiset{Call(pos, callbacks[0])} + CallsOf(pos, callbacks[1..])
  }

  function Drain(s: Shared, t: nat, ran: multiset<Call>): (r: (Shared, multiset<Call>))
    requires t < |s.queues|
    ensures |r.0.queues| == |s.queues|
    decreases |s.queues[t]|
  {
    if s.queues[t] == [] then (s, ran)
    else
      var pos := s.queues[t][0];
      Drain(Pop(s, t).0, t, ran + CallsOf(pos, Taken(s, pos).callbacks))
  }

  function AskStep(l: Limits, m: Machine, req: Request): Machine
    requires m.shared.queues != []
  {
    var (s', ok) := Enqueue(l, m.shared, req);
    var accepted := if ok then m.log.accepted + CallsOf(req.pos, Calls(req.callback)) else m.log.accepted;
    m.(shared := s', log := m.log.(accepted := accepted))
  }

  function TakeStep(m: Machine, t: nat): Machine
    requires t < |m.hands| == |m.shared.queues| && m.shared.queues[t] != []
  {
    var (s', pos) := Pop(m.shared, t);
    var data := Taken(m.shared, pos);
    if OverMaxLimit(pos) then m.(shared := s', log := m.log.(lost := m.log.lost + CallsOf(pos, data.callbacks)))
    else m.(shared := s', hands := m.hands[t := Some(InHand(pos, data))])
  }

  /** A thread lets go of its block, with or without running the callbacks. */
  function LetGoStep(m: Machine, t: nat, run: bool): Machine
    requires t < |m.hands| && m.hands[t].Some?
  {
    var calls := CallsOf(m.hands[t].value.pos, m.hands[t].value.data.callbacks);
    m.(hands := m.hands[t := None],
       log := if run then m.log.(ran := m.log.ran + calls) else m.log.(lost := m.log.lost + calls))
  }

  function CancelStep(m: Machine, t: nat): Machine
    requires t < |m.shared.queues|
  {
    var (s', ran) := Drain(m.shared, t, m.log.ran);
    m.(shared := s', log := m.log.(ran := ran))
  }

  predicate Possible(m: Machine, step: Step)
    requires |m.hands| == |m.shared.queues|
  {
    match step
    case Ask(_) => true
    case Take(t) => t < |m.hands| && m.hands[t].None? && m.shared.queues[t] != []
    case Finish(t) => t < |m.hands| && m.hands[t].Some?
    case Abort(t) => t < |m.hands| && m.hands[t].Some?
    case Cancel(t) => t < |m.hands| && m.hands[t].None?
  }

  /** Steps that are not possible change nothing. */
  function Apply(l: Limits, m: Machine, step: Step): (m': Machine)
    requires m.shared.queues != [] && |m.hands| == |m.shared.queues|
    ensures m'.shared.queues != [] && |m'.hands| == |m'.shared.queues|
  {
    if !Possible(m, step) then m
    else
      match step
      case Ask(req) => AskStep(l, m, req)
      case Take(t) => TakeStep(m, t)
      case Finish(t) => LetGoStep(m, t, true)
      case Abort(t) => LetGoStep(m, t, false)
      case Cancel(t) => CancelStep(m, t)
  }

  function Run(l: Limits, m: Machine, steps: seq<Step>): (m': Machine)
    requires m.shared.queues != [] && |m.hands| == |m.shared.queues|
    ensures m'.shared.queues != [] && |m'.hands| == |m'.shared.queues|
  {
    if steps == [] then m
    else
      var last := |steps| - 1;
      Apply(l, Run(l, m, steps[..last]), steps[last])
  }

  function Start(threads: nat): Machine {
    Machine(Shared(map[], map[], seq(threads, _ => [])), seq(threads, _ => None),
            Log(multiset{}, multiset{}, multiset{}))
  }

  // ---------------------------------------------------------------------------
  // No callback is lost or run twice
  // ---------------------------------------------------------------------------

  function Waiting(blocks: map<Pos, BlockEmergeData>, c: Call): nat {
    if c.pos in blocks then multiset(blocks[c.pos].callbacks)[c.callback] else 0
  }

  function HeldBy(hand: Option<InHand>, c: Call): nat {
    if hand.Some? && hand.value.pos == c.pos then multiset(hand.value.data.callbacks)[c.callback] else 0
  }

  function Held(hands: seq<Option<InHand>>, c: Call): nat {
    if hands == [] then 0 else HeldBy(hands[0], c) + Held(hands[1..], c)
  }

  /** Every accepted callback is still waiting, in the hands of a thread, has run or was dropped. */
  ghost predicate Conserved(m: Machine, c: Call) {
    m.log.accepted[c] == Waiting(m.shared.blocks, c) + Held(m.hands, c) + m.log.ran[c] + m.log.lost[c]
  }

  lemma {:induction false} CallsOfCount(pos: Pos, callbacks: seq<Callback>, c: Call)
    ensures CallsOf(pos, callbacks)[c] == if c.pos == pos then multiset(callbacks)[c.callback] else 0
  {
    if callbacks != [] {
      assert callbacks == [callbacks[0]] + callbacks[1..];
      CallsOfCount(pos, callbacks[1..], c);
    }
  }

  lemma {:induction false} HeldUpdate(hands: seq<Option<InHand>>, t: nat, hand: Option<InHand>, c: Call)
    requires t < |hands|
    ensures Held(hands[t := hand], c) == Held(hands, c) - HeldBy(hands[t], c) + HeldBy(hand, c)
  {
    if t == 0 {
      assert hands[t := hand][1..] == hands[1..];
    } else {
      assert hands[t := hand][1..] == hands[1..][t - 1 := hand];
      HeldUpdate(hands[1..], t - 1, hand, c);
    }
  }

  lemma AskConserves(l: Limits, s: Shared, req: Request, c: Call)
    requires Inv(s)
    ensures var (s', ok) := Enqueue(l, s, req);
            Waiting(s'.blocks, c) == Waiting(s.blocks, c) + if ok then CallsOf(req.pos, Calls(req.callback))[c] else 0
  {
    CallsOfCount(req.pos, Calls(req.callback), c);
    if req.pos in s.blocks {
      var old_ := s.blocks[req.pos].callbacks;
      assert multiset(old_ + Calls(req.callback)) == multiset(old_) + multiset(Calls(req.callback));
    }
  }

  lemma PopConserves(s: Shared, t: nat, c: Call)
    requires Inv(s) && t < |s.queues| && s.queues[t] != []
    ensures var (s', pos) := Pop(s, t);
            Waiting(s.blocks, c) == Waiting(s'.blocks, c) + CallsOf(pos, Taken(s, pos).callbacks)[c]
  {
    PopKeepsInv(s, t);
    var pos := s.queues[t][0];
    CallsOfCount(pos, Taken(s, pos).callbacks, c);
  }

  lemma {:induction false} DrainConserves(s: Shared, t: nat, ran: multiset<Call>, c: Call)
    requires Inv(s) && t < |s.queues|
    ensures var (s', ran') := Drain(s, t, ran);
            && Inv(s') && s'.queues[t] == []
            && Waiting(s'.blocks, c) + ran'[c] == Waiting(s.blocks, c) + ran[c]
            && |s'.blocks| <= |s.blocks|
    decreases |s.queues[t]|
  {
    if s.queues[t] != [] {
      PopKeepsInv(s, t);
      PopConserves(s, t, c);
      var pos := s.queues[t][0];
      DrainConserves(Pop(s, t).0, t, ran + CallsOf(pos, Taken(s, pos).callbacks), c);
    }
  }

  lemma AskStepConserves(l: Limits, m: Machine, req: Request, c: Call)
    requires Inv(m.shared) && Conserved(m, c)
    ensures Inv(AskStep(l, m, req).shared) && Conserved(AskStep(l, m, req), c)
  {
    EnqueueKeepsInv(l, m.shared, req);
    AskConserves(l, m.shared, req, c);
  }

  lemma TakeStepConserves(m: Machine, t: nat, c: Call)
    requires Inv(m.shared) && Conserved(m, c)
    requires t < |m.hands| == |m.shared.queues| && m.shared.queues[t] != [] && m.hands[t].None?
    ensures Inv(TakeStep(m, t).shared) && Conserved(TakeStep(m, t), c)
  {
    PopKeepsInv(m.shared, t);
    PopConserves(m.shared, t, c);
    var pos := m.shared.queues[t][0];
    var data := Taken(m.shared, pos);
    CallsOfCount(pos, data.callbacks, c);
    HeldUpdate(m.hands, t, Some(InHand(pos, data)), c);
  }

  lemma LetGoStepConserves(m: Machine, t: nat, run: bool, c: Call)
    requires Conserved(m, c) && t < |m.hands| && m.hands[t].Some?
    ensures Conserved(LetGoStep(m, t, run), c)
  {
    HeldUpdate(m.hands, t, None, c);
    CallsOfCount(m.hands[t].value.pos, m.hands[t].value.data.callbacks, c);
  }

  lemma StepConserves(l: Limits, m: Machine, step: Step, c: Call)
    requires Inv(m.shared) && |m.hands| == |m.shared.queues| && Conserved(m, c)
    ensures Inv(Apply(l, m, step).shared) && Conserved(Apply(l, m, step), c)
  {
    if Possible(m, step) {
      match step
      case Ask(req) => AskStepConserves(l, m, req, c);
      case Take(t) => TakeStepConserves(m, t, c);
      case Finish(t) => LetGoStepConserves(m, t, true, c);
      case Abort(t) => LetGoStepConserves(m, t, false, c);
      case Cancel(t) => DrainConserves(m.shared, t, m.log.ran, c);
    }
  }

  /** In every reachable state the invariant holds and no callback has been lost from sight. */
  lemma {:induction false} RunConserves(l: Limits, threads: nat, steps: seq<Step>, c: Call)
    requires threads > 0
    ensures var m := Run(l, Start(threads), steps); Inv(m.shared) && Conserved(m, c)
  {
    if steps == [] {
      StartConserves(threads, threads, c);
    } else {
      RunConserves(l, threads, steps[..|steps| - 1], c);
      StepConserves(l, Run(l, Start(threads), steps[..|steps| - 1]), steps[|steps| - 1], c);
    }
  }

  lemma {:induction false} StartConserves(threads: nat, n: nat, c: Call)
    requires threads > 0
    ensures Held(seq(n, _ => None), c) == 0
    ensures Queued(seq<seq<Pos>>(n, _ => [])) == multiset{}
    ensures CountsExact(map[], map[])
  {
    if n > 0 {
      assert seq(n, _ => None)[1..] == seq<Option<InHand>>(n - 1, _ => None);
      assert seq<seq<Pos>>(n, _ => [])[1..] == seq<seq<Pos>>(n - 1, _ => []);
      StartConserves(threads, n - 1, c);
    }
  }

  ghost predicate Calm(steps: seq<Step>) {
    forall i :: 0 <= i < |steps| ==> !steps[i].Abort?
  }

  /** Without exceptions only blocks outside the map lose their callbacks. */
  lemma {:induction false} OnlyOutsideIsLost(l: Limits, m: Machine, steps: seq<Step>, c: Call)
    requires m.shared.queues != [] && |m.hands| == |m.shared.queues|
    requires Calm(steps) && !OverMaxLimit(c.pos)
    ensures Run(l, m, steps).log.lost[c] == m.log.lost[c]
  {
    if steps != [] {
      var before := Run(l, m, steps[..|steps| - 1]);
      OnlyOutsideIsLost(l, m, steps[..|steps| - 1], c);
      var step := steps[|steps| - 1];
      if Possible(before, step) && step.Take? {
        TakeLosesOutside(before, step.t, c);
      }
    }
  }

  lemma TakeLosesOutside(m: Machine, t: nat, c: Call)
    requires t < |m.hands| == |m.shared.queues| && m.shared.queues[t] != [] && !OverMaxLimit(c.pos)
    ensures TakeStep(m, t).log.lost[c] == m.log.lost[c]
  {
    var pos := m.shared.queues[t][0];
    CallsOfCount(pos, Taken(m.shared, pos).callbacks, c);
  }

  /** No thread works on the block, and it waits in no queue. */
  ghost predicate Settled(m: Machine, pos: Pos) {
    && (forall t :: 0 <= t < |m.hands| ==> !(m.hands[t].Some? && m.hands[t].value.pos == pos))
    && (forall t :: 0 <= t < |m.shared.queues| ==> pos !in m.shared.queues[t])
  }

  lemma {:induction false} HeldNowhere(hands: seq<Option<InHand>>, c: Call)
    requires forall t :: 0 <= t < |hands| ==> !(hands[t].Some? && hands[t].value.pos == c.pos)
    ensures Held(hands, c) == 0
  {
    if hands != [] {
      HeldNowhere(hands[1..], c);
    }
  }

  lemma {:induction false} QueuedNowhere(queues: seq<seq<Pos>>, pos: Pos)
    requires forall t :: 0 <= t < |queues| ==> pos !in queues[t]
    ensures pos !in Queued(queues)
  {
    if queues != [] {
      QueuedNowhere(queues[1..], pos);
    }
  }

  /**
    Exactly once: in a run without exceptions, when a block inside the map is
    neither queued nor worked on, each callback accepted for it has run exactly
    as often as it was accepted.
   */
  lemma AcceptedRunsExactlyOnce(l: Limits, threads: nat, steps: seq<Step>, c: Call)
    requires threads > 0 && Calm(steps) && !OverMaxLimit(c.pos)
    requires Settled(Run(l, Start(threads), steps), c.pos)
    ensures var log := Run(l, Start(threads), steps).log; log.ran[c] == log.accepted[c]
  {
    var m := Run(l, Start(threads), steps);
    RunConserves(l, threads, steps, c);
    OnlyOutsideIsLost(l, Start(threads), steps, c);
    HeldNowhere(m.hands, c);
    QueuedNowhere(m.shared.queues, c.pos);
    assert c.pos !in multiset(m.shared.blocks.Keys);
  }

  /** A callback never runs more often than it was accepted, in any run and at any time. */
  lemma NeverRunsTwice(l: Limits, threads: nat, steps: seq<Step>, c: Call)
    requires threads > 0
    ensures var log := Run(l, Start(threads), steps).log; log.ran[c] + log.lost[c] <= log.accepted[c]
  {
    RunConserves(l, threads, steps, c);
  }

  // ---------------------------------------------------------------------------
  // Limits
  // ---------------------------------------------------------------------------

  ghost predicate PeerWithin(l: Limits, peer: u16, n: nat) {
    if peer != PEER_ID_INEXISTENT then n <= Max(l.generate, l.diskonly) else n * 2 <= l.total as int + 1
  }

  /** The queue is within its limits: in all, for each peer, and for requests of the server itself. */
  ghost predicate WithinLimits(l: Limits, s: Shared) {
    && |s.blocks| <= l.total
    && (forall peer :: peer in s.peers ==> PeerWithin(l, peer, s.peers[peer]))
  }

  function Max(a: u32, b: u32): u32 {
    if a < b then b else a
  }

  lemma PushWithinLimits(l: Limits, s: Shared, req: Request)
    requires WithinLimits(l, s) && !req.flags.forceQueue
    ensures WithinLimits(l, Push(l, s, req))
  {
    var s' := Push(l, s, req);
    assert PeerWithin(l, req.peer, s.Count(req.peer));
    assert PeerWithin(l, req.peer, s'.peers[req.peer]);
    if !Refuses(l, s, req) {
      assert s'.blocks.Keys == s.blocks.Keys + {req.pos};
    }
  }

  lemma EnqueueWithinLimits(l: Limits, s: Shared, req: Request)
    requires WithinLimits(l, s) && !req.flags.forceQueue && s.queues != []
    ensures WithinLimits(l, Enqueue(l, s, req).0)
  {
    var p := Push(l, s, req);
    PushWithinLimits(l, s, req);
    assert Enqueue(l, s, req).0 == p.(queues := Enqueue(l, s, req).0.queues);
  }

  lemma PopWithinLimits(l: Limits, s: Shared, t: nat)
    requires Inv(s) && t < |s.queues| && s.queues[t] != [] && WithinLimits(l, s)
    ensures Inv(Pop(s, t).0) && WithinLimits(l, Pop(s, t).0)
  {
    PopKeepsInv(s, t);
    FrontIsCounted(s, t);
  }

  lemma {:induction false} DrainOnlyLowers(l: Limits, s: Shared, t: nat, ran: multiset<Call>)
    requires Inv(s) && t < |s.queues| && WithinLimits(l, s)
    ensures WithinLimits(l, Drain(s, t, ran).0) && Inv(Drain(s, t, ran).0)
    decreases |s.queues[t]|
  {
    if s.queues[t] != [] {
      PopWithinLimits(l, s, t);
      var pos := s.queues[t][0];
      DrainOnlyLowers(l, Pop(s, t).0, t, ran + CallsOf(pos, Taken(s, pos).callbacks));
    }
  }

  lemma StepWithinLimits(l: Limits, m: Machine, step: Step)
    requires Inv(m.shared) && |m.hands| == |m.shared.queues| && WithinLimits(l, m.shared)
    requires step.Ask? ==> !step.req.flags.forceQueue
    ensures Inv(Apply(l, m, step).shared) && WithinLimits(l, Apply(l, m, step).shared)
  {
    if Possible(m, step) {
      match step
      case Ask(req) =>
        EnqueueKeepsInv(l, m.shared, req);
        EnqueueWithinLimits(l, m.shared, req);
      case Take(t) => PopWithinLimits(l, m.shared, t);
      case Cancel(t) => DrainOnlyLowers(l, m.shared, t, m.log.ran);
      case _ =>
    }
  }

  /** Without forced requests the limits hold in every reachable state. */
  lemma {:induction false} RunWithinLimits(l: Limits, threads: nat, steps: seq<Step>)
    requires threads > 0
    requires forall i :: 0 <= i < |steps| && steps[i].Ask? ==> !steps[i].req.flags.forceQueue
    ensures var s := Run(l, Start(threads), steps).shared; Inv(s) && WithinLimits(l, s)
  {
    if steps == [] {
      StartConserves(threads, threads, Call(Pos(0, 0, 0), Callback(0, 0)));
    } else {
      var before := steps[..|steps| - 1];
      assert forall i :: 0 <= i < |before| ==> before[i] == steps[i];
      RunWithinLimits(l, threads, before);
      StepWithinLimits(l, Run(l, Start(threads), before), steps[|steps| - 1]);
    }
  }
}
