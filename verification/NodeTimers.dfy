/**
  The timers of the nodes of a block, indexed both by trigger time and by
  position, against a plain map from positions to timers. Times are reals.
 */
module NodeTimers {
  import opened Positions

  const NEVER := -1.0

  datatype NodeTimer = NodeTimer(timeout: real, elapsed: real, position: Pos)

  const NO_TIMER := NodeTimer(0.0, 0.0, Pos(0, 0, 0))

  /** An element of the ordered multimap; `id` is what an iterator to it refers to. */
  datatype Entry = Entry(id: nat, key: real, timer: NodeTimer)

  /** What the plain map holds for a position. */
  datatype Status = Status(timeout: real, elapsed: real)

  function StatusOf(e: Entry, now: real): Status {
    Status(e.timer.timeout, e.timer.timeout - (e.key - now))
  }

  /** The index of the entry an iterator refers to, or the number of entries if there is none. */
  function Locate(timers: seq<Entry>, id: nat): (i: nat)
    ensures i <= |timers| && (i < |timers| ==> timers[i].id == id)
  {
    if timers == [] || timers[0].id == id then 0 else 1 + Locate(timers[1..], id)
  }

  /** The multimap puts a new entry behind all that are not later. */
  function InsertSorted(timers: seq<Entry>, e: Entry): seq<Entry> {
    if timers == [] || e.key < timers[0].key then [e] + timers
    else [timers[0]] + InsertSorted(timers[1..], e)
  }

  /** Timers for one moment keep the order in which they came. */
  lemma {:induction false} InsertedBehindEqual(timers: seq<Entry>, e: Entry) returns (k: nat)
    ensures k <= |timers| && InsertSorted(timers, e) == timers[..k] + [e] + timers[k..]
    ensures forall i :: 0 <= i < k ==> timers[i].key <= e.key
    ensures k < |timers| ==> e.key < timers[k].key
  {
    k := 0;
    if timers != [] && timers[0].key <= e.key {
      var n := InsertedBehindEqual(timers[1..], e);
      k := n + 1;
      assert timers[..k] == [timers[0]] + timers[1..][..n] && timers[1..][n..] == timers[k..];
    }
  }

  function Erase(timers: seq<Entry>, id: nat): seq<Entry> {
    if timers == [] then []
    else if timers[0].id == id then timers[1..]
    else [timers[0]] + Erase(timers[1..], id)
  }

  ghost predicate SortedByKey(timers: seq<Entry>) {
    |timers| < 2 || (timers[0].key <= timers[1].key && SortedByKey(timers[1..]))
  }

  ghost predicate DistinctIds(timers: seq<Entry>) {
    timers == [] || ((forall e :: e in timers[1..] ==> e.id != timers[0].id) && DistinctIds(timers[1..]))
  }

  lemma {:induction false} FirstIsLeast(timers: seq<Entry>)
    requires SortedByKey(timers)
    ensures forall e :: e in timers ==> timers[0].key <= e.key
  {
    if timers != [] {
      FirstIsLeast(timers[1..]);
      assert timers == [timers[0]] + timers[1..];
    }
  }

  /** The two indexes are inverse to each other. */
  ghost predicate Inverse(timers: seq<Entry>, iterators: map<Pos, nat>) {
    && DistinctIds(timers)
    && (forall e :: e in timers ==> PointsTo(iterators, e))
    && (forall p :: p in iterators ==> Covered(timers, p))
  }

  ghost predicate PointsTo(iterators: map<Pos, nat>, e: Entry) {
    e.timer.position in iterators && iterators[e.timer.position] == e.id
  }

  ghost predicate Covered(timers: seq<Entry>, p: Pos) {
    exists e :: e in timers && e.timer.position == p
  }

  ghost predicate NextIsLeast(timers: seq<Entry>, next: real) {
    next == if timers == [] then NEVER else timers[0].key
  }

  /** No timer is due at the time that stands for "no timer". */
  ghost predicate NoneAtNever(timers: seq<Entry>) {
    forall e :: e in timers ==> e.key != NEVER
  }

  /** The plain map: what an iterator of a position leads to. */
  ghost function Model(timers: seq<Entry>, iterators: map<Pos, nat>, now: real): (m: map<Pos, Status>)
    requires Inverse(timers, iterators)
  {
    map p | p in iterators :: StatusOf(Find(timers, p), now)
  }

  ghost function Find(timers: seq<Entry>, p: Pos): (e: Entry)
    requires Covered(timers, p)
    ensures e in timers && e.timer.position == p
  {
    var e :| e in timers && e.timer.position == p;
    e
  }

  lemma OneEntryEach(timers: seq<Entry>, iterators: map<Pos, nat>)
    requires Inverse(timers, iterators)
    ensures forall e, f :: e in timers && f in timers && e.timer.position == f.timer.position ==> e == f
  {
    forall e, f | e in timers && f in timers && e.timer.position == f.timer.position
      ensures e == f
    {
      assert PointsTo(iterators, e) && PointsTo(iterators, f);
      SameIdSameEntry(timers, e, f);
    }
  }

  ghost predicate Shows(m: map<Pos, Status>, timers: seq<Entry>, iterators: map<Pos, nat>, now: real) {
    m.Keys == iterators.Keys &&
    forall e :: e in timers ==> e.timer.position in m && m[e.timer.position] == StatusOf(e, now)
  }

  lemma ModelShows(timers: seq<Entry>, iterators: map<Pos, nat>, now: real)
    requires Inverse(timers, iterators)
    ensures Shows(Model(timers, iterators, now), timers, iterators, now)
  {
    OneEntryEach(timers, iterators);
    forall e | e in timers
      ensures PointsTo(iterators, e) && Find(timers, e.timer.position) == e
    {
      assert PointsTo(iterators, e) && Covered(timers, e.timer.position);
    }
  }

  /** The map is determined by the entries. */
  lemma ModelIs(timers: seq<Entry>, iterators: map<Pos, nat>, now: real, m: map<Pos, Status>)
    requires Inverse(timers, iterators) && Shows(m, timers, iterators, now)
    ensures m == Model(timers, iterators, now)
  {
    ModelShows(timers, iterators, now);
    forall p | p in m
      ensures m[p] == Model(timers, iterators, now)[p]
    {
      assert Covered(timers, p);
    }
  }

  lemma {:induction false} InsertShape(timers: seq<Entry>, e: Entry)
    requires SortedByKey(timers) && DistinctIds(timers) && forall f :: f in timers ==> f.id != e.id
    ensures var timers' := InsertSorted(timers, e);
            && SortedByKey(timers') && DistinctIds(timers')
            && (forall f :: f in timers' <==> f == e || f in timers)
            && timers'[0] == if timers == [] || e.key < timers[0].key then e else timers[0]
  {
    if timers == [] || e.key < timers[0].key {
      assert ([e] + timers)[1..] == timers;
    } else {
      var rest := timers[1..];
      assert timers == [timers[0]] + rest;
      InsertShape(rest, e);
      assert InsertSorted(timers, e)[1..] == InsertSorted(rest, e);
    }
  }

  lemma {:induction false} EraseShape(timers: seq<Entry>, id: nat)
    requires SortedByKey(timers) && DistinctIds(timers)
    ensures var timers' := Erase(timers, id);
            && SortedByKey(timers') && DistinctIds(timers')
            && (forall f :: f in timers' <==> f in timers && f.id != id)
            && (timers != [] && timers[0].id != id ==> timers' != [] && timers'[0] == timers[0])
  {
    if timers != [] {
      var rest := timers[1..];
      assert timers == [timers[0]] + rest;
      if timers[0].id != id {
        EraseShape(rest, id);
        assert Erase(timers, id)[1..] == Erase(rest, id);
        if rest != [] {
          FirstIsLeast(timers);
        }
      }
    }
  }

  lemma AddedModel(timers: seq<Entry>, iterators: map<Pos, nat>, timers': seq<Entry>, e: Entry, now: real)
    requires Inverse(timers, iterators) && DistinctIds(timers') && e.timer.position !in iterators
    requires forall e' :: e' in timers' <==> e' == e || e' in timers
    ensures var iterators' := iterators[e.timer.position := e.id];
            && Inverse(timers', iterators')
            && Model(timers', iterators', now) == Model(timers, iterators, now)[e.timer.position := StatusOf(e, now)]
  {
    var iterators' := iterators[e.timer.position := e.id];
    forall e' | e' in timers'
      ensures PointsTo(iterators', e')
    {
      assert e' in timers ==> PointsTo(iterators, e');
    }
    forall p | p in iterators'
      ensures Covered(timers', p)
    {
      if p == e.timer.position {
        assert e in timers';
      } else {
        assert Covered(timers, p);
      }
    }
    ModelShows(timers, iterators, now);
    ModelIs(timers', iterators', now, Model(timers, iterators, now)[e.timer.position := StatusOf(e, now)]);
  }

  lemma RemovedModel(timers: seq<Entry>, iterators: map<Pos, nat>, timers': seq<Entry>, gone: Entry, now: real)
    requires Inverse(timers, iterators) && DistinctIds(timers') && gone in timers
    requires forall e :: e in timers' <==> e in timers && e.id != gone.id
    ensures var p := gone.timer.position;
            && Inverse(timers', iterators - {p})
            && Model(timers', iterators - {p}, now) == Model(timers, iterators, now) - {p}
  {
    var iterators' := iterators - {gone.timer.position};
    forall e | e in timers'
      ensures PointsTo(iterators', e)
    {
      assert PointsTo(iterators, e) && PointsTo(iterators, gone);
    }
    forall p | p in iterators'
      ensures Covered(timers', p)
    {
      assert Covered(timers, p);
      var e :| e in timers && e.timer.position == p;
      if e.id == gone.id {
        SameIdSameEntry(timers, e, gone);
      }
      assert e in timers';
    }
    ModelShows(timers, iterators, now);
    ModelIs(timers', iterators', now, Model(timers, iterators, now) - {gone.timer.position});
  }

  lemma {:induction false} SameIdSameEntry(timers: seq<Entry>, e: Entry, f: Entry)
    requires DistinctIds(timers) && e in timers && f in timers && e.id == f.id
    ensures e == f
  {
    if timers != [] {
      assert timers == [timers[0]] + timers[1..];
      if e != timers[0] && f != timers[0] {
        SameIdSameEntry(timers[1..], e, f);
      }
    }
  }

  // ---------------------------------------------------------------------------
  // Moving forward in time
  // ---------------------------------------------------------------------------

  function Advance(m: map<Pos, Status>, dt: real): map<Pos, Status> {
    map p | p in m :: Status(m[p].timeout, m[p].elapsed + dt)
  }

  predicate Due(s: Status) {
    s.elapsed >= s.timeout
  }

  function Fire(e: Entry, now: real): NodeTimer {
    NodeTimer(e.timer.timeout, e.timer.timeout + (now - e.key), e.timer.position)
  }

  ghost predicate FiredAt(fired: seq<NodeTimer>, p: Pos) {
    exists i :: 0 <= i < |fired| && fired[i].position == p
  }

  function Overdue(t: NodeTimer): real {
    t.elapsed - t.timeout
  }

  ghost predicate InFiringOrder(fired: seq<NodeTimer>) {
    forall i, j :: 0 <= i < j < |fired| ==>
      fired[i].position != fired[j].position && Overdue(fired[i]) >= Overdue(fired[j])
  }

  /** Exactly the due timers fire, once each, with the time they ran, the most overdue first; the rest only age. */
  ghost predicate Stepped(before: map<Pos, Status>, dt: real, after: map<Pos, Status>, fired: seq<NodeTimer>) {
    var aged := Advance(before, dt);
    && after == (map p | p in aged && !Due(aged[p]) :: aged[p])
    && (forall p :: FiredAt(fired, p) <==> p in aged && Due(aged[p]))
    && (forall i :: 0 <= i < |fired| ==> FiredAsIs(aged, fired[i]))
    && InFiringOrder(fired)
  }

  ghost predicate FiredAsIs(aged: map<Pos, Status>, t: NodeTimer) {
    t.position in aged && aged[t.position] == Status(t.timeout, t.elapsed)
  }

  lemma Ages(timers: seq<Entry>, iterators: map<Pos, nat>, now: real, dt: real)
    requires Inverse(timers, iterators)
    ensures Model(timers, iterators, now + dt) == Advance(Model(timers, iterators, now), dt)
  {
    ModelShows(timers, iterators, now);
    ModelIs(timers, iterators, now + dt, Advance(Model(timers, iterators, now), dt));
  }

  function FiredPositions(fired: seq<NodeTimer>): set<Pos> {
    set t | t in fired :: t.position
  }

  /** In the middle of a step: `rest` has not been looked at. */
  ghost predicate Firing(rest: seq<Entry>, iterators: map<Pos, nat>, now: real, aged: map<Pos, Status>,
                         fired: seq<NodeTimer>) {
    && SortedByKey(rest) && Inverse(rest, iterators)
    && Model(rest, iterators, now) == aged - FiredPositions(fired)
    && (forall t :: t in fired ==> FiredAsIs(aged, t) && OverdueBefore(t, rest, now))
    && InFiringOrder(fired)
  }

  ghost predicate OverdueBefore(t: NodeTimer, rest: seq<Entry>, now: real) {
    Overdue(t) >= 0.0 && forall e :: e in rest ==> Overdue(t) >= now - e.key
  }

  lemma FireNext(rest: seq<Entry>, tail: seq<Entry>, iterators: map<Pos, nat>, now: real, aged: map<Pos, Status>,
                 fired: seq<NodeTimer>)
    requires Firing(rest, iterators, now, aged, fired) && rest != [] && rest[0].key <= now && tail == rest[1..]
    ensures Firing(tail, iterators - {rest[0].timer.position}, now, aged, fired + [Fire(rest[0], now)])
  {
    var e := rest[0];
    TailMembers(rest, tail);
    RemovedModel(rest, iterators, tail, e, now);
    ModelShows(rest, iterators, now);
    FiredModel(Model(rest, iterators, now), aged, fired, Fire(e, now));
    OverdueNext(rest, tail, now, fired);
  }

  lemma FiredModel(left: map<Pos, Status>, aged: map<Pos, Status>, fired: seq<NodeTimer>, t: NodeTimer)
    requires left == aged - FiredPositions(fired) && FiredAsIs(left, t)
    ensures left - {t.position} == aged - FiredPositions(fired + [t])
    ensures FiredAsIs(aged, t)
    ensures forall u :: u in fired ==> u.position != t.position
  {
    assert FiredPositions(fired + [t]) == FiredPositions(fired) + {t.position};
    forall u | u in fired
      ensures u.position != t.position
    {
      assert u.position in FiredPositions(fired);
    }
  }

  lemma OverdueNext(rest: seq<Entry>, tail: seq<Entry>, now: real, fired: seq<NodeTimer>)
    requires SortedByKey(rest) && rest != [] && tail == rest[1..] && rest[0].key <= now
    requires forall t :: t in fired ==> OverdueBefore(t, rest, now) && t.position != rest[0].timer.position
    requires InFiringOrder(fired)
    ensures SortedByKey(tail) && InFiringOrder(fired + [Fire(rest[0], now)])
    ensures forall t :: t in fired + [Fire(rest[0], now)] ==> OverdueBefore(t, tail, now)
  {
    var t := Fire(rest[0], now);
    assert rest == [rest[0]] + tail;
    FirstIsLeast(rest);
    FiredNextInOrder(fired, t);
    assert OverdueBefore(t, tail, now);
    forall u | u in fired
      ensures OverdueBefore(u, tail, now)
    {
    }
  }

  lemma FiredNextInOrder(fired: seq<NodeTimer>, t: NodeTimer)
    requires InFiringOrder(fired) && forall u :: u in fired ==> u.position != t.position && Overdue(u) >= Overdue(t)
    ensures InFiringOrder(fired + [t])
  {
  }

  lemma TailMembers(timers: seq<Entry>, tail: seq<Entry>)
    requires timers != [] && tail == timers[1..] && DistinctIds(timers)
    ensures DistinctIds(tail)
    ensures forall e :: e in tail <==> e in timers && e.id != timers[0].id
  {
    assert timers == [timers[0]] + tail;
  }

  lemma AllFired(rest: seq<Entry>, iterators: map<Pos, nat>, now: real, before: map<Pos, Status>, dt: real,
                 fired: seq<NodeTimer>)
    requires Firing(rest, iterators, now, Advance(before, dt), fired)
    requires rest != [] ==> rest[0].key > now
    ensures Stepped(before, dt, Model(rest, iterators, now), fired)
  {
    var aged := Advance(before, dt);
    var left := Model(rest, iterators, now);
    ModelShows(rest, iterators, now);
    forall p | p in left
      ensures !Due(left[p])
    {
      assert Covered(rest, p);
      var e :| e in rest && e.timer.position == p;
      FirstIsLeast(rest);
      assert e.key > now;
    }
    forall p
      ensures FiredAt(fired, p) <==> p in FiredPositions(fired)
    {
      FiredAtIs(fired, p);
    }
    forall p | p in FiredPositions(fired)
      ensures p in aged && Due(aged[p])
    {
      var t :| t in fired && t.position == p;
      assert FiredAsIs(aged, t) && OverdueBefore(t, rest, now);
    }
    assert left == map p | p in aged && !Due(aged[p]) :: aged[p];
    forall p | p in aged && Due(aged[p])
      ensures FiredAt(fired, p)
    {
      assert p !in left;
    }
  }

  lemma FiredAtIs(fired: seq<NodeTimer>, p: Pos)
    ensures FiredAt(fired, p) <==> p in FiredPositions(fired)
  {
    if FiredAt(fired, p) {
      var j :| 0 <= j < |fired| && fired[j].position == p;
      assert fired[j] in fired;
    }
  }

  // ---------------------------------------------------------------------------
  // The list as values
  // ---------------------------------------------------------------------------

  /** The two indexes fit together. */
  ghost predicate Consistent(timers: seq<Entry>, iterators: map<Pos, nat>, nextId: nat) {
    SortedByKey(timers) && Inverse(timers, iterators) && IdsBelow(timers, nextId)
  }

  ghost predicate IdsBelow(timers: seq<Entry>, nextId: nat) {
    forall e :: e in timers ==> e.id < nextId
  }

  /** The next trigger time is the least one, and no timer is due at the reserved time. */
  ghost predicate Tracked(timers: seq<Entry>, next: real) {
    NextIsLeast(timers, next) && NoneAtNever(timers)
  }

  function NextAfterRemove(left: seq<Entry>, next: real, removed: real): real {
    if removed != next then next else if left == [] then NEVER else left[0].key
  }

  function NextAfterInsert(next: real, key: real): real {
    if next == NEVER || key < next then key else next
  }

  lemma Inserting(timers: seq<Entry>, iterators: map<Pos, nat>, e: Entry, now: real)
    requires Consistent(timers, iterators, e.id) && e.timer.position !in iterators
    ensures var timers' := InsertSorted(timers, e);
            var iterators' := iterators[e.timer.position := e.id];
            && Consistent(timers', iterators', e.id + 1)
            && Model(timers', iterators', now) == Model(timers, iterators, now)[e.timer.position := StatusOf(e, now)]
  {
    InsertShape(timers, e);
    AddedModel(timers, iterators, InsertSorted(timers, e), e, now);
  }

  lemma InsertingTracked(timers: seq<Entry>, next: real, e: Entry)
    requires SortedByKey(timers) && DistinctIds(timers) && forall f :: f in timers ==> f.id != e.id
    requires Tracked(timers, next) && e.key != NEVER
    ensures Tracked(InsertSorted(timers, e), NextAfterInsert(next, e.key))
  {
    InsertShape(timers, e);
    assert timers != [] ==> timers[0] in timers;
  }

  lemma Removing(timers: seq<Entry>, iterators: map<Pos, nat>, nextId: nat, gone: Entry, now: real)
    requires Consistent(timers, iterators, nextId) && gone in timers
    ensures var p := gone.timer.position;
            var timers' := Erase(timers, gone.id);
            && Consistent(timers', iterators - {p}, nextId)
            && Model(timers', iterators - {p}, now) == Model(timers, iterators, now) - {p}
  {
    EraseShape(timers, gone.id);
    RemovedModel(timers, iterators, Erase(timers, gone.id), gone, now);
  }

  lemma RemovingTracked(timers: seq<Entry>, next: real, gone: Entry)
    requires SortedByKey(timers) && DistinctIds(timers) && gone in timers
    requires NextIsLeast(timers, next)
    ensures NextIsLeast(Erase(timers, gone.id), NextAfterRemove(Erase(timers, gone.id), next, gone.key))
    ensures NoneAtNever(timers) ==> NoneAtNever(Erase(timers, gone.id))
  {
    EraseShape(timers, gone.id);
    if timers[0].id == gone.id {
      SameIdSameEntry(timers, timers[0], gone);
    }
  }

  /** With the next trigger time kept, a step that returns early has nothing to fire. */
  lemma TrackedMissesNone(timers: seq<Entry>, next: real, now: real)
    requires Tracked(timers, next)
    ensures !Overlooked(timers, next, now)
  {
    assert timers != [] ==> timers[0] in timers;
  }

  /** A first timer is due, but the test on the next trigger time returns early. */
  predicate Overlooked(timers: seq<Entry>, next: real, now: real) {
    timers != [] && timers[0].key <= now && (next == NEVER || now < next)
  }

  function TriggerTime(timer: NodeTimer, now: real): real {
    now + (timer.timeout - timer.elapsed)
  }

  /** Nothing fires: that is right exactly if the first timer is not due. */
  lemma Waiting(timers: seq<Entry>, iterators: map<Pos, nat>, now: real, before: map<Pos, Status>, dt: real)
    requires Firing(timers, iterators, now, Advance(before, dt), [])
    ensures Model(timers, iterators, now) == Advance(before, dt)
    ensures Stepped(before, dt, Model(timers, iterators, now), []) <==> !(timers != [] && timers[0].key <= now)
  {
    var aged := Advance(before, dt);
    assert aged - FiredPositions([]) == aged;
    ModelShows(timers, iterators, now);
    if timers != [] && timers[0].key <= now {
      var e := timers[0];
      assert e in timers;
      assert Due(aged[e.timer.position]) && !FiredAt([], e.timer.position);
    } else {
      AllFired(timers, iterators, now, before, dt, []);
    }
  }

  lemma PutAgain(m: map<Pos, Status>, p: Pos, s: Status)
    ensures (m - {p})[p := s] == m[p := s]
  {
  }

  lemma LocateEntry(timers: seq<Entry>, iterators: map<Pos, nat>, p: Pos)
    requires Inverse(timers, iterators) && p in iterators
    ensures Locate(timers, iterators[p]) < |timers| && timers[Locate(timers, iterators[p])].timer.position == p
  {
    assert Covered(timers, p);
    var e := Find(timers, p);
    assert PointsTo(iterators, e);
    LocateFinds(timers, e);
    SameIdSameEntry(timers, e, timers[Locate(timers, e.id)]);
  }

  lemma {:induction false} LocateFinds(timers: seq<Entry>, e: Entry)
    requires e in timers
    ensures Locate(timers, e.id) < |timers|
  {
    if timers[0].id != e.id {
      assert timers == [timers[0]] + timers[1..];
      LocateFinds(timers[1..], e);
    }
  }

  lemma Starts(timers: seq<Entry>, iterators: map<Pos, nat>, next: real, time: real, before: map<Pos, Status>,
               dt: real)
    requires SortedByKey(timers) && Inverse(timers, iterators) && Model(timers, iterators, time) == before
    ensures Firing(timers, iterators, time + dt, Advance(before, dt), [])
    ensures Tracked(timers, next) ==> !Overlooked(timers, next, time + dt)
  {
    Ages(timers, iterators, time, dt);
    assert Advance(before, dt) - FiredPositions([]) == Advance(before, dt);
    if Tracked(timers, next) {
      TrackedMissesNone(timers, next, time + dt);
    }
  }

  // ---------------------------------------------------------------------------
  // The reserved trigger time
  // ---------------------------------------------------------------------------

  /** A timer that is not overdue is never given the reserved time, as the clock starts at 0 and only advances. */
  lemma NotOverdueIsSafe(timer: NodeTimer, now: real)
    requires now >= 0.0 && timer.elapsed <= timer.timeout
    ensures TriggerTime(timer, now) != NEVER
  {
  }

  predicate InsertionTracks(timers: seq<Entry>, key: real) {
    timers == [] || timers[0].key != NEVER || key <= NEVER
  }

  /** Inserting keeps track of the least trigger time unless a timer is due at the reserved time before the new one. */
  lemma InsertTracksLeast(timers: seq<Entry>, next: real, e: Entry)
    requires SortedByKey(timers) && NextIsLeast(timers, next)
    ensures NextIsLeast(InsertSorted(timers, e), NextAfterInsert(next, e.key)) <==>
            InsertionTracks(timers, e.key)
  {
  }

  /** A step looks at the timers when one is due, but overlooks a first timer due at the reserved time. */
  lemma StepOverlooks(timers: seq<Entry>, next: real, now: real)
    requires NextIsLeast(timers, next) && timers != []
    ensures (timers[0].key <= now <==> !(next == NEVER || now < next)) <==> (timers[0].key != NEVER || now < NEVER)
    ensures Overlooked(timers, next, now) <==> timers[0].key == NEVER <= now
  {
  }

  // ---------------------------------------------------------------------------
  // The list
  // ---------------------------------------------------------------------------

  /** What is left without the entry `gone`. */
  method Erased(timers: seq<Entry>, iterators: map<Pos, nat>, next: real, gone: Entry, ghost nextId: nat,
                ghost now: real) returns (left: seq<Entry>, iterators': map<Pos, nat>, next': real)
    requires Consistent(timers, iterators, nextId) && gone in timers
    ensures Consistent(left, iterators', nextId)
    ensures Model(left, iterators', now) == Model(timers, iterators, now) - {gone.timer.position}
    ensures NextIsLeast(timers, next) ==> NextIsLeast(left, next')
    ensures Tracked(timers, next) ==> Tracked(left, next')
  {
    Removing(timers, iterators, nextId, gone, now);
    if NextIsLeast(timers, next) {
      RemovingTracked(timers, next, gone);
    }
    EraseShape(timers, gone.id);
    left, iterators', next' := Erase(timers, gone.id), iterators - {gone.timer.position}, next;
    if gone.key == next {
      next' := if left == [] then NEVER else left[0].key;
    }
  }

  /** The entries with a new one. */
  method Inserted(timers: seq<Entry>, iterators: map<Pos, nat>, next: real, timer: NodeTimer, now: real, id: nat)
    returns (more: seq<Entry>, iterators': map<Pos, nat>, next': real)
    requires Consistent(timers, iterators, id) && timer.position !in Model(timers, iterators, now)
    ensures Consistent(more, iterators', id + 1)
    ensures Model(more, iterators', now) ==
            Model(timers, iterators, now)[timer.position := Status(timer.timeout, timer.elapsed)]
    ensures NextIsLeast(timers, next) ==>
              (NextIsLeast(more, next') <==> InsertionTracks(timers, TriggerTime(timer, now)))
    ensures Tracked(timers, next) && TriggerTime(timer, now) != NEVER ==> Tracked(more, next')
  {
    var e := Entry(id, TriggerTime(timer, now), timer);
    Inserting(timers, iterators, e, now);
    if NextIsLeast(timers, next) {
      InsertTracksLeast(timers, next, e);
    }
    if Tracked(timers, next) && e.key != NEVER {
      InsertingTracked(timers, next, e);
    }
    more, iterators', next' := InsertSorted(timers, e), iterators[timer.position := id], next;
    if next == NEVER || e.key < next {
      next' := e.key;
    }
    assert StatusOf(e, now) == Status(timer.timeout, timer.elapsed);
  }

  /** The first timer of `rest` fires. */
  method FireFirst(rest: seq<Entry>, iterators: map<Pos, nat>, now: real, fired: seq<NodeTimer>,
                   ghost aged: map<Pos, Status>, ghost nextId: nat)
    returns (tail: seq<Entry>, iterators': map<Pos, nat>, fired': seq<NodeTimer>)
    requires rest != [] && rest[0].key <= now && IdsBelow(rest, nextId)
    requires Firing(rest, iterators, now, aged, fired)
    ensures |tail| < |rest| && IdsBelow(tail, nextId) && Firing(tail, iterators', now, aged, fired')
    ensures NoneAtNever(rest) ==> NoneAtNever(tail)
  {
    var t := rest[0].timer.(elapsed := rest[0].timer.timeout + (now - rest[0].key));
    tail, fired', iterators' := rest[1..], fired + [t], iterators - {t.position};
    FireNext(rest, tail, iterators, now, aged, fired);
  }

  /** Takes out the timers that are due by now. */
  method FireDue(timers: seq<Entry>, iterators: map<Pos, nat>, now: real, ghost before: map<Pos, Status>,
                 ghost dt: real, ghost nextId: nat)
    returns (rest: seq<Entry>, iterators': map<Pos, nat>, next: real, fired: seq<NodeTimer>)
    requires Firing(timers, iterators, now, Advance(before, dt), []) && IdsBelow(timers, nextId)
    ensures Consistent(rest, iterators', nextId) && Stepped(before, dt, Model(rest, iterators', now), fired)
    ensures NoneAtNever(timers) ==> Tracked(rest, next)
  {
    ghost var aged := Advance(before, dt);
    rest, iterators', fired := timers, iterators, [];
    while rest != [] && rest[0].key <= now
      invariant Firing(rest, iterators', now, aged, fired) && IdsBelow(rest, nextId)
      invariant NoneAtNever(timers) ==> NoneAtNever(rest)
      decreases |rest|
    {
      rest, iterators', fired := FireFirst(rest, iterators', now, fired, aged, nextId);
    }
    next := if rest == [] then NEVER else rest[0].key;
    AllFired(rest, iterators', now, before, dt, fired);
  }

  /** The timers at the time `now`, a step of `dt` later. */
  method After(timers: seq<Entry>, iterators: map<Pos, nat>, next: real, now: real, ghost before: map<Pos, Status>,
               ghost dt: real, ghost nextId: nat)
    returns (rest: seq<Entry>, iterators': map<Pos, nat>, next': real, fired: seq<NodeTimer>)
    requires Consistent(timers, iterators, nextId) && before == Model(timers, iterators, now - dt)
    ensures Consistent(rest, iterators', nextId)
    ensures Stepped(before, dt, Model(rest, iterators', now), fired) <==> !Overlooked(timers, next, now)
    ensures Overlooked(timers, next, now) ==> fired == [] && Model(rest, iterators', now) == Advance(before, dt)
    ensures Tracked(timers, next) ==>
              Tracked(rest, next') && Stepped(before, dt, Model(rest, iterators', now), fired)
  {
    Starts(timers, iterators, next, now - dt, before, dt);
    if next == NEVER || now < next {
      rest, iterators', next', fired := timers, iterators, next, [];
      Waiting(timers, iterators, now, before, dt);
    } else {
      rest, iterators', next', fired := FireDue(timers, iterators, now, before, dt, nextId);
    }
  }

  class NodeTimerList {
    var timers: seq<Entry>
    var iterators: map<Pos, nat>
    var nextTriggerTime: real
    var time: real
    var nextId: nat

    ghost predicate Valid()
      reads this
    {
      Consistent(timers, iterators, nextId)
    }

    ghost predicate Tracking()
      reads this
    {
      Tracked(timers, nextTriggerTime)
    }

    ghost function Contents(): map<Pos, Status>
      reads this
      requires Valid()
    {
      Model(timers, iterators, time)
    }

    constructor ()
      ensures Valid() && Tracking() && Contents() == map[] && time == 0.0
    {
      timers, iterators := [], map[];
      nextTriggerTime, time, nextId := NEVER, 0.0, 0;
    }

    method Get(p: Pos) returns (t: NodeTimer)
      requires Valid()
      ensures p in Contents() ==> t == NodeTimer(Contents()[p].timeout, Contents()[p].elapsed, p)
      ensures p !in Contents() ==> t == NO_TIMER
    {
      if p !in iterators {
        return NO_TIMER;
      }
      LocateEntry(timers, iterators, p);
      var e := timers[Locate(timers, iterators[p])];
      ModelShows(timers, iterators, time);
      t := e.timer.(elapsed := e.timer.timeout - (e.key - time));
    }

    method Remove(p: Pos)
      requires Valid()
      modifies `timers, `iterators, `nextTriggerTime
      ensures Valid() && Contents() == old(Contents()) - {p}
      ensures old(NextIsLeast(timers, nextTriggerTime)) ==> NextIsLeast(timers, nextTriggerTime)
      ensures old(Tracking()) ==> Tracking()
    {
      if p in iterators {
        LocateEntry(timers, iterators, p);
        EraseEntry(timers[Locate(timers, iterators[p])]);
      } else {
        assert Contents() == old(Contents()) - {p};
      }
    }

    method EraseEntry(e: Entry)
      requires Valid() && e in timers
      modifies `timers, `iterators, `nextTriggerTime
      ensures Valid() && Contents() == old(Contents()) - {e.timer.position}
      ensures old(NextIsLeast(timers, nextTriggerTime)) ==> NextIsLeast(timers, nextTriggerTime)
      ensures old(Tracking()) ==> Tracking()
    {
      timers, iterators, nextTriggerTime := Erased(timers, iterators, nextTriggerTime, e, nextId, time);
    }

    /**
      The caller makes sure that the position has no timer. The next trigger time stays the least one exactly if no
      first timer is due at the reserved time before the new one.
     */
    method Insert(timer: NodeTimer)
      requires Valid() && timer.position !in Contents()
      modifies `timers, `iterators, `nextTriggerTime, `nextId
      ensures Valid() && Contents() == old(Contents())[timer.position := Status(timer.timeout, timer.elapsed)]
      ensures old(NextIsLeast(timers, nextTriggerTime)) ==>
                (NextIsLeast(timers, nextTriggerTime) <==> old(InsertionTracks(timers, TriggerTime(timer, time))))
      ensures old(Tracking()) && TriggerTime(timer, time) != NEVER ==> Tracking()
    {
      timers, iterators, nextTriggerTime := Inserted(timers, iterators, nextTriggerTime, timer, time, nextId);
      nextId := nextId + 1;
    }

    method Set(timer: NodeTimer)
      requires Valid()
      modifies `timers, `iterators, `nextTriggerTime, `nextId
      ensures Valid() && Contents() == old(Contents())[timer.position := Status(timer.timeout, timer.elapsed)]
      ensures old(Tracking()) && TriggerTime(timer, time) != NEVER ==> Tracking()
    {
      ghost var before := Contents();
      Remove(timer.position);
      Insert(timer);
      PutAgain(before, timer.position, Status(timer.timeout, timer.elapsed));
    }

    method Clear()
      modifies `timers, `iterators, `nextTriggerTime
      ensures Valid() && Tracking() && Contents() == map[]
    {
      timers, iterators := [], map[];
      nextTriggerTime := NEVER;
    }

    /** A step does what it should exactly if no due timer is overlooked; otherwise the timers only age. */
    method Step(dtime: real) returns (elapsedTimers: seq<NodeTimer>)
      requires Valid()
      modifies this
      ensures Valid() && time == old(time) + dtime
      ensures Stepped(old(Contents()), dtime, Contents(), elapsedTimers) <==>
              !old(Overlooked(timers, nextTriggerTime, time + dtime))
      ensures old(Overlooked(timers, nextTriggerTime, time + dtime)) ==>
                elapsedTimers == [] && Contents() == Advance(old(Contents()), dtime)
      ensures old(Tracking()) ==> Tracking() && Stepped(old(Contents()), dtime, Contents(), elapsedTimers)
    {
      timers, iterators, nextTriggerTime, elapsedTimers :=
        After(timers, iterators, nextTriggerTime, time + dtime, Contents(), dtime, nextId);
      time := time + dtime;
    }
  }

  /** Reached by two calls: a timer that is overdue by one when the clock starts is never fired by a step. */
  method OverdueIsOverlooked(p: Pos, timeout: real, dtime: real) returns (list: NodeTimerList, fired: seq<NodeTimer>)
    requires dtime >= 0.0
    ensures list.Valid() && fired == [] && p in list.Contents() && Due(list.Contents()[p])
  {
    list := new NodeTimerList();
    list.Insert(NodeTimer(timeout, timeout + 1.0, p));
    ModelShows(list.timers, list.iterators, list.time);
    assert list.timers[0] in list.timers;
    fired := list.Step(dtime);
  }
}
