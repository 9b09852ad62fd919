/** Unloading of map blocks that were not used for long, and the sectors that hold them. */
module MapUnloading {
  import opened Options
  import opened Positions

  datatype Pos2 = Pos2(X: int, Y: int)

  datatype MapBlock = MapBlock(usageTimer: real, refs: nat, modified: bool)

  type Blocks = map<Pos, MapBlock>

  /** The sector of a block is its column. */
  function SectorOf(p: Pos): Pos2 {
    Pos2(p.x, p.z)
  }

  function Aged(blocks: Blocks, dtime: real): (r: Blocks)
    ensures r.Keys == blocks.Keys
  {
    map p | p in blocks :: blocks[p].(usageTimer := blocks[p].usageTimer + dtime)
  }

  /** A block that nobody uses, for longer than the timeout. */
  predicate Expired(b: MapBlock, timeout: real) {
    b.refs == 0 && b.usageTimer > timeout
  }

  predicate NeedsSaving(b: MapBlock, maySave: bool) {
    b.modified && maySave
  }

  function InSectors(blocks: Blocks, sectors: set<Pos2>): set<Pos> {
    set p | p in blocks && SectorOf(p) in sectors
  }

  function Elements(s: seq<Pos2>): set<Pos2> {
    set x | x in s
  }

  /** The blocks that expired. */
  function Victims(aged: Blocks, timeout: real): set<Pos> {
    set p | p in aged && Expired(aged[p], timeout)
  }

  /** The expired blocks that were written, or need not be. */
  function Removable(aged: Blocks, timeout: real, maySave: bool, canSave: Pos -> bool): set<Pos> {
    set p | p in aged && Expired(aged[p], timeout) && (NeedsSaving(aged[p], maySave) ==> canSave(p))
  }

  function Written(aged: Blocks, timeout: real, maySave: bool, canSave: Pos -> bool): set<Pos> {
    set p | p in aged && Expired(aged[p], timeout) && NeedsSaving(aged[p], maySave) && canSave(p)
  }

  ghost predicate AllExpired(aged: Blocks, timeout: real, s: Pos2) {
    forall p :: p in aged && SectorOf(p) == s ==> Expired(aged[p], timeout)
  }

  ghost function ExpiredSectors(aged: Blocks, timeout: real, sectors: set<Pos2>): set<Pos2> {
    set s | s in sectors && AllExpired(aged, timeout, s)
  }

  function ElementsOf(s: seq<Pos>): set<Pos> {
    set x | x in s
  }

  /** The blocks of the first sectors have been handled. */
  ghost predicate Sweeping(old_: Blocks, aged: Blocks, done: set<Pos>, timeout: real, maySave: bool,
                           canSave: Pos -> bool,
                           blocks: Blocks, saved: seq<Pos>, unloaded: seq<Pos>) {
    && done <= aged.Keys == old_.Keys
    && ElementsOf(unloaded) == Removable(aged, timeout, maySave, canSave) * done
    && ElementsOf(saved) == Written(aged, timeout, maySave, canSave) * done
    && blocks.Keys == aged.Keys - ElementsOf(unloaded)
    && forall p :: p in blocks ==> blocks[p] == if p in done then aged[p] else old_[p]
  }

  class Map {
    var blocks: Blocks
    var sectors: map<Pos2, nat>
    var sectorCache: Option<nat>
    var sectorCacheP: Pos2

    /** Every block has its sector, and the cache points to a sector of the map. */
    ghost predicate Valid()
      reads this
    {
      && (forall p :: p in blocks ==> SectorOf(p) in sectors)
      && (sectorCache.Some? ==> sectorCacheP in sectors && sectors[sectorCacheP] == sectorCache.value)
    }

    constructor ()
      ensures Valid() && blocks == map[] && sectors == map[]
    {
      blocks, sectors, sectorCache, sectorCacheP := map[], map[], None, Pos2(0, 0);
    }

    /** Looking up through the cache finds what is in the map. */
    method GetSectorNoGenerateNoLock(p: Pos2) returns (sector: Option<nat>)
      requires Valid()
      modifies `sectorCache, `sectorCacheP
      ensures Valid() && sector == if p in sectors then Some(sectors[p]) else None
    {
      if sectorCache.Some? && p == sectorCacheP {
        return sectorCache;
      }
      if p !in sectors {
        return None;
      }
      sectorCacheP := p;
      sectorCache := Some(sectors[p]);
      return sectorCache;
    }

    method DeleteSector(j: Pos2)
      requires Valid() && j in sectors
      modifies this
      ensures Valid() && sectors == old(sectors) - {j} && blocks == old(blocks) - InSectors(old(blocks), {j})
    {
      if sectorCache == Some(sectors[j]) {
        sectorCache := None;
      }
      sectors := sectors - {j};
      blocks := blocks - InSectors(blocks, {j});
    }

    /** Deletes sectors with everything in them. */
    method DeleteSectors(sectorList: seq<Pos2>)
      requires Valid() && Elements(sectorList) <= sectors.Keys
      requires forall i, j :: 0 <= i < j < |sectorList| ==> sectorList[i] != sectorList[j]
      modifies this
      ensures Valid() && sectors == old(sectors) - Elements(sectorList)
      ensures blocks == old(blocks) - InSectors(old(blocks), Elements(sectorList))
    {
      ghost var gone: set<Pos2> := {};
      for i := 0 to |sectorList|
        invariant Valid() && gone == Elements(sectorList[..i])
        invariant sectors == old(sectors) - gone && blocks == old(blocks) - InSectors(old(blocks), gone)
      {
        assert sectorList[..i + 1] == sectorList[..i] + [sectorList[i]];
        assert sectorList[i] in Elements(sectorList);
        DeleteSector(sectorList[i]);
        gone := gone + {sectorList[i]};
      }
      assert sectorList[..|sectorList|] == sectorList;
    }

    /** One block of the update without a limit; `kept` tells that the sector is still needed. */
    method UpdateBlock(p: Pos, dtime: real, timeout: real, maySave: bool, canSave: Pos -> bool, saved: seq<Pos>,
                       unloaded: seq<Pos>,
                       ghost old_: Blocks, ghost aged: Blocks, ghost done: set<Pos>)
      returns (kept: bool, saved': seq<Pos>, unloaded': seq<Pos>)
      requires aged == Aged(old_, dtime) && p in old_ && p !in done
      requires Sweeping(old_, aged, done, timeout, maySave, canSave, blocks, saved, unloaded)
      modifies `blocks
      ensures Sweeping(old_, aged, done + {p}, timeout, maySave, canSave, blocks, saved', unloaded')
      ensures kept == !Expired(aged[p], timeout)
    {
      saved', unloaded' := saved, unloaded;
      assert p in blocks;
      OneMore(Removable(aged, timeout, maySave, canSave), done, p, unloaded);
      OneMore(Written(aged, timeout, maySave, canSave), done, p, saved);
      blocks := blocks[p := blocks[p].(usageTimer := blocks[p].usageTimer + dtime)];
      var block := blocks[p];
      if block.refs == 0 && block.usageTimer > timeout {
        kept := false;
        if block.modified && maySave {
          if !canSave(p) {
            assert Sweeping(old_, aged, done + {p}, timeout, maySave, canSave, blocks, saved', unloaded');
            return;
          }
          saved' := saved' + [p];
        }
        blocks := blocks - {p};
        unloaded' := unloaded' + [p];
      } else {
        kept := true;
      }
    }

    /** All blocks of one sector; the sector can go if none of them was kept, even if one could not be written. */
    method UpdateSector(s: Pos2, dtime: real, timeout: real, maySave: bool, canSave: Pos -> bool, saved: seq<Pos>,
                        unloaded: seq<Pos>,
                        ghost old_: Blocks, ghost aged: Blocks, ghost done: set<Pos>)
      returns (allBlocksDeleted: bool, saved': seq<Pos>, unloaded': seq<Pos>)
      requires aged == Aged(old_, dtime) && InSectors(old_, {s}) !! done
      requires Sweeping(old_, aged, done, timeout, maySave, canSave, blocks, saved, unloaded)
      modifies `blocks
      ensures Sweeping(old_, aged, done + InSectors(old_, {s}), timeout, maySave, canSave, blocks, saved', unloaded')
      ensures allBlocksDeleted == AllExpired(aged, timeout, s)
    {
      allBlocksDeleted, saved', unloaded' := true, saved, unloaded;
      var todo := InSectors(blocks, {s});
      ghost var handled: set<Pos> := {};
      SectorUntouched(old_, aged, done, timeout, maySave, canSave, blocks, saved, unloaded, s);
      assert done + handled == done;
      while todo != {}
        invariant handled + todo == InSectors(old_, {s}) && handled !! todo
        invariant Sweeping(old_, aged, done + handled, timeout, maySave, canSave, blocks, saved', unloaded')
        invariant allBlocksDeleted <==> forall p :: p in handled ==> Expired(aged[p], timeout)
        decreases todo
      {
        var p :| p in todo;
        var kept;
        kept, saved', unloaded' := UpdateBlock(p, dtime, timeout, maySave, canSave, saved', unloaded', old_, aged,
                                               done + handled);
        if kept {
          allBlocksDeleted := false;
        }
        assert done + handled + {p} == done + (handled + {p});
        todo, handled := todo - {p}, handled + {p};
      }
      assert handled == InSectors(old_, {s});
    }

    /** Ages and unloads the blocks of every sector, and queues the sectors whose blocks all expired. */
    method SweepSectors(dtime: real, timeout: real, maySave: bool, canSave: Pos -> bool, ghost aged: Blocks)
      returns (sectorDeletionQueue: seq<Pos2>, saved: seq<Pos>, unloaded: seq<Pos>)
      requires Valid() && aged == Aged(blocks, dtime)
      modifies `blocks
      ensures Sweeping(old(blocks), aged, old(blocks).Keys, timeout, maySave, canSave, blocks, saved, unloaded)
      ensures Elements(sectorDeletionQueue) == ExpiredSectors(aged, timeout, sectors.Keys)
      ensures forall i, j :: 0 <= i < j < |sectorDeletionQueue| ==> sectorDeletionQueue[i] != sectorDeletionQueue[j]
    {
      sectorDeletionQueue, saved, unloaded := [], [], [];
      ghost var old_ := blocks;
      var todo := sectors.Keys;
      ghost var done: set<Pos2> := {};
      assert InSectors(old_, done) == {};
      while todo != {}
        invariant done + todo == sectors.Keys && done !! todo
        invariant Sweeping(old_, aged, InSectors(old_, done), timeout, maySave, canSave, blocks, saved, unloaded)
        invariant Elements(sectorDeletionQueue) == ExpiredSectors(aged, timeout, done)
        invariant forall i, j :: 0 <= i < j < |sectorDeletionQueue| ==> sectorDeletionQueue[i] != sectorDeletionQueue[j]
        decreases todo
      {
        var s :| s in todo;
        var allBlocksDeleted;
        SectorApart(old_, done, s);
        allBlocksDeleted, saved, unloaded :=
          UpdateSector(s, dtime, timeout, maySave, canSave, saved, unloaded, old_, aged, InSectors(old_, done));
        QueueNext(aged, timeout, done, s, sectorDeletionQueue);
        if allBlocksDeleted {
          sectorDeletionQueue := sectorDeletionQueue + [s];
        }
        todo, done := todo - {s}, done + {s};
      }
      assert done == sectors.Keys;
      assert InSectors(old_, done) == old_.Keys;
    }

    /**
      Without a limit on the number of blocks. A sector goes when all its
      blocks expired, and takes with it the blocks that could not be written.
     */
    method TimerUpdateUnlimited(dtime: real, timeout: real, maySave: bool, canSave: Pos -> bool)
      returns (saved: seq<Pos>, unloaded: seq<Pos>)
      requires Valid()
      modifies this
      ensures Valid()
      ensures var aged := Aged(old(blocks), dtime);
              && ElementsOf(unloaded) == Removable(aged, timeout, maySave, canSave)
              && ElementsOf(saved) == Written(aged, timeout, maySave, canSave)
              && sectors == old(sectors) - ExpiredSectors(aged, timeout, old(sectors).Keys)
              && blocks == aged - ElementsOf(unloaded) - InSectors(aged,
                                                                   ExpiredSectors(aged, timeout, old(sectors).Keys))
    {
      ghost var old_, aged := blocks, Aged(blocks, dtime);
      var sectorDeletionQueue;
      sectorDeletionQueue, saved, unloaded := SweepSectors(dtime, timeout, maySave, canSave, aged);
      SweptAll(old_, aged, timeout, maySave, canSave, blocks, saved, unloaded);
      DeleteSectors(sectorDeletionQueue);
      assert blocks == aged - ElementsOf(unloaded) - InSectors(aged, ExpiredSectors(aged, timeout, old(sectors).Keys));
    }

    /** Takes the most long-unused block off the queue; it leaves the memory unless it is used or cannot be written. */
    method UnloadOldest(b: Pos, maySave: bool, canSave: Pos -> bool, saved: seq<Pos>, unloaded: seq<Pos>,
                        ghost aged: Blocks, ghost queue: set<Pos>, ghost timeout: real, ghost max: int)
      returns (saved': seq<Pos>, unloaded': seq<Pos>)
      requires Draining(aged, blocks, queue, maySave, canSave, saved, unloaded, timeout, max) && b in queue
      requires forall q :: q in queue ==> aged[q].usageTimer <= aged[b].usageTimer
      requires |queue| > max || aged[b].usageTimer > timeout
      modifies `blocks
      ensures Draining(aged, blocks, queue - {b}, maySave, canSave, saved', unloaded', timeout, max)
    {
      saved', unloaded' := saved, unloaded;
      var block := blocks[b];
      if block.refs != 0 {
        return;
      }
      if block.modified && maySave {
        if !canSave(b) {
          return;
        }
        saved' := saved' + [b];
      }
      blocks := blocks - {b};
      unloaded' := unloaded' + [b];
      assert ElementsOf(unloaded') == ElementsOf(unloaded) + {b};
    }

    /** Unloads the oldest blocks first, while there are too many or the oldest is too old. */
    method DrainQueue(timeout: real, max: int, maySave: bool, canSave: Pos -> bool)
      returns (saved: seq<Pos>, unloaded: seq<Pos>, ghost left: set<Pos>)
      requires max >= 0
      modifies `blocks
      ensures Draining(old(blocks), blocks, left, maySave, canSave, saved, unloaded, timeout, max)
      ensures |left| <= max && forall q :: q in left ==> old(blocks)[q].usageTimer <= timeout
      ensures blocks.Keys <= old(blocks).Keys
    {
      saved, unloaded := [], [];
      ghost var aged := blocks;
      var queue := blocks.Keys;
      left := queue;
      while queue != {}
        invariant left == queue && Draining(aged, blocks, queue, maySave, canSave, saved, unloaded, timeout, max)
        decreases queue
      {
        OldestExists(aged, queue);
        var b :| b in queue && forall q :: q in queue ==> blocks[q].usageTimer <= blocks[b].usageTimer;
        if |queue| <= max && blocks[b].usageTimer <= timeout {
          return;
        }
        saved, unloaded := UnloadOldest(b, maySave, canSave, saved, unloaded, aged, queue, timeout, max);
        queue := queue - {b};
        left := queue;
      }
    }

    /** With a limit on the number of blocks; `left` are those that were never considered. */
    method TimerUpdateLimited(dtime: real, timeout: real, maxLoadedBlocks: int, maySave: bool, canSave: Pos -> bool)
      returns (saved: seq<Pos>, unloaded: seq<Pos>, ghost left: set<Pos>)
      requires Valid() && maxLoadedBlocks >= 0
      modifies this
      ensures Valid()
      ensures var aged := Aged(old(blocks), dtime);
              && Draining(aged, blocks, left, maySave, canSave, saved, unloaded, timeout, maxLoadedBlocks)
              && |left| <= maxLoadedBlocks && (forall q :: q in left ==> aged[q].usageTimer <= timeout)
              && sectors == old(sectors) - EmptySectors(blocks, old(sectors).Keys)
    {
      blocks := Aged(blocks, dtime);
      saved, unloaded, left := DrainQueue(timeout, maxLoadedBlocks, maySave, canSave);
      DeleteEmptySectors();
    }

    /** Exactly the blocks that are used or cannot be written stay. */
    method UnloadUnreferencedBlocks(maySave: bool, canSave: Pos -> bool) returns (saved: seq<Pos>, unloaded: seq<Pos>)
      requires Valid()
      modifies this
      ensures Valid()
      ensures forall p :: p in blocks <==>
                p in old(blocks) && (old(blocks)[p].refs != 0 || (NeedsSaving(old(blocks)[p], maySave) && !canSave(p)))
    {
      ghost var left, aged := {}, Aged(blocks, 0.0);
      saved, unloaded, left := TimerUpdateLimited(0.0, -1.0, 0, maySave, canSave);
      assert left == {};
      forall p
        ensures p in blocks <==> p in aged && (aged[p].refs != 0 || (NeedsSaving(aged[p], maySave) && !canSave(p)))
      {
        assert p in unloaded <==> p in ElementsOf(unloaded);
      }
    }

    method DeleteEmptySectors()
      requires Valid()
      modifies this
      ensures Valid() && blocks == old(blocks) && sectors == old(sectors) - EmptySectors(blocks, old(sectors).Keys)
    {
      var sectorDeletionQueue := EmptyOnes();
      assert InSectors(blocks, Elements(sectorDeletionQueue)) == {};
      DeleteSectors(sectorDeletionQueue);
    }

    /** The sectors without blocks. */
    method EmptyOnes() returns (queue: seq<Pos2>)
      ensures Elements(queue) == EmptySectors(blocks, sectors.Keys)
      ensures forall i, j :: 0 <= i < j < |queue| ==> queue[i] != queue[j]
    {
      queue := [];
      var todo := sectors.Keys;
      ghost var done: set<Pos2> := {};
      while todo != {}
        invariant done + todo == sectors.Keys && done !! todo
        invariant Elements(queue) == EmptySectors(blocks, done)
        invariant forall i, j :: 0 <= i < j < |queue| ==> queue[i] != queue[j]
        decreases todo
      {
        var s :| s in todo;
        assert s !in Elements(queue);
        assert Elements(queue + [s]) == Elements(queue) + {s};
        if InSectors(blocks, {s}) == {} {
          queue := queue + [s];
        }
        todo, done := todo - {s}, done + {s};
      }
      assert done == sectors.Keys;
    }
  }

  /**
    Draining the queue: the blocks taken off it are at least as old as those
    still in it, and left the memory unless they are used or could not be
    written; what left was written first if it had changes and may be written.
    Blocks within the timeout are taken off only while there are too many.
   */
  ghost predicate Draining(aged: Blocks, blocks: Blocks, queue: set<Pos>, maySave: bool, canSave: Pos -> bool,
                           saved: seq<Pos>, unloaded: seq<Pos>, timeout: real, max: int) {
    && queue <= blocks.Keys && blocks == aged - ElementsOf(unloaded)
    && (forall p, q :: p in aged && p !in queue && q in queue ==> aged[q].usageTimer <= aged[p].usageTimer)
    && (forall p :: p in aged && p !in queue && aged[p].usageTimer <= timeout ==> |queue| >= max)
    && (forall p :: p in aged && p !in queue ==>
        (p in unloaded <==> aged[p].refs == 0 && (NeedsSaving(aged[p], maySave) ==> canSave(p))))
    && (forall p :: p in unloaded ==> p in aged && p !in queue)
    && (forall p :: p in saved <==> p in unloaded && NeedsSaving(aged[p], maySave))
  }

  ghost function EmptySectors(blocks: Blocks, sectors: set<Pos2>): set<Pos2> {
    set s | s in sectors && InSectors(blocks, {s}) == {}
  }

  lemma {:induction false} OldestExists(aged: Blocks, queue: set<Pos>)
    requires queue != {} && queue <= aged.Keys
    ensures exists b :: b in queue && forall q :: q in queue ==> aged[q].usageTimer <= aged[b].usageTimer
    decreases queue
  {
    var x :| x in queue;
    if queue == {x} {
    } else {
      OldestExists(aged, queue - {x});
      var b :| b in queue - {x} && forall q :: q in queue - {x} ==> aged[q].usageTimer <= aged[b].usageTimer;
      var oldest := if aged[b].usageTimer < aged[x].usageTimer then x else b;
      assert forall q :: q in queue ==> q == x || q in queue - {x};
      assert forall q :: q in queue ==> aged[q].usageTimer <= aged[oldest].usageTimer;
    }
  }

  // ---------------------------------------------------------------------------
  // What an update means
  // ---------------------------------------------------------------------------

  /**
    Without a limit a block is unloaded exactly if nobody uses it, it is older
    than the timeout once the time has passed, and it was written if it has
    changes and may be.
   */
  lemma UnloadedIs(blocks: Blocks, dtime: real, timeout: real, maySave: bool, canSave: Pos -> bool, p: Pos)
    requires p in blocks
    ensures var b := blocks[p];
            var idle := b.refs == 0 && b.usageTimer + dtime > timeout;
            && (p in Removable(Aged(blocks, dtime), timeout, maySave, canSave) <==>
                idle && (!b.modified || !maySave || canSave(p)))
            && (p in Written(Aged(blocks, dtime), timeout, maySave, canSave) <==>
                idle && b.modified && maySave && canSave(p))
            && Aged(blocks, dtime)[p] == MapBlock(b.usageTimer + dtime, b.refs, b.modified)
  {
  }

  /** The blocks above and below each other share a sector, and no others. */
  lemma SectorsAreColumns(p: Pos, q: Pos)
    ensures SectorOf(p) == SectorOf(q) <==> p.x == q.x && p.z == q.z
  {
  }

  /**
    With a limit, as many of the blocks within the timeout are left alone as the
    limit allows, and none that was used less recently than one that is not;
    every other block is unloaded exactly if nobody uses it and it was written,
    if it has changes and may be.
   */
  lemma LimitedIs(old_: Blocks, dtime: real, timeout: real, max: int, maySave: bool, canSave: Pos -> bool,
                  blocks: Blocks, saved: seq<Pos>, unloaded: seq<Pos>, left: set<Pos>)
    requires Draining(Aged(old_, dtime), blocks, left, maySave, canSave, saved, unloaded, timeout, max)
    requires |left| <= max && forall q :: q in left ==> Aged(old_, dtime)[q].usageTimer <= timeout
    ensures var young := set q | q in old_ && old_[q].usageTimer + dtime <= timeout;
            left <= young && |left| == if |young| <= max then |young| else max
    ensures forall p, q :: p in old_ && p !in left && q in left ==> old_[q].usageTimer <= old_[p].usageTimer
    ensures forall p :: p in old_ ==>
              var b := old_[p];
              && (p in unloaded <==> p !in left && b.refs == 0 && (!b.modified || !maySave || canSave(p)))
              && (p in saved <==> p in unloaded && b.modified && maySave)
              && (p in blocks <==> p !in unloaded)
  {
    var aged := Aged(old_, dtime);
    var young := set q | q in old_ && old_[q].usageTimer + dtime <= timeout;
    assert left <= young;
    Smaller(left, young);
    if p :| p in young && p !in left {
      assert p in aged && aged[p].usageTimer <= timeout;
      SmallerStill(left, young, p);
    } else {
      assert left == young;
    }
    forall p, q | p in old_ && p !in left && q in left
      ensures old_[q].usageTimer <= old_[p].usageTimer
    {
      assert p in aged && q in aged && aged[q].usageTimer <= aged[p].usageTimer;
    }
    forall p | p in old_
      ensures p in blocks <==> p !in unloaded
    {
      assert p in ElementsOf(unloaded) <==> p in unloaded;
    }
  }

  lemma SmallerStill(a: set<Pos>, b: set<Pos>, p: Pos)
    requires a <= b && p in b && p !in a
    ensures |a| < |b|
  {
    Smaller(a, b - {p});
  }

  /** With a limit and successful saves, the unreferenced blocks that stay are within limit and timeout. */
  lemma LimitKept(aged: Blocks, blocks: Blocks, left: set<Pos>, maySave: bool, canSave: Pos -> bool,
                  saved: seq<Pos>, unloaded: seq<Pos>, timeout: real, max: int)
    requires Draining(aged, blocks, left, maySave, canSave, saved, unloaded, timeout, max) && |left| <= max
    requires forall q :: q in left ==> aged[q].usageTimer <= timeout
    requires forall p :: p in aged && NeedsSaving(aged[p], maySave) ==> canSave(p)
    ensures var idle := set p | p in blocks && blocks[p].refs == 0;
            |idle| <= max && forall p :: p in idle ==> blocks[p].usageTimer <= timeout
  {
    var idle := set p | p in blocks && blocks[p].refs == 0;
    forall p | p in idle
      ensures p in left
    {
      assert p in aged && p !in ElementsOf(unloaded);
    }
    Smaller(idle, left);
  }

  lemma {:induction false} Smaller(a: set<Pos>, b: set<Pos>)
    requires a <= b
    ensures |a| <= |b|
  {
    if a != {} {
      var x :| x in a;
      Smaller(a - {x}, b - {x});
    }
  }

  /**
    Without a limit, the blocks that vanish without being written or unloaded:
    those whose writing failed in a sector that expired as a whole.
   */
  lemma LostBlocks(aged: Blocks, timeout: real, maySave: bool, canSave: Pos -> bool, sectors: set<Pos2>, p: Pos)
    requires p in aged && SectorOf(p) in sectors
    ensures var unloaded := Removable(aged, timeout, maySave, canSave);
            p !in aged - unloaded - InSectors(aged, ExpiredSectors(aged, timeout, sectors)) && p !in unloaded <==>
            NeedsSaving(aged[p], maySave) && !canSave(p) && AllExpired(aged, timeout, SectorOf(p))
  {
  }

  /** So exactly the expired blocks are unloaded if everything that must be written can be. */
  lemma SavedIsSafe(aged: Blocks, timeout: real, maySave: bool, canSave: Pos -> bool, sectors: set<Pos2>)
    requires forall p :: p in aged ==> SectorOf(p) in sectors
    requires forall p :: p in aged && Expired(aged[p], timeout) && NeedsSaving(aged[p], maySave) ==> canSave(p)
    ensures var unloaded := Removable(aged, timeout, maySave, canSave);
            && unloaded == Victims(aged, timeout)
            && aged - unloaded - InSectors(aged, ExpiredSectors(aged, timeout, sectors)) == aged - unloaded
  {
  }

  lemma SweptAll(old_: Blocks, aged: Blocks, timeout: real, maySave: bool, canSave: Pos -> bool, blocks: Blocks,
                 saved: seq<Pos>, unloaded: seq<Pos>)
    requires Sweeping(old_, aged, old_.Keys, timeout, maySave, canSave, blocks, saved, unloaded)
    ensures blocks == aged - ElementsOf(unloaded)
    ensures ElementsOf(unloaded) == Removable(aged, timeout, maySave, canSave) &&
            ElementsOf(saved) == Written(aged, timeout, maySave, canSave)
  {
    assert Removable(aged, timeout, maySave, canSave) * old_.Keys == Removable(aged, timeout, maySave, canSave);
    assert Written(aged, timeout, maySave, canSave) * old_.Keys == Written(aged, timeout, maySave, canSave);
  }

  lemma SectorApart(blocks: Blocks, done: set<Pos2>, s: Pos2)
    requires s !in done
    ensures InSectors(blocks, {s}) !! InSectors(blocks, done)
    ensures InSectors(blocks, done + {s}) == InSectors(blocks, done) + InSectors(blocks, {s})
  {
  }

  lemma QueueNext(aged: Blocks, timeout: real, done: set<Pos2>, s: Pos2, queue: seq<Pos2>)
    requires s !in done && Elements(queue) == ExpiredSectors(aged, timeout, done)
    ensures Elements(queue + [s]) == Elements(queue) + {s} && s !in queue
    ensures ExpiredSectors(aged, timeout, done + {s}) == if AllExpired(aged, timeout, s) then Elements(queue + [s])
            else Elements(queue)
  {
    assert s !in Elements(queue);
  }

  lemma SectorUntouched(old_: Blocks, aged: Blocks, done: set<Pos>, timeout: real, maySave: bool, canSave: Pos -> bool,
                        blocks: Blocks, saved: seq<Pos>, unloaded: seq<Pos>, s: Pos2)
    requires Sweeping(old_, aged, done, timeout, maySave, canSave, blocks, saved, unloaded) &&
             InSectors(old_, {s}) !! done
    ensures InSectors(blocks, {s}) == InSectors(old_, {s})
  {
    forall p | p in InSectors(old_, {s})
      ensures p in blocks
    {
      assert p !in Removable(aged, timeout, maySave, canSave) * done;
    }
  }

  lemma OneMore(chosen: set<Pos>, done: set<Pos>, p: Pos, s: seq<Pos>)
    requires p !in done && ElementsOf(s) == chosen * done
    ensures chosen * (done + {p}) == if p in chosen then ElementsOf(s + [p]) else ElementsOf(s)
  {
    assert ElementsOf(s + [p]) == ElementsOf(s) + {p};
  }
}
