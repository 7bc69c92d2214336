// Unloading map blocks (src/map.cpp:270-442).

module Eviction {
  import opened Options

  datatype SectorPos = SectorPos(x: int, z: int)
  datatype BlockPos = BlockPos(sector: SectorPos, y: int)
  datatype Block = Block(usage: real, refs: nat, modified: bool)

  // A block of which the map may not let go: saving it would be needed and fails.
  predicate SaveFails(b: Block, p: BlockPos, mayBeSaved: bool, saves: BlockPos -> bool) {
    b.modified && mayBeSaved && !saves(p)
  }

  // The blocks with their usage timers advanced.
  function Aged(blocks: map<BlockPos, Block>, dtime: real): (r: map<BlockPos, Block>)
    ensures r.Keys == blocks.Keys
  {
    map p | p in blocks :: blocks[p].(usage := blocks[p].usage + dtime)
  }

  // A block that is let go when its turn comes: the others are referenced or could not be saved.
  predicate Evictable(b: Block, p: BlockPos, mayBeSaved: bool, saves: BlockPos -> bool) {
    b.refs == 0 && !SaveFails(b, p, mayBeSaved, saves)
  }

  // The queue holds the blocks that are left, no older than any that was taken from it; a block
  // was only taken while there were too many, or if it was too old.
  ghost predicate OldestTaken(all: map<BlockPos, Block>, queue: set<BlockPos>, timeout: real, maxBlocks: int) {
    && queue <= all.Keys
    && (forall p, q :: p in queue && q in all && q !in queue ==> all[p].usage <= all[q].usage)
    && forall q :: q in all && q !in queue ==> all[q].usage > timeout || |queue| >= maxBlocks
  }

  predicate IsOldest(all: map<BlockPos, Block>, queue: set<BlockPos>, p: BlockPos) {
    p in queue && p in all && forall q :: q in queue ==> q in all && all[q].usage <= all[p].usage
  }

  lemma {:induction false} OldestExists(all: map<BlockPos, Block>, queue: set<BlockPos>) returns (p: BlockPos)
    requires queue != {} && queue <= all.Keys
    ensures IsOldest(all, queue, p)
    decreases queue
  {
    var q :| q in queue;
    if queue == {q} {
      p := q;
    } else {
      var o := OldestExists(all, queue - {q});
      p := if all[q].usage > all[o].usage then q else o;
    }
  }

  lemma TakeOldest(all: map<BlockPos, Block>, queue: set<BlockPos>, p: BlockPos, timeout: real, maxBlocks: int)
    requires OldestTaken(all, queue, timeout, maxBlocks) && IsOldest(all, queue, p)
    requires |queue| > maxBlocks || all[p].usage > timeout
    ensures OldestTaken(all, queue - {p}, timeout, maxBlocks)
  {
    assert |queue - {p}| == |queue| - 1;
  }

  // The blocks that were taken and let go.
  function Evicted(all: map<BlockPos, Block>, queue: set<BlockPos>, mayBeSaved: bool,
                   saves: BlockPos -> bool): set<BlockPos>
  {
    set p | p in all && p !in queue && Evictable(all[p], p, mayBeSaved, saves)
  }

  // And those that stay though they were taken.
  function Stuck(all: map<BlockPos, Block>, queue: set<BlockPos>, mayBeSaved: bool,
                 saves: BlockPos -> bool): set<BlockPos>
  {
    set p | p in all && p !in queue && !Evictable(all[p], p, mayBeSaved, saves)
  }

  // A block goes exactly if it was taken, nobody refers to it, and it is saved if it has to be.
  lemma EvictedExactly(all: map<BlockPos, Block>, queue: set<BlockPos>, mayBeSaved: bool, saves: BlockPos -> bool,
                       p: BlockPos)
    requires p in all
    ensures p in Evicted(all, queue, mayBeSaved, saves) <==>
      p !in queue && all[p].refs == 0 && (all[p].modified && mayBeSaved ==> saves(p))
  {
  }

  lemma EvictedNext(all: map<BlockPos, Block>, queue: set<BlockPos>, p: BlockPos, mayBeSaved: bool,
                    saves: BlockPos -> bool)
    requires p in queue && p in all
    ensures Evicted(all, queue - {p}, mayBeSaved, saves)
      == Evicted(all, queue, mayBeSaved, saves) + if Evictable(all[p], p, mayBeSaved, saves) then {p} else {}
    ensures p !in Evicted(all, queue, mayBeSaved, saves)
  {
  }

  // The loaded count is within the limit but for the blocks that stay against it.
  lemma CountLeft(all: map<BlockPos, Block>, queue: set<BlockPos>, mayBeSaved: bool, saves: BlockPos -> bool)
    requires queue <= all.Keys
    ensures |all - Evicted(all, queue, mayBeSaved, saves)| == |queue| + |Stuck(all, queue, mayBeSaved, saves)|
  {
    var left := all - Evicted(all, queue, mayBeSaved, saves);
    assert left.Keys == queue + Stuck(all, queue, mayBeSaved, saves);
    assert |left| == |left.Keys|;
  }

  // A block that is referenced, or used not long ago.
  predicate Stays(b: Block, timeout: real) {
    !(b.refs == 0 && b.usage > timeout)
  }

  predicate LetGo(b: Block, p: BlockPos, timeout: real, mayBeSaved: bool, saves: BlockPos -> bool) {
    !Stays(b, timeout) && !SaveFails(b, p, mayBeSaved, saves)
  }

  ghost predicate Retained(all: map<BlockPos, Block>, x: SectorPos, timeout: real) {
    exists p :: p in all && p.sector == x && Stays(all[p], timeout)
  }

  // Without a limit on the blocks, a block that could not be saved stays loaded exactly if another
  // one of its sector does for its own sake.
  lemma UnsavedStaysWithOthers(all: map<BlockPos, Block>, p: BlockPos, timeout: real, mayBeSaved: bool,
                               saves: BlockPos -> bool)
    requires p in all && !Stays(all[p], timeout) && SaveFails(all[p], p, mayBeSaved, saves)
    ensures !LetGo(all[p], p, timeout, mayBeSaved, saves)
    ensures Retained(all, p.sector, timeout) <==>
      exists q :: q in all && q != p && q.sector == p.sector && Stays(all[q], timeout)
  {
  }

  // One that is alone in its sector is lost.
  lemma UnsavedAloneIsLost()
    ensures var p := BlockPos(SectorPos(0, 0), 0);
      var all := map[p := Block(10.0, 0, true)];
      SaveFails(all[p], p, true, _ => false) && !Retained(all, p.sector, 5.0)
  {
  }

  // Which blocks the branch without a limit unloads.
  lemma UnloadedExactly(all: map<BlockPos, Block>, p: BlockPos, timeout: real, mayBeSaved: bool,
                        saves: BlockPos -> bool)
    requires p in all
    ensures LetGo(all[p], p, timeout, mayBeSaved, saves) || !Retained(all, p.sector, timeout) <==>
      || (all[p].refs == 0 && all[p].usage > timeout && (all[p].modified && mayBeSaved ==> saves(p)))
      || forall q :: q in all && q.sector == p.sector ==> all[q].refs == 0 && all[q].usage > timeout
  {
    if !Retained(all, p.sector, timeout) {
      forall q | q in all && q.sector == p.sector
        ensures all[q].refs == 0 && all[q].usage > timeout
      {
        assert !Stays(all[q], timeout);
      }
    }
  }

  function InSectors(was: map<BlockPos, Block>, sectors: set<SectorPos>): set<BlockPos> {
    set p | p in was && p.sector in sectors
  }

  // The blocks when all but the untouched ones have been looked at.
  function After(was: map<BlockPos, Block>, all: map<BlockPos, Block>, untouched: set<BlockPos>, timeout: real,
                 mayBeSaved: bool, saves: BlockPos -> bool): map<BlockPos, Block>
    requires was.Keys <= all.Keys
  {
    map p | p in was && (p in untouched || !LetGo(all[p], p, timeout, mayBeSaved, saves)) ::
      if p in untouched then was[p] else all[p]
  }

  lemma UntouchedStay(was: map<BlockPos, Block>, all: map<BlockPos, Block>, others: set<BlockPos>, x: SectorPos,
                      timeout: real,
                      mayBeSaved: bool, saves: BlockPos -> bool)
    requires was.Keys <= all.Keys
    ensures var blocks := After(was, all, others + InSectors(was, {x}), timeout, mayBeSaved, saves);
      (set p | p in blocks && p.sector == x) == InSectors(was, {x})
  {
  }

  lemma Touch(was: map<BlockPos, Block>, all: map<BlockPos, Block>, untouched: set<BlockPos>, p: BlockPos,
              timeout: real,
              mayBeSaved: bool, saves: BlockPos -> bool)
    requires was.Keys <= all.Keys && p in was && p !in untouched
    ensures var before, after := After(was, all, untouched + {p}, timeout, mayBeSaved, saves),
        After(was, all, untouched, timeout, mayBeSaved, saves);
      && p in before && before[p] == was[p]
      && after == if LetGo(all[p], p, timeout, mayBeSaved, saves) then before - {p} else before[p := all[p]]
  {
  }

  // The sectors in which there is a block.
  ghost predicate Inhabited(blocks: map<BlockPos, Block>, sector: SectorPos) {
    exists p :: p in blocks && p.sector == sector
  }

  class Map {
    var blocks: map<BlockPos, Block>
    var sectors: set<SectorPos>
    var sectorCache: Option<SectorPos>

    // Every block is in a sector, and the cached one exists.
    ghost predicate Valid()
      reads this
    {
      && (forall p :: p in blocks ==> p.sector in sectors)
      && (sectorCache.Some? ==> sectorCache.value in sectors)
    }

    constructor ()
      ensures Valid() && blocks == map[] && sectors == {}
    {
      blocks, sectors, sectorCache := map[], {}, None;
    }

    // Map::deleteSectors, with whatever blocks they still have.
    method DeleteSectors(list: seq<SectorPos>)
      requires Valid()
      modifies this
      ensures Valid() && sectors == old(sectors) - (set s | s in list)
      ensures blocks == map p | p in old(blocks) && p.sector !in list :: old(blocks)[p]
    {
      var i := 0;
      assert blocks == map p | p in blocks && p.sector !in list[..0] :: blocks[p];
      while i < |list|
        invariant i <= |list| && Valid() && sectors == old(sectors) - (set s | s in list[..i])
        invariant blocks == map p | p in old(blocks) && p.sector !in list[..i] :: old(blocks)[p]
      {
        var j := list[i];
        assert list[..i + 1] == list[..i] + [j];
        if sectorCache == Some(j) {
          sectorCache := None;
        }
        sectors := sectors - {j};
        blocks := map p | p in blocks && p.sector != j :: blocks[p];
        i := i + 1;
      }
      assert list[..i] == list;
    }

    // The branch of timerUpdate with a limit on the blocks: the oldest are taken, and all of them
    // go but the referenced ones and those that could not be saved. Only empty sectors go.
    method TimerUpdateLimited(dtime: real, timeout: real, maxBlocks: nat, mayBeSaved: bool, saves: BlockPos -> bool)
      returns (unloaded: seq<BlockPos>, queue: set<BlockPos>)
      requires Valid()
      modifies this
      ensures Valid()
      ensures var all := Aged(old(blocks), dtime);
        && OldestTaken(all, queue, timeout, maxBlocks)
        && |queue| <= maxBlocks && (forall p :: p in queue ==> p in all && all[p].usage <= timeout)
        && blocks == all - Evicted(all, queue, mayBeSaved, saves)
        && |blocks| <= maxBlocks + |Stuck(all, queue, mayBeSaved, saves)|
        && (set p | p in unloaded) == Evicted(all, queue, mayBeSaved, saves)
          && |unloaded| == |Evicted(all, queue, mayBeSaved, saves)|
      ensures sectors == set x | x in old(sectors) && Inhabited(blocks, x)
    {
      hide OldestTaken, Evictable, Evicted, Stuck, IsOldest, Inhabited;
      blocks := Aged(blocks, dtime);
      ghost var all := blocks;
      unloaded, queue := TakeBlocks(timeout, maxBlocks, mayBeSaved, saves);
      CountLeft(all, queue, mayBeSaved, saves);
      var list := EmptySectors();
      DeleteSectors(list);
      OnlyEmptyDeleted(all - Evicted(all, queue, mayBeSaved, saves), list);
      assert sectors == set x | x in old(sectors) && Inhabited(blocks, x);
    }

    // The branch without a limit. A sector goes unless some block in it is referenced or not too
    // old, and takes the blocks with it that could not be saved.
    method TimerUpdateUnlimited(dtime: real, timeout: real, mayBeSaved: bool, saves: BlockPos -> bool)
      requires Valid()
      modifies this
      ensures Valid()
      ensures var all := Aged(old(blocks), dtime);
        && blocks == (map p | p in all && !LetGo(all[p], p, timeout, mayBeSaved, saves)
                      && Retained(all, p.sector, timeout) :: all[p])
        && sectors == set x | x in old(sectors) && Retained(all, x, timeout)
    {
      hide Retained, LetGo;
      ghost var was, all := blocks, Aged(blocks, dtime);
      var list: seq<SectorPos>, left := [], sectors;
      assert blocks == After(was, all, InSectors(was, left), timeout, mayBeSaved, saves);
      while left != {}
        invariant Valid() && left <= sectors == old(sectors)
        invariant blocks == After(was, all, InSectors(was, left), timeout, mayBeSaved, saves)
        invariant forall x :: x in list <==> x in sectors && x !in left && !Retained(all, x, timeout)
        decreases left
      {
        var x :| x in left;
        left := left - {x};
        assert InSectors(was, left + {x}) == InSectors(was, left) + InSectors(was, {x});
        var allBlocksDeleted := UpdateSector(x, dtime, timeout, mayBeSaved, saves, was, InSectors(was, left));
        if allBlocksDeleted {
          list := list + [x];
        }
      }
      DeleteSectors(list);
      assert sectors == set x | x in old(sectors) && Retained(all, x, timeout);
    }

    // The blocks of one sector: those that may go do, unless they cannot be saved.
    method UpdateSector(x: SectorPos, dtime: real, timeout: real, mayBeSaved: bool, saves: BlockPos -> bool,
                        ghost was: map<BlockPos, Block>, ghost others: set<BlockPos>) returns (allBlocksDeleted: bool)
      requires Valid() && InSectors(was, {x}) !! others
      requires blocks == After(was, Aged(was, dtime), others + InSectors(was, {x}), timeout, mayBeSaved, saves)
      modifies this`blocks
      ensures Valid() && blocks == After(was, Aged(was, dtime), others, timeout, mayBeSaved, saves)
      ensures allBlocksDeleted <==> !Retained(Aged(was, dtime), x, timeout)
    {
      hide After;
      ghost var all := Aged(was, dtime);
      allBlocksDeleted := true;
      var waiting := set p | p in blocks && p.sector == x;
      UntouchedStay(was, all, others, x, timeout, mayBeSaved, saves);
      while waiting != {}
        invariant Valid() && waiting <= InSectors(was, {x})
        invariant blocks == After(was, all, others + waiting, timeout, mayBeSaved, saves)
        invariant allBlocksDeleted <==>
          forall p :: p in InSectors(was, {x}) && p !in waiting ==> !Stays(all[p], timeout)
        decreases waiting
      {
        var p :| p in waiting;
        ghost var left := waiting - {p};
        assert others + left + {p} == others + waiting;
        Touch(was, all, others + left, p, timeout, mayBeSaved, saves);
        waiting := waiting - {p};
        ghost var before := blocks;
        var block := blocks[p].(usage := blocks[p].usage + dtime);
        blocks := blocks[p := block];
        assert blocks - {p} == before - {p};
        if block.refs == 0 && block.usage > timeout {
          if block.modified && mayBeSaved {
            if !saves(p) {
              continue;
            }
          }
          blocks := blocks - {p};
        } else {
          allBlocksDeleted := false;
        }
      }
      assert others + {} == others;
    }

    // Map::unloadUnreferencedBlocks: all blocks are taken.
    method UnloadUnreferencedBlocks(mayBeSaved: bool, saves: BlockPos -> bool) returns (unloaded: seq<BlockPos>)
      requires Valid()
      modifies this
      ensures Valid()
      ensures blocks == map p | p in old(blocks) && !Evictable(old(blocks)[p], p, mayBeSaved, saves) :: old(blocks)[p]
      ensures sectors == set x | x in old(sectors) && Inhabited(blocks, x)
    {
      hide Inhabited, Evictable;
      ghost var all := blocks;
      assert Aged(all, 0.0) == all;
      var queue;
      unloaded, queue := TimerUpdateLimited(0.0, -1.0, 0, mayBeSaved, saves);
      assert queue == {};
    }

    // The loop over the queue. The source tests its top in the condition of the loop.
    method TakeBlocks(timeout: real, maxBlocks: nat, mayBeSaved: bool, saves: BlockPos -> bool)
      returns (unloaded: seq<BlockPos>, queue: set<BlockPos>)
      requires Valid()
      modifies this`blocks
      ensures Valid()
      ensures var all := old(blocks);
        && OldestTaken(all, queue, timeout, maxBlocks)
        && |queue| <= maxBlocks && (forall p :: p in queue ==> p in all && all[p].usage <= timeout)
        && blocks == all - Evicted(all, queue, mayBeSaved, saves)
        && (set p | p in unloaded) == Evicted(all, queue, mayBeSaved, saves)
          && |unloaded| == |Evicted(all, queue, mayBeSaved, saves)|
    {
      hide Taking, Evictable, IsOldest;
      ghost var all := blocks;
      unloaded, queue := [], blocks.Keys;
      TakingStarts(all, timeout, maxBlocks, mayBeSaved, saves);
      while queue != {}
        invariant Valid() && Taking(all, queue, blocks, unloaded, timeout, maxBlocks, mayBeSaved, saves)
        decreases |queue|
      {
        TakingKeeps(all, queue, blocks, unloaded, timeout, maxBlocks, mayBeSaved, saves);
        var p := Top(queue);
        SameOldest(all, blocks, queue, p);
        var block := blocks[p];
        if |queue| <= maxBlocks && block.usage <= timeout {
          TakingEnds(all, queue, blocks, unloaded, timeout, maxBlocks, mayBeSaved, saves, p);
          return;
        }
        TakingStep(all, queue, blocks, unloaded, timeout, maxBlocks, mayBeSaved, saves, p);
        queue := queue - {p};
        if block.refs != 0 {
          continue;
        }
        if block.modified && mayBeSaved {
          if !saves(p) {
            continue;
          }
        }
        blocks := blocks - {p};
        unloaded := unloaded + [p];
      }
      TakingAll(all, blocks, unloaded, timeout, maxBlocks, mayBeSaved, saves);
    }

    // An element of the queue with the greatest usage timer.
    method Top(queue: set<BlockPos>) returns (p: BlockPos)
      requires queue != {} && queue <= blocks.Keys
      ensures IsOldest(blocks, queue, p)
    {
      ghost var o := OldestExists(blocks, queue);
      p :| IsOldest(blocks, queue, p);
    }

    // The sectors without a block.
    method EmptySectors() returns (list: seq<SectorPos>)
      ensures forall x :: x in list <==> x in sectors && !Inhabited(blocks, x)
    {
      list := [];
      var left := sectors;
      while left != {}
        invariant left <= sectors && forall x :: x in list <==> x in sectors && x !in left && !Inhabited(blocks, x)
        decreases left
      {
        var x :| x in left;
        left := left - {x};
        if (forall p :: p in blocks ==> p.sector != x) {
          list := list + [x];
        }
      }
    }
  }

  // While blocks are taken from the queue.
  ghost predicate Taking(all: map<BlockPos, Block>, queue: set<BlockPos>, blocks: map<BlockPos, Block>,
                         unloaded: seq<BlockPos>,
                         timeout: real, maxBlocks: int, mayBeSaved: bool, saves: BlockPos -> bool)
  {
    && OldestTaken(all, queue, timeout, maxBlocks)
    && blocks == all - Evicted(all, queue, mayBeSaved, saves)
    && (set p | p in unloaded) == Evicted(all, queue, mayBeSaved, saves)
      && |unloaded| == |Evicted(all, queue, mayBeSaved, saves)|
  }

  lemma TakingStarts(all: map<BlockPos, Block>, timeout: real, maxBlocks: int, mayBeSaved: bool,
                     saves: BlockPos -> bool)
    ensures Taking(all, all.Keys, all, [], timeout, maxBlocks, mayBeSaved, saves)
  {
    assert Evicted(all, all.Keys, mayBeSaved, saves) == {} && all - {} == all;
  }

  // What is in the queue is still loaded.
  lemma TakingKeeps(all: map<BlockPos, Block>, queue: set<BlockPos>, blocks: map<BlockPos, Block>,
                    unloaded: seq<BlockPos>,
                    timeout: real, maxBlocks: int, mayBeSaved: bool, saves: BlockPos -> bool)
    requires Taking(all, queue, blocks, unloaded, timeout, maxBlocks, mayBeSaved, saves)
    ensures forall p :: p in queue ==> p in all && p in blocks && blocks[p] == all[p]
  {
  }

  lemma SameOldest(all: map<BlockPos, Block>, blocks: map<BlockPos, Block>, queue: set<BlockPos>, p: BlockPos)
    requires IsOldest(blocks, queue, p) && forall q :: q in queue ==> q in all && q in blocks && blocks[q] == all[q]
    ensures IsOldest(all, queue, p) && p in queue
  {
  }

  lemma TakingStep(all: map<BlockPos, Block>, queue: set<BlockPos>, blocks: map<BlockPos, Block>,
                   unloaded: seq<BlockPos>,
                   timeout: real, maxBlocks: int, mayBeSaved: bool, saves: BlockPos -> bool, p: BlockPos)
    requires Taking(all, queue, blocks, unloaded, timeout, maxBlocks, mayBeSaved, saves) && IsOldest(all, queue, p)
    requires |queue| > maxBlocks || all[p].usage > timeout
    ensures if all[p].refs != 0 || (all[p].modified && mayBeSaved && !saves(p))
      then Taking(all, queue - {p}, blocks, unloaded, timeout, maxBlocks, mayBeSaved, saves)
      else Taking(all, queue - {p}, blocks - {p}, unloaded + [p], timeout, maxBlocks, mayBeSaved, saves)
  {
    hide OldestTaken, Evicted;
    TakeOldest(all, queue, p, timeout, maxBlocks);
    EvictedNext(all, queue, p, mayBeSaved, saves);
    var evicted := Evicted(all, queue, mayBeSaved, saves);
    assert all - evicted - {p} == all - (evicted + {p});
    assert (set q | q in unloaded + [p]) == (set q | q in unloaded) + {p};
  }

  lemma TakingEnds(all: map<BlockPos, Block>, queue: set<BlockPos>, blocks: map<BlockPos, Block>,
                   unloaded: seq<BlockPos>,
                   timeout: real, maxBlocks: int, mayBeSaved: bool, saves: BlockPos -> bool, p: BlockPos)
    requires Taking(all, queue, blocks, unloaded, timeout, maxBlocks, mayBeSaved, saves) && IsOldest(all, queue, p)
    requires all[p].usage <= timeout
    ensures OldestTaken(all, queue, timeout, maxBlocks)
      && (forall q :: q in queue ==> q in all && all[q].usage <= timeout)
    ensures blocks == all - Evicted(all, queue, mayBeSaved, saves)
    ensures (set p | p in unloaded) == Evicted(all, queue, mayBeSaved, saves)
      && |unloaded| == |Evicted(all, queue, mayBeSaved, saves)|
  {
  }

  lemma TakingAll(all: map<BlockPos, Block>, blocks: map<BlockPos, Block>, unloaded: seq<BlockPos>,
                  timeout: real, maxBlocks: int, mayBeSaved: bool, saves: BlockPos -> bool)
    requires Taking(all, {}, blocks, unloaded, timeout, maxBlocks, mayBeSaved, saves)
    ensures OldestTaken(all, {}, timeout, maxBlocks) && blocks == all - Evicted(all, {}, mayBeSaved, saves)
    ensures (set p | p in unloaded) == Evicted(all, {}, mayBeSaved, saves)
      && |unloaded| == |Evicted(all, {}, mayBeSaved, saves)|
  {
  }

  // Deleting sectors without blocks leaves the blocks as they are.
  lemma OnlyEmptyDeleted(blocks: map<BlockPos, Block>, list: seq<SectorPos>)
    requires forall x :: x in list ==> !Inhabited(blocks, x)
    ensures (map p | p in blocks && p.sector !in list :: blocks[p]) == blocks
  {
    forall p | p in blocks
      ensures p.sector !in list
    {
      assert Inhabited(blocks, p.sector);
    }
  }
}
