// Base relocations of a mapped PE32+ image (src/loader/image_mapper.cpp, apply_relocations).
//
// The relocation directory lives inside the image that is being patched, so a malformed
// directory can rewrite itself while it is walked. Relocate is the walk with that effect.
// Trail reads the directory once, from the image as it was. The two agree when no target
// lies in the directory, and then the whole pass is one addition per target word.
module Relocations {
  import opened LittleEndian

  const BLOCK_HEADER_SIZE: nat := 8
  const MAX_RELOC_BLOCKS: nat := 4096
  const ABSOLUTE: nat := 0
  const DIR64: nat := 10

  datatype Range = Range(rva: nat, size: nat)

  // ---------------------------------------------------------------- the walk, as it runs

  datatype Run = Run(image: seq<byte>, applied: nat, failed: bool)

  // Eight bytes inside one section; an empty section list lifts the restriction.
  predicate Patchable(regions: seq<Range>, target: nat) {
    regions == [] || exists r :: r in regions && r.rva <= target && target + 8 <= r.rva + r.size
  }

  function AddAt(image: seq<byte>, at: nat, delta: int): (r: seq<byte>)
    requires at + 8 <= |image|
    ensures |r| == |image|
  {
    Put(image, at, Encode((Word(image, at, 8) + delta) % TWO64, 8))
  }

  function EntryType(raw: nat): nat { raw / 4096 }

  function EntryTarget(page: nat, raw: nat): nat { page + raw % 4096 }

  predicate ValidTarget(image: seq<byte>, regions: seq<Range>, target: nat) {
    Patchable(regions, target) && target + 8 <= |image|
  }

  // The entries of one block, count of them left, the next one at position at.
  function Entries(image: seq<byte>, regions: seq<Range>, delta: int, page: nat, at: nat, count: nat,
                   applied: nat): (run: Run)
    requires at + 2 * count <= |image|
    ensures |run.image| == |image|
    decreases count
  {
    if count == 0 then Run(image, applied, false)
    else
      var raw := Word(image, at, 2);
      if EntryType(raw) == ABSOLUTE then
        Entries(image, regions, delta, page, at + 2, count - 1, applied)
      else if EntryType(raw) == DIR64 && ValidTarget(image, regions, EntryTarget(page, raw)) then
        Entries(AddAt(image, EntryTarget(page, raw), delta), regions, delta, page, at + 2, count - 1, applied + 1)
      else Run(image, applied, true)
  }

  predicate ValidBlockSize(size: nat, room: nat) {
    BLOCK_HEADER_SIZE <= size <= room && (size - BLOCK_HEADER_SIZE) % 2 == 0
  }

  function EntryCount(size: nat): (n: nat)
    requires BLOCK_HEADER_SIZE <= size
    ensures BLOCK_HEADER_SIZE + 2 * n <= size
  {
    (size - BLOCK_HEADER_SIZE) / 2
  }

  // The blocks from offset consumed of the directory on.
  function Blocks(image: seq<byte>, regions: seq<Range>, delta: int, dir: Range, consumed: nat, blocks: nat,
                  applied: nat): (run: Run)
    requires dir.rva + dir.size <= |image| && consumed <= dir.size
    ensures |run.image| == |image|
    decreases dir.size - consumed
  {
    if consumed + BLOCK_HEADER_SIZE > dir.size then Run(image, applied, consumed != dir.size)
    else
      var at := dir.rva + consumed;
      var size := Word(image, at + 4, 4);
      if blocks >= MAX_RELOC_BLOCKS || !ValidBlockSize(size, dir.size - consumed) then Run(image, applied, true)
      else
        var run := Entries(image, regions, delta, Word(image, at, 4), at + BLOCK_HEADER_SIZE,
                           EntryCount(size), applied);
        if run.failed then run
        else Blocks(run.image, regions, delta, dir, consumed + size, blocks + 1, run.applied)
  }

  predicate InImage(image: seq<byte>, dir: Range) { dir.rva + dir.size <= |image| }

  function Relocate(image: seq<byte>, dir: Range, delta: int, regions: seq<Range>): (run: Run)
    ensures |run.image| == |image|
  {
    if dir.size == 0 then Run(image, 0, false)
    else if !InImage(image, dir) then Run(image, 0, true)
    else Blocks(image, regions, delta, dir, 0, 0, 0)
  }

  // ---------------------------------------------------------------- the directory, read once

  // The targets met before the end of the directory or the first malformed part of it.
  datatype Trail = Trail(targets: seq<nat>, failed: bool)

  function Then(first: Trail, rest: Trail): Trail {
    if first.failed then first else Trail(first.targets + rest.targets, rest.failed)
  }

  function EntryTrail(image: seq<byte>, regions: seq<Range>, page: nat, at: nat, count: nat): Trail
    requires at + 2 * count <= |image|
    decreases count
  {
    if count == 0 then Trail([], false)
    else
      var raw := Word(image, at, 2);
      if EntryType(raw) == ABSOLUTE then EntryTrail(image, regions, page, at + 2, count - 1)
      else if EntryType(raw) == DIR64 && ValidTarget(image, regions, EntryTarget(page, raw)) then
        Then(Trail([EntryTarget(page, raw)], false), EntryTrail(image, regions, page, at + 2, count - 1))
      else Trail([], true)
  }

  function BlockTrail(image: seq<byte>, regions: seq<Range>, dir: Range, consumed: nat, blocks: nat): Trail
    requires InImage(image, dir) && consumed <= dir.size
    decreases dir.size - consumed
  {
    if consumed + BLOCK_HEADER_SIZE > dir.size then Trail([], consumed != dir.size)
    else
      var at := dir.rva + consumed;
      var size := Word(image, at + 4, 4);
      if blocks >= MAX_RELOC_BLOCKS || !ValidBlockSize(size, dir.size - consumed) then Trail([], true)
      else
        Then(EntryTrail(image, regions, Word(image, at, 4), at + BLOCK_HEADER_SIZE, EntryCount(size)),
             BlockTrail(image, regions, dir, consumed + size, blocks + 1))
  }

  function DirectoryTrail(image: seq<byte>, dir: Range, regions: seq<Range>): Trail {
    if dir.size == 0 then Trail([], false)
    else if !InImage(image, dir) then Trail([], true)
    else BlockTrail(image, regions, dir, 0, 0)
  }

  predicate InBounds(image: seq<byte>, targets: seq<nat>) {
    forall i :: 0 <= i < |targets| ==> targets[i] + 8 <= |image|
  }

  function AddAll(image: seq<byte>, targets: seq<nat>, delta: int): (r: seq<byte>)
    requires InBounds(image, targets)
    ensures |r| == |image|
    decreases |targets|
  {
    if targets == [] then image else AddAll(AddAt(image, targets[0], delta), targets[1..], delta)
  }

  predicate Apart(t: nat, u: nat) { t + 8 <= u || u + 8 <= t }

  predicate OutsideDirectory(dir: Range, targets: seq<nat>) {
    forall i :: 0 <= i < |targets| ==> targets[i] + 8 <= dir.rva || dir.rva + dir.size <= targets[i]
  }

  predicate SameDirectory(a: seq<byte>, b: seq<byte>, dir: Range) {
    |a| == |b| && InImage(a, dir) && forall i :: dir.rva <= i < dir.rva + dir.size ==> a[i] == b[i]
  }

  // ---------------------------------------------------------------- the walk follows the trail

  lemma {:induction false} EntryTrailFrame(a: seq<byte>, b: seq<byte>, dir: Range, regions: seq<Range>,
                                           page: nat, at: nat, count: nat)
    requires SameDirectory(a, b, dir) && dir.rva <= at && at + 2 * count <= dir.rva + dir.size
    ensures EntryTrail(a, regions, page, at, count) == EntryTrail(b, regions, page, at, count)
    decreases count
  {
    if count > 0 {
      WordFrame(a, b, at, at, 2);
      EntryTrailFrame(a, b, dir, regions, page, at + 2, count - 1);
    }
  }

  lemma {:induction false} BlockTrailFrame(a: seq<byte>, b: seq<byte>, dir: Range, regions: seq<Range>,
                                           consumed: nat, blocks: nat)
    requires SameDirectory(a, b, dir) && consumed <= dir.size
    ensures BlockTrail(a, regions, dir, consumed, blocks) == BlockTrail(b, regions, dir, consumed, blocks)
    decreases dir.size - consumed
  {
    hide Word, EntryTrail;
    if consumed + BLOCK_HEADER_SIZE <= dir.size {
      var at := dir.rva + consumed;
      WordFrame(a, b, at, at, 4);
      WordFrame(a, b, at + 4, at + 4, 4);
      var size := Word(a, at + 4, 4);
      if ValidBlockSize(size, dir.size - consumed) {
        EntryTrailFrame(a, b, dir, regions, Word(a, at, 4), at + BLOCK_HEADER_SIZE, EntryCount(size));
        BlockTrailFrame(a, b, dir, regions, consumed + size, blocks + 1);
      }
    }
  }

  // Every target of a trail was checked to lie in the image.
  lemma {:induction false} EntryTrailInImage(image: seq<byte>, regions: seq<Range>, page: nat, at: nat, count: nat)
    requires at + 2 * count <= |image|
    ensures forall t :: t in EntryTrail(image, regions, page, at, count).targets ==> ValidTarget(image, regions, t)
    decreases count
  {
    if count > 0 { EntryTrailInImage(image, regions, page, at + 2, count - 1); }
  }

  lemma {:induction false} BlockTrailInImage(image: seq<byte>, regions: seq<Range>, dir: Range, consumed: nat,
                                             blocks: nat)
    requires InImage(image, dir) && consumed <= dir.size
    ensures forall t :: t in BlockTrail(image, regions, dir, consumed, blocks).targets ==>
                          ValidTarget(image, regions, t)
    decreases dir.size - consumed
  {
    hide Word, EntryTrail, ValidTarget;
    if consumed + BLOCK_HEADER_SIZE <= dir.size {
      var at := dir.rva + consumed;
      var size := Word(image, at + 4, 4);
      if ValidBlockSize(size, dir.size - consumed) {
        EntryTrailInImage(image, regions, Word(image, at, 4), at + BLOCK_HEADER_SIZE, EntryCount(size));
        BlockTrailInImage(image, regions, dir, consumed + size, blocks + 1);
      }
    }
  }

  lemma AddAtKeepsDirectory(image: seq<byte>, dir: Range, t: nat, delta: int)
    requires InImage(image, dir) && t + 8 <= |image| && OutsideDirectory(dir, [t])
    ensures SameDirectory(image, AddAt(image, t, delta), dir)
  {
    assert [t][0] == t;
  }

  lemma {:induction false} AddAllKeepsDirectory(image: seq<byte>, dir: Range, targets: seq<nat>, delta: int)
    requires InImage(image, dir) && OutsideDirectory(dir, targets)
    requires InBounds(image, targets)
    ensures SameDirectory(image, AddAll(image, targets, delta), dir)
    decreases |targets|
  {
    if targets != [] { AddAllKeepsDirectory(AddAt(image, targets[0], delta), dir, targets[1..], delta); }
  }

  lemma {:induction false} AddAllSplits(image: seq<byte>, a: seq<nat>, b: seq<nat>, delta: int)
    requires InBounds(image, a) && InBounds(image, b)
    ensures InBounds(image, a + b)
    ensures AddAll(image, a + b, delta) == AddAll(AddAll(image, a, delta), b, delta)
    decreases |a|
  {
    hide AddAt;
    if a == [] {
      assert a + b == b;
    } else {
      assert (a + b)[0] == a[0] && (a + b)[1..] == a[1..] + b;
      AddAllSplits(AddAt(image, a[0], delta), a[1..], b, delta);
    }
  }

  lemma FirstTarget(dir: Range, target: nat, rest: seq<nat>)
    requires OutsideDirectory(dir, [target] + rest)
    ensures OutsideDirectory(dir, [target]) && OutsideDirectory(dir, rest)
  {
    assert forall i :: 0 <= i < |rest| ==> rest[i] == ([target] + rest)[i + 1];
    assert ([target] + rest)[0] == target;
  }

  lemma AddAllNothing(image: seq<byte>, delta: int)
    ensures InBounds(image, []) && AddAll(image, [], delta) == image
  {
  }

  lemma AddAllFirst(image: seq<byte>, target: nat, rest: seq<nat>, delta: int)
    requires target + 8 <= |image| && InBounds(AddAt(image, target, delta), rest)
    ensures InBounds(image, [target] + rest)
    ensures AddAll(image, [target] + rest, delta) == AddAll(AddAt(image, target, delta), rest, delta)
  {
    hide AddAt;
    assert ([target] + rest)[1..] == rest;
  }

  lemma {:induction false} EntriesFollowTrail(image: seq<byte>, dir: Range, regions: seq<Range>, delta: int,
                                              page: nat, at: nat, count: nat, applied: nat)
    requires InImage(image, dir) && dir.rva <= at && at + 2 * count <= dir.rva + dir.size
    requires OutsideDirectory(dir, EntryTrail(image, regions, page, at, count).targets)
    ensures var trail := EntryTrail(image, regions, page, at, count);
      && InBounds(image, trail.targets)
      && Entries(image, regions, delta, page, at, count, applied) ==
         Run(AddAll(image, trail.targets, delta), applied + |trail.targets|, trail.failed)
    decreases count
  {
    hide Word, AddAt, Patchable, EntryType, EntryTarget, AddAll, OutsideDirectory, InBounds;
    if count == 0 {
      AddAllNothing(image, delta);
    } else {
      var raw := Word(image, at, 2);
      var rest := EntryTrail(image, regions, page, at + 2, count - 1);
      if EntryType(raw) == ABSOLUTE {
        EntriesFollowTrail(image, dir, regions, delta, page, at + 2, count - 1, applied);
      } else if EntryType(raw) == DIR64 && ValidTarget(image, regions, EntryTarget(page, raw)) {
        var target := EntryTarget(page, raw);
        FirstTarget(dir, target, rest.targets);
        var next := AddAt(image, target, delta);
        AddAtKeepsDirectory(image, dir, target, delta);
        EntryTrailFrame(image, next, dir, regions, page, at + 2, count - 1);
        EntriesFollowTrail(next, dir, regions, delta, page, at + 2, count - 1, applied + 1);
        AddAllFirst(image, target, rest.targets, delta);
      } else {
        AddAllNothing(image, delta);
      }
    }
  }

  lemma TrailTargetsFit(image: seq<byte>, dir: Range, regions: seq<Range>, consumed: nat, blocks: nat)
    requires InImage(image, dir) && consumed <= dir.size
    ensures InBounds(image, BlockTrail(image, regions, dir, consumed, blocks).targets)
  {
    hide BlockTrail;
    BlockTrailInImage(image, regions, dir, consumed, blocks);
    forall i | 0 <= i < |BlockTrail(image, regions, dir, consumed, blocks).targets|
      ensures BlockTrail(image, regions, dir, consumed, blocks).targets[i] + 8 <= |image|
    {
      assert BlockTrail(image, regions, dir, consumed, blocks).targets[i]
             in BlockTrail(image, regions, dir, consumed, blocks).targets;
    }
  }

  lemma OutsideSplits(dir: Range, a: seq<nat>, b: seq<nat>)
    ensures OutsideDirectory(dir, a + b) ==> OutsideDirectory(dir, a) && OutsideDirectory(dir, b)
  {
    if OutsideDirectory(dir, a + b) {
      forall i | 0 <= i < |a| ensures a[i] + 8 <= dir.rva || dir.rva + dir.size <= a[i] { assert (a + b)[i] == a[i]; }
      forall i | 0 <= i < |b| ensures b[i] + 8 <= dir.rva || dir.rva + dir.size <= b[i] {
        assert (a + b)[|a| + i] == b[i];
      }
    }
  }

  lemma {:induction false} BlocksFollowTrail(image: seq<byte>, dir: Range, regions: seq<Range>, delta: int,
                                             consumed: nat, blocks: nat, applied: nat)
    requires InImage(image, dir) && consumed <= dir.size
    requires OutsideDirectory(dir, BlockTrail(image, regions, dir, consumed, blocks).targets)
    ensures var trail := BlockTrail(image, regions, dir, consumed, blocks);
      && InBounds(image, trail.targets)
      && Blocks(image, regions, delta, dir, consumed, blocks, applied) ==
         Run(AddAll(image, trail.targets, delta), applied + |trail.targets|, trail.failed)
    decreases dir.size - consumed
  {
    hide Word, AddAt, AddAll, Entries, EntryTrail, InBounds, OutsideDirectory, ValidTarget, Blocks, BlockTrail;
    hide ValidBlockSize, EntryCount;
    if !HasBlock(image, dir, consumed, blocks) {
      NoBlock(image, dir, regions, delta, consumed, blocks, applied);
      return;
    }
    var at, size := dir.rva + consumed, BlockSize(image, dir, consumed);
    BlockFits(image, dir, consumed, blocks);
    var first := EntryTrail(image, regions, Word(image, at, 4), at + BLOCK_HEADER_SIZE, EntryCount(size));
    var rest := BlockTrail(image, regions, dir, consumed + size, blocks + 1);
    TrailSplits(image, dir, regions, consumed, blocks);
    OutsideSplits(dir, first.targets, rest.targets);
    EntriesFollowTrail(image, dir, regions, delta, Word(image, at, 4), at + BLOCK_HEADER_SIZE,
                       EntryCount(size), applied);
    if !first.failed {
      var next := AddAll(image, first.targets, delta);
      AddAllKeepsDirectory(image, dir, first.targets, delta);
      BlockTrailFrame(image, next, dir, regions, consumed + size, blocks + 1);
      BlocksFollowTrail(next, dir, regions, delta, consumed + size, blocks + 1, applied + |first.targets|);
      TrailTargetsFit(image, dir, regions, consumed + size, blocks + 1);
    }
    BlockThenRest(image, dir, regions, delta, consumed, blocks, applied, first, rest);
  }

  function BlockSize(image: seq<byte>, dir: Range, consumed: nat): nat
    requires InImage(image, dir) && consumed + BLOCK_HEADER_SIZE <= dir.size
  {
    Word(image, dir.rva + consumed + 4, 4)
  }

  predicate HasBlock(image: seq<byte>, dir: Range, consumed: nat, blocks: nat)
    requires InImage(image, dir)
  {
    && consumed + BLOCK_HEADER_SIZE <= dir.size && blocks < MAX_RELOC_BLOCKS
    && ValidBlockSize(BlockSize(image, dir, consumed), dir.size - consumed)
  }

  lemma BlockFits(image: seq<byte>, dir: Range, consumed: nat, blocks: nat)
    requires InImage(image, dir) && HasBlock(image, dir, consumed, blocks)
    ensures var size := BlockSize(image, dir, consumed);
      && BLOCK_HEADER_SIZE <= size && consumed + size <= dir.size
      && dir.rva + consumed + BLOCK_HEADER_SIZE + 2 * EntryCount(size) <= dir.rva + consumed + size
  {
    hide Word;
  }

  function FirstBlock(image: seq<byte>, dir: Range, regions: seq<Range>, delta: int, consumed: nat, blocks: nat,
                      applied: nat): Run
    requires InImage(image, dir) && consumed <= dir.size && HasBlock(image, dir, consumed, blocks)
  {
    var at := dir.rva + consumed;
    Entries(image, regions, delta, Word(image, at, 4), at + BLOCK_HEADER_SIZE,
            EntryCount(BlockSize(image, dir, consumed)), applied)
  }

  // Where the directory ends, or is malformed.
  lemma NoBlock(image: seq<byte>, dir: Range, regions: seq<Range>, delta: int, consumed: nat, blocks: nat, applied: nat)
    requires InImage(image, dir) && consumed <= dir.size && !HasBlock(image, dir, consumed, blocks)
    ensures var trail := BlockTrail(image, regions, dir, consumed, blocks);
      && InBounds(image, trail.targets)
      && Blocks(image, regions, delta, dir, consumed, blocks, applied) ==
         Run(AddAll(image, trail.targets, delta), applied + |trail.targets|, trail.failed)
  {
    hide Word, Entries, EntryTrail;
  }

  lemma TrailSplits(image: seq<byte>, dir: Range, regions: seq<Range>, consumed: nat, blocks: nat)
    requires InImage(image, dir) && consumed <= dir.size && HasBlock(image, dir, consumed, blocks)
    ensures var at, size := dir.rva + consumed, BlockSize(image, dir, consumed);
      && BLOCK_HEADER_SIZE <= size <= dir.size - consumed
      && BlockTrail(image, regions, dir, consumed, blocks) ==
         Then(EntryTrail(image, regions, Word(image, at, 4), at + BLOCK_HEADER_SIZE, EntryCount(size)),
              BlockTrail(image, regions, dir, consumed + size, blocks + 1))
  {
    hide Word, EntryTrail;
  }

  // A block, and then those after it.
  lemma BlockThenRest(image: seq<byte>, dir: Range, regions: seq<Range>, delta: int, consumed: nat, blocks: nat,
                      applied: nat, first: Trail, rest: Trail)
    requires InImage(image, dir) && consumed <= dir.size && HasBlock(image, dir, consumed, blocks)
    requires InBounds(image, first.targets)
    requires var done := applied + |first.targets|;
      && FirstBlock(image, dir, regions, delta, consumed, blocks, applied)
         == Run(AddAll(image, first.targets, delta), done, first.failed)
      && (!first.failed ==>
            && InBounds(image, rest.targets)
            && var next := AddAll(image, first.targets, delta);
               Blocks(next, regions, delta, dir, consumed + BlockSize(image, dir, consumed), blocks + 1, done)
               == Run(AddAll(next, rest.targets, delta), done + |rest.targets|, rest.failed))
    ensures var trail := Then(first, rest);
      && InBounds(image, trail.targets)
      && Blocks(image, regions, delta, dir, consumed, blocks, applied) ==
         Run(AddAll(image, trail.targets, delta), applied + |trail.targets|, trail.failed)
  {
    hide Word, AddAt, AddAll, Entries, ValidTarget, EntryCount;
    if !first.failed { AddAllSplits(image, first.targets, rest.targets, delta); }
  }

  // Main result: when no target lies in the directory, relocation fails exactly when the
  // directory is malformed, reports the number of DIR64 entries, and adds delta at each.
  lemma RelocateFollowsTrail(image: seq<byte>, dir: Range, delta: int, regions: seq<Range>)
    requires OutsideDirectory(dir, DirectoryTrail(image, dir, regions).targets)
    ensures var trail := DirectoryTrail(image, dir, regions);
      && InBounds(image, trail.targets)
      && Relocate(image, dir, delta, regions) ==
         Run(AddAll(image, trail.targets, delta), |trail.targets|, trail.failed)
  {
    if dir.size > 0 && InImage(image, dir) { BlocksFollowTrail(image, dir, regions, delta, 0, 0, 0); }
  }

  // ---------------------------------------------------------------- what the additions do

  function Count(targets: seq<nat>, t: nat): nat {
    if targets == [] then 0 else (if targets[0] == t then 1 else 0) + Count(targets[1..], t)
  }

  // Any two targets are the same word or share no byte.
  predicate WordsApart(targets: seq<nat>) {
    forall t, u :: t in targets && u in targets ==> t == u || Apart(t, u)
  }

  ghost predicate Covered(targets: seq<nat>, i: nat) { exists t :: t in targets && t <= i < t + 8 }

  lemma AddAtEffect(image: seq<byte>, at: nat, delta: int)
    requires at + 8 <= |image|
    ensures Word(AddAt(image, at, delta), at, 8) == (Word(image, at, 8) + delta) % TWO64
    ensures forall u: nat :: u + 8 <= |image| && Apart(at, u) ==>
                          Word(AddAt(image, at, delta), u, 8) == Word(image, u, 8)
    ensures forall i :: 0 <= i < |image| && !(at <= i < at + 8) ==> AddAt(image, at, delta)[i] == image[i]
  {
    Pow256Values();
    PutThenRead(image, at, (Word(image, at, 8) + delta) % TWO64, 8);
    forall u: nat | u + 8 <= |image| && Apart(at, u)
      ensures Word(AddAt(image, at, delta), u, 8) == Word(image, u, 8)
    {
      WordFrame(AddAt(image, at, delta), image, u, u, 8);
    }
  }

  lemma ModAdds(v: int, a: int, b: int)
    ensures ((v + a) % TWO64 + b) % TWO64 == (v + a + b) % TWO64
  {
    var q := (v + a) / TWO64;
    assert (v + a) % TWO64 + b == v + a + b - q * TWO64;
    ModShift(v + a + b, q);
  }

  lemma ModShift(x: int, q: int)
    ensures (x - q * TWO64) % TWO64 == x % TWO64
  {
  }

  // A word to which delta has been added so many times.
  function Grown(v: nat, times: nat, delta: int): nat { (v + times * delta) % TWO64 }

  // A target word grows by delta once for each time it is listed, modulo 2^64.
  lemma AddAllAtTarget(image: seq<byte>, targets: seq<nat>, delta: int, t: nat)
    requires InBounds(image, targets) && t + 8 <= |image|
    requires forall u :: u in targets ==> u == t || Apart(u, t)
    ensures Word(AddAll(image, targets, delta), t, 8) == (Word(image, t, 8) + Count(targets, t) * delta) % TWO64
  {
    hide Word, AddAll, Count;
    TargetGrows(image, targets, delta, t);
  }

  lemma {:induction false} TargetGrows(image: seq<byte>, targets: seq<nat>, delta: int, t: nat)
    requires InBounds(image, targets) && t + 8 <= |image|
    requires forall u :: u in targets ==> u == t || Apart(u, t)
    ensures Word(AddAll(image, targets, delta), t, 8) == Grown(Word(image, t, 8), Count(targets, t), delta)
    decreases |targets|
  {
    hide Word, AddAt, Grown;
    if targets == [] {
      WordIsGrown(image, t, delta);
    } else {
      var next := AddAt(image, targets[0], delta);
      AddAtEffect(image, targets[0], delta);
      TargetGrows(next, targets[1..], delta, t);
      OneMoreDelta(Word(image, t, 8), delta, Count(targets[1..], t));
    }
  }

  lemma WordIsGrown(image: seq<byte>, t: nat, delta: int)
    requires t + 8 <= |image|
    ensures Grown(Word(image, t, 8), 0, delta) == Word(image, t, 8)
  {
    hide Word;
    Pow256Values();
    assert Word(image, t, 8) < TWO64;
  }

  lemma OneMoreDelta(v: nat, delta: int, rest: nat)
    ensures Grown((v + delta) % TWO64, rest, delta) == Grown(v, 1 + rest, delta)
  {
    ModAdds(v, delta, rest * delta);
    assert (1 + rest) * delta == delta + rest * delta;
  }

  lemma {:induction false} AddAllElsewhere(image: seq<byte>, targets: seq<nat>, delta: int, i: nat)
    requires InBounds(image, targets) && i < |image| && !Covered(targets, i)
    ensures AddAll(image, targets, delta)[i] == image[i]
    decreases |targets|
  {
    hide Word, AddAt;
    if targets != [] {
      AddAtEffect(image, targets[0], delta);
      assert targets[0] in targets;
      assert forall t :: t in targets[1..] ==> t in targets;
      AddAllElsewhere(AddAt(image, targets[0], delta), targets[1..], delta, i);
    }
  }

  // Images that agree on every target word and on every byte outside them are equal.
  lemma SameImage(a: seq<byte>, b: seq<byte>, targets: seq<nat>)
    requires |a| == |b| && InBounds(a, targets) && forall t :: t in targets ==> Word(a, t, 8) == Word(b, t, 8)
    requires forall i :: 0 <= i < |a| && !Covered(targets, i) ==> a[i] == b[i]
    ensures a == b
  {
    hide Word;
    forall i | 0 <= i < |a| ensures a[i] == b[i] {
      if Covered(targets, i) {
        var t :| t in targets && t <= i < t + 8;
        EqualWords(a, b, t, 8);
        assert a[i] == a[t..t + 8][i - t] && b[i] == b[t..t + 8][i - t];
      }
    }
  }

  lemma AddAllComposes(image: seq<byte>, targets: seq<nat>, d1: int, d2: int)
    requires WordsApart(targets) && InBounds(image, targets)
    ensures AddAll(AddAll(image, targets, d1), targets, d2) == AddAll(image, targets, d1 + d2)
  {
    hide Word, AddAt, AddAll, Count, Covered;
    var once := AddAll(image, targets, d1);
    var twice := AddAll(once, targets, d2);
    var direct := AddAll(image, targets, d1 + d2);
    forall t | t in targets ensures Word(twice, t, 8) == Word(direct, t, 8) {
      AddAllAtTarget(image, targets, d1, t);
      AddAllAtTarget(once, targets, d2, t);
      AddAllAtTarget(image, targets, d1 + d2, t);
      var n := Count(targets, t);
      ModAdds(Word(image, t, 8), n * d1, n * d2);
      assert n * d1 + n * d2 == n * (d1 + d2);
    }
    forall i | 0 <= i < |image| && !Covered(targets, i) ensures twice[i] == direct[i] {
      AddAllElsewhere(image, targets, d1, i);
      AddAllElsewhere(once, targets, d2, i);
      AddAllElsewhere(image, targets, d1 + d2, i);
    }
    SameImage(twice, direct, targets);
  }

  lemma AddAllZero(image: seq<byte>, targets: seq<nat>)
    requires WordsApart(targets) && InBounds(image, targets)
    ensures AddAll(image, targets, 0) == image
  {
    hide Word, AddAt, AddAll, Count, Covered;
    Pow256Values();
    forall t | t in targets ensures Word(AddAll(image, targets, 0), t, 8) == Word(image, t, 8) {
      AddAllAtTarget(image, targets, 0, t);
    }
    forall i | 0 <= i < |image| && !Covered(targets, i) ensures AddAll(image, targets, 0)[i] == image[i] {
      AddAllElsewhere(image, targets, 0, i);
    }
    SameImage(AddAll(image, targets, 0), image, targets);
  }

  // ---------------------------------------------------------------- laws of relocation

  ghost predicate WellPlaced(image: seq<byte>, dir: Range, regions: seq<Range>) {
    var targets := DirectoryTrail(image, dir, regions).targets;
    OutsideDirectory(dir, targets) && WordsApart(targets)
  }

  // A successful pass adds delta to each target word, modulo 2^64, and touches nothing else.
  lemma RelocateEffect(image: seq<byte>, dir: Range, delta: int, regions: seq<Range>)
    requires WellPlaced(image, dir, regions)
    ensures var trail := DirectoryTrail(image, dir, regions);
      var run := Relocate(image, dir, delta, regions);
      && run.failed == trail.failed && run.applied == |trail.targets|
      && (forall t :: t in trail.targets ==>
            && t + 8 <= |image|
            && Word(run.image, t, 8) == (Word(image, t, 8) + Count(trail.targets, t) * delta) % TWO64)
      && (forall i :: 0 <= i < |image| && !Covered(trail.targets, i) ==> run.image[i] == image[i])
  {
    hide Word, AddAt, AddAll, Count, Covered, Relocate, DirectoryTrail, OutsideDirectory;
    RelocateFollowsTrail(image, dir, delta, regions);
    var targets := DirectoryTrail(image, dir, regions).targets;
    forall t | t in targets
      ensures Word(AddAll(image, targets, delta), t, 8) == (Word(image, t, 8) + Count(targets, t) * delta) % TWO64
    {
      AddAllAtTarget(image, targets, delta, t);
    }
    forall i | 0 <= i < |image| && !Covered(targets, i) ensures AddAll(image, targets, delta)[i] == image[i] {
      AddAllElsewhere(image, targets, delta, i);
    }
  }

  lemma {:induction false} CountOfDistinct(targets: seq<nat>, t: nat)
    requires t in targets && forall i, j :: 0 <= i < j < |targets| ==> targets[i] != targets[j]
    ensures Count(targets, t) == 1
  {
    if targets[0] == t { CountAbsent(targets[1..], t); } else { CountOfDistinct(targets[1..], t); }
  }

  lemma {:induction false} CountAbsent(targets: seq<nat>, t: nat)
    requires t !in targets
    ensures Count(targets, t) == 0
  {
    if targets != [] { CountAbsent(targets[1..], t); }
  }

  lemma RelocatedDirectoryIsTheSame(image: seq<byte>, dir: Range, delta: int, regions: seq<Range>)
    requires OutsideDirectory(dir, DirectoryTrail(image, dir, regions).targets)
    ensures DirectoryTrail(Relocate(image, dir, delta, regions).image, dir, regions)
            == DirectoryTrail(image, dir, regions)
  {
    RelocateFollowsTrail(image, dir, delta, regions);
    if dir.size > 0 && InImage(image, dir) {
      var targets := DirectoryTrail(image, dir, regions).targets;
      AddAllKeepsDirectory(image, dir, targets, delta);
      BlockTrailFrame(image, AddAll(image, targets, delta), dir, regions, 0, 0);
    }
  }

  // Relocating by d1 and then by d2 is relocating by d1 + d2.
  lemma RelocateComposes(image: seq<byte>, dir: Range, d1: int, d2: int, regions: seq<Range>)
    requires WellPlaced(image, dir, regions)
    ensures Relocate(Relocate(image, dir, d1, regions).image, dir, d2, regions)
            == Relocate(image, dir, d1 + d2, regions)
  {
    hide Word, AddAt, AddAll, Relocate, DirectoryTrail, OutsideDirectory, WordsApart;
    RelocatedDirectoryIsTheSame(image, dir, d1, regions);
    RelocateFollowsTrail(image, dir, d1, regions);
    RelocateFollowsTrail(image, dir, d1 + d2, regions);
    RelocateFollowsTrail(Relocate(image, dir, d1, regions).image, dir, d2, regions);
    AddAllComposes(image, DirectoryTrail(image, dir, regions).targets, d1, d2);
  }

  // Relocating by delta and then by -delta restores the image.
  lemma RelocateInverse(image: seq<byte>, dir: Range, delta: int, regions: seq<Range>)
    requires WellPlaced(image, dir, regions)
    ensures Relocate(Relocate(image, dir, delta, regions).image, dir, -delta, regions).image == image
  {
    hide Word, AddAt, AddAll, Relocate, DirectoryTrail, OutsideDirectory, WordsApart;
    RelocateComposes(image, dir, delta, -delta, regions);
    RelocateFollowsTrail(image, dir, 0, regions);
    AddAllZero(image, DirectoryTrail(image, dir, regions).targets);
  }

  // ---------------------------------------------------------------- the pass in place

  datatype RelocationResult = Success(applied: nat) | InvalidImage

  method IsPatchable(regions: seq<Range>, target: nat) returns (ok: bool)
    ensures ok == Patchable(regions, target)
  {
    if |regions| == 0 { return true; }
    for k := 0 to |regions|
      invariant forall j :: 0 <= j < k ==> !(regions[j].rva <= target && target + 8 <= regions[j].rva + regions[j].size)
    {
      if regions[k].rva <= target && target + 8 <= regions[k].rva + regions[k].size { return true; }
    }
    return false;
  }

  // The entries of one block; more is the number of words patched.
  method ApplyBlock(memory: array<byte>, regions: seq<Range>, delta: int, page: nat, at: nat, count: nat)
    returns (ok: bool, more: nat)
    requires at + 2 * count <= memory.Length
    modifies memory
    ensures forall applied: nat :: var run := Entries(old(memory[..]), regions, delta, page, at, count, applied);
      memory[..] == run.image && ok == !run.failed && (ok ==> applied + more == run.applied)
  {
    hide Word, Put, Encode, Patchable;
    more := 0;
    ghost var was := memory[..];
    for k := 0 to count
      invariant forall applied: nat ::
        Entries(was, regions, delta, page, at, count, applied)
        == Entries(memory[..], regions, delta, page, at + 2 * k, count - k, applied + more)
    {
      var raw := Load(memory, at + 2 * k, 2);
      if EntryType(raw) == ABSOLUTE { continue; }
      var target := EntryTarget(page, raw);
      if EntryType(raw) != DIR64 { return false, more; }
      var patchable := IsPatchable(regions, target);
      if !patchable { return false, more; }
      if target + 8 > memory.Length { return false, more; }
      var value := Load(memory, target, 8);
      Store(memory, target, (value + delta) % TWO64, 8);
      more := more + 1;
    }
    return true, more;
  }

  method ApplyRelocations(memory: array<byte>, dir: Range, delta: int, regions: seq<Range>)
    returns (result: RelocationResult)
    modifies memory
    ensures var run := Relocate(old(memory[..]), dir, delta, regions);
      memory[..] == run.image && result == if run.failed then InvalidImage else Success(run.applied)
  {
    hide Word, Entries;
    if dir.size == 0 { return Success(0); }
    if dir.rva > memory.Length || dir.size > memory.Length - dir.rva { return InvalidImage; }
    ghost var run := Relocate(memory[..], dir, delta, regions);
    var consumed, applied, blocks := 0, 0, 0;
    while consumed + BLOCK_HEADER_SIZE <= dir.size
      invariant consumed <= dir.size
      invariant run == Blocks(memory[..], regions, delta, dir, consumed, blocks, applied)
      decreases dir.size - consumed
    {
      if blocks >= MAX_RELOC_BLOCKS { return InvalidImage; }
      var at := dir.rva + consumed;
      var page := Load(memory, at, 4);
      var size := Load(memory, at + 4, 4);
      if size < BLOCK_HEADER_SIZE { return InvalidImage; }
      if size > dir.size - consumed { return InvalidImage; }
      var entryBytes := size - BLOCK_HEADER_SIZE;
      if entryBytes % 2 != 0 { return InvalidImage; }
      var ok, more := ApplyBlock(memory, regions, delta, page, at + BLOCK_HEADER_SIZE, entryBytes / 2);
      if !ok { return InvalidImage; }
      applied := applied + more;
      consumed := consumed + size;
      blocks := blocks + 1;
    }
    if consumed != dir.size { return InvalidImage; }
    return Success(applied);
  }
}
