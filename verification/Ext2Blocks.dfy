/**
 The block pointers of an ext2 inode: which pointers lead to the n-th block of a file.
 */
module Ext2Blocks {
  import opened Ahci
  import opened Common
  import opened Disk
  import Align

  /** A disk with a file system on it; `beyond` is memory behind read_disk's buffers. */
  datatype Volume = Volume(image: seq<byte>, beyond: seq<byte>, start: nat, blockSize: nat) {
    predicate Good() { |beyond| >= SECTOR && blockSize >= 4 }
    function PointersPerBlock(): nat { blockSize / 4 }
  }

  /** read_disk; a read past the end of the disk fails and leaves the zeroed buffer. */
  function Fetch(v: Volume, offset: nat, size: nat): (r: seq<byte>)
    requires v.Good()
    ensures |r| == size
  {
    if InRange(v.image, offset, size) then ReadDisk(v.image, offset, size, v.beyond) else seq(size, _ => 0)
  }

  /** A little-endian 32-bit word. */
  function Le32(b: seq<byte>, at: nat): nat
    requires at + 4 <= |b|
  {
    var b0: int, b1: int, b2: int, b3: int := b[at], b[at + 1], b[at + 2], b[at + 3];
    b0 + 0x100 * b1 + 0x1_0000 * b2 + 0x100_0000 * b3
  }

  /** Where the driver looks for block number n > 0. */
  function Place(v: Volume, n: nat): nat
    requires n > 0
  {
    (n - 1) * v.blockSize + v.start
  }

  /** get_indirect_block_entry */
  function IndirectEntry(v: Volume, block: nat, index: nat): nat
    requires v.Good()
  {
    if block == 0 then 0
    else if index < v.PointersPerBlock() then Le32(Fetch(v, Place(v, block), v.blockSize), 4 * index)
    else 0
  }

  function Cast32(x: nat): nat { x % WORD_32 }

  /** Offset of a block, or 0 for the null pointer. */
  function Offset(v: Volume, block: nat): nat { if block == 0 then 0 else Place(v, block) }

  function Times(a: nat, b: nat): nat { a * b }

  function Div(x: nat, n: nat): nat { if n == 0 then 0 else x / n }

  function Mod(x: nat, n: nat): nat { if n == 0 then 0 else x % n }

  /** ext2_get_nth_block_offset_of_inode, given the inode's fifteen pointers. */
  function NthBlock(v: Volume, pointers: seq<nat>, index: nat): nat
    requires v.Good() && |pointers| == 15
  {
    var n := v.PointersPerBlock();
    var square := Times(n, n);
    if index < 12 then Offset(v, pointers[index])
    else if index - 12 < n then
      Offset(v, IndirectEntry(v, pointers[12], Cast32(index - 12)))
    else if index - 12 - n < square then
      var i := index - 12 - n;
      Offset(v, IndirectEntry(v, IndirectEntry(v, pointers[13], Cast32(Div(i, n))), Cast32(Mod(i, n))))
    else if index - 12 - n - square < Times(square, n) then
      var i := index - 12 - n - square;
      var rest := Cast32(Mod(i, square));
      var double := IndirectEntry(v, pointers[14], Cast32(Div(i, square)));
      var single := IndirectEntry(v, double, Div(rest, n));
      Offset(v, IndirectEntry(v, single, Mod(rest, n)))
    else 0
  }

  // ---------------------------------------------------------------- the pointer tree

  /** A pointer of the inode, and the indices to follow from it. */
  datatype Path = Path(slot: nat, steps: seq<nat>)

  predicate GoodPath(p: Path, n: nat) {
    && p.slot < 15 && |p.steps| == (if p.slot < 12 then 0 else p.slot - 11)
    && forall i :: 0 <= i < |p.steps| ==> p.steps[i] < n
  }

  function Capacity(n: nat): nat { 12 + n + Times(n, n) + Times(Times(n, n), n) }

  /** Position of a file block among all paths, shortest paths first, then by index. */
  function IndexOf(p: Path, n: nat): nat
    requires GoodPath(p, n)
  {
    if p.slot < 12 then p.slot
    else if p.slot == 12 then 12 + p.steps[0]
    else if p.slot == 13 then 12 + n + Times(p.steps[0], n) + p.steps[1]
    else 12 + n + Times(n, n) + Times(Times(p.steps[0], n) + p.steps[1], n) + p.steps[2]
  }

  /** The path of file block i: its distance from the start of its level, in base n. */
  function PathOf(i: nat, n: nat): Path
    requires n > 0 && i < Capacity(n)
  {
    if i < 12 then Path(i, [])
    else if i < 12 + n then Path(12, [i - 12])
    else if i < 12 + n + Times(n, n) then
      var d := i - 12 - n;
      Path(13, [Div(d, n), Mod(d, n)])
    else
      var d := i - 12 - n - Times(n, n);
      Path(14, [Div(Div(d, n), n), Mod(Div(d, n), n), Mod(d, n)])
  }

  /** The block a path leads to; a null pointer on the way leads nowhere. */
  function Follow(v: Volume, block: nat, steps: seq<nat>): nat
    requires v.Good()
    decreases |steps|
  {
    if block == 0 || steps == [] then block
    else Follow(v, IndirectEntry(v, block, steps[0]), steps[1..])
  }

  lemma Digit(a: nat, b: nat, n: nat)
    requires b < n
    ensures Div(Times(a, n) + b, n) == a && Mod(Times(a, n) + b, n) == b
  {
    Align.DivModUnique(a * n + b, n, a, b);
  }

  lemma Below(a: nat, b: nat, n: nat, m: nat)
    requires a < m && b < n
    ensures Times(a, n) + b < Times(m, n)
  {
    assert (m - 1 - a) * n >= 0;
    assert m * n == (m - 1 - a) * n + a * n + n;
  }

  lemma Quotient(d: nat, n: nat, m: nat)
    requires n > 0 && d < Times(m, n)
    ensures Div(d, n) < m && Mod(d, n) < n && d == Times(Div(d, n), n) + Mod(d, n)
  {
    var q := d / n;
    assert d == q * n + d % n;
    if q >= m {
      Monotone(m, q, n);
    }
  }

  lemma Monotone(a: nat, b: nat, n: nat)
    requires a <= b
    ensures a * n <= b * n
  {}

  /** PathOf and IndexOf are inverse to each other, between all block indices and all paths. */
  lemma PathOfIndex(i: nat, n: nat)
    requires n > 0 && i < Capacity(n)
    ensures GoodPath(PathOf(i, n), n) && IndexOf(PathOf(i, n), n) == i
  {
    hide Times, Div, Mod;
    if 12 + n <= i < 12 + n + Times(n, n) {
      Quotient(i - 12 - n, n, n);
    } else if 12 + n + Times(n, n) <= i {
      var d := i - 12 - n - Times(n, n);
      Quotient(d, n, Times(n, n));
      Quotient(Div(d, n), n, n);
    }
  }

  lemma IndexOfPath(p: Path, n: nat)
    requires n > 0 && GoodPath(p, n)
    ensures IndexOf(p, n) < Capacity(n) && PathOf(IndexOf(p, n), n) == p
  {
    hide Times, Div, Mod;
    if p.slot == 13 {
      Digit(p.steps[0], p.steps[1], n);
      Below(p.steps[0], p.steps[1], n, n);
    } else if p.slot == 14 {
      var high := Times(p.steps[0], n) + p.steps[1];
      Digit(p.steps[0], p.steps[1], n);
      Below(p.steps[0], p.steps[1], n, n);
      Digit(high, p.steps[2], n);
      Below(high, p.steps[2], n, Times(n, n));
    }
  }

  // ---------------------------------------------------------------- the driver follows the tree

  lemma SquareSplit(d: nat, n: nat)
    requires n > 0
    ensures Times(n, n) > 0
    ensures Div(d, Times(n, n)) == Div(Div(d, n), n)
    ensures Mod(d, Times(n, n)) == Times(Mod(Div(d, n), n), n) + Mod(d, n)
  {
    hide Times, Div, Mod;
    var q, c := Div(d, n), Mod(d, n);
    var a, b := Div(q, n), Mod(q, n);
    Divided(d, n);
    Divided(q, n);
    Below(b, c, n, n);
    Distribute(a, b, n);
    Digit(a, Times(b, n) + c, Times(n, n));
  }

  lemma Divided(d: nat, n: nat)
    requires n > 0
    ensures d == Times(Div(d, n), n) + Mod(d, n) && Mod(d, n) < n
  {}

  lemma Distribute(a: nat, b: nat, n: nat)
    ensures Times(Times(a, n) + b, n) == Times(a, Times(n, n)) + Times(b, n)
  {}

  lemma Small(x: nat, n: nat)
    requires (x < n || x < Times(n, n)) && n <= 65535
    ensures Cast32(x) == x
  {
    Monotone(n, 65535, n);
    assert n * n <= 65535 * n;
  }

  lemma FollowOne(v: Volume, block: nat, a: nat)
    requires v.Good()
    ensures Follow(v, block, [a]) == IndirectEntry(v, block, a)
  {}

  lemma FollowTwo(v: Volume, block: nat, a: nat, b: nat)
    requires v.Good()
    ensures Follow(v, block, [a, b]) == IndirectEntry(v, IndirectEntry(v, block, a), b)
  {
    assert [a, b][1..] == [b];
    FollowOne(v, IndirectEntry(v, block, a), b);
  }

  lemma FollowThree(v: Volume, block: nat, a: nat, b: nat, c: nat)
    requires v.Good()
    ensures Follow(v, block, [a, b, c]) ==
            IndirectEntry(v, IndirectEntry(v, IndirectEntry(v, block, a), b), c)
  {
    assert [a, b, c][1..] == [b, c];
    FollowTwo(v, IndirectEntry(v, block, a), b, c);
  }

  /**
   For every index below the capacity the driver returns the place of the block that the path
   leads to; past the capacity it returns 0.
   */
  lemma NthBlockFollows(v: Volume, pointers: seq<nat>, index: nat)
    requires v.Good() && |pointers| == 15 && v.PointersPerBlock() <= 65535
    ensures var n := v.PointersPerBlock();
            NthBlock(v, pointers, index) ==
            if index < Capacity(n)
            then (var p := PathOf(index, n); PathOfIndex(index, n); Offset(v, Follow(v, pointers[p.slot], p.steps)))
            else 0
  {
    hide Times, Div, Mod, IndirectEntry, Offset, Follow, Cast32;
    var n := v.PointersPerBlock();
    var square := Times(n, n);
    SquareSplit(0, n);
    if index < 12 {
      FollowNone(v, pointers[index]);
    } else if index < 12 + n {
      FollowOne(v, pointers[12], index - 12);
      Small(index - 12, n);
    } else if index < 12 + n + square {
      var i := index - 12 - n;
      Quotient(i, n, n);
      Small(Div(i, n), n);
      Small(Mod(i, n), n);
      FollowTwo(v, pointers[13], Div(i, n), Mod(i, n));
    } else if index < Capacity(n) {
      var i := index - 12 - n - square;
      var a, b, c := Div(Div(i, n), n), Mod(Div(i, n), n), Mod(i, n);
      Quotient(i, n, square);
      Quotient(Div(i, n), n, n);
      SquareSplit(i, n);
      Below(b, c, n, n);
      Small(a, n);
      Small(Times(b, n) + c, n);
      Digit(b, c, n);
      FollowThree(v, pointers[14], a, b, c);
    }
  }

  /** A pointer on the path is null. */
  predicate NullOnPath(v: Volume, block: nat, steps: seq<nat>)
    requires v.Good()
    decreases |steps|
  {
    block == 0 || (steps != [] && NullOnPath(v, IndirectEntry(v, block, steps[0]), steps[1..]))
  }

  lemma {:induction false} FollowNull(v: Volume, block: nat, steps: seq<nat>)
    requires v.Good()
    ensures Follow(v, block, steps) == 0 <==> NullOnPath(v, block, steps)
    decreases |steps|
  {
    hide IndirectEntry;
    if block != 0 && steps != [] {
      FollowNull(v, IndirectEntry(v, block, steps[0]), steps[1..]);
    }
  }

  /**
   The driver returns 0 exactly when the index is past the capacity or a pointer on its path is
   null, unless the volume starts at byte 0, where the place of block 1 is 0 too.
   */
  lemma NthBlockZeroIff(v: Volume, pointers: seq<nat>, index: nat)
    requires v.Good() && |pointers| == 15 && v.PointersPerBlock() <= 65535
    ensures NthBlock(v, pointers, index) == 0 <==>
            index >= Capacity(v.PointersPerBlock()) || NoBlock(v, pointers, PathOf(index, v.PointersPerBlock()))
  {
    hide NthBlock, Follow, NullOnPath, Capacity, PathOf;
    var n := v.PointersPerBlock();
    NthBlockFollows(v, pointers, index);
    if index < Capacity(n) {
      PathOfIndex(index, n);
      var p := PathOf(index, n);
      FollowNull(v, pointers[p.slot], p.steps);
      OffsetZero(v, Follow(v, pointers[p.slot], p.steps));
    }
  }

  /** The path meets a null pointer, or leads to block 1 of a volume that starts at byte 0. */
  predicate NoBlock(v: Volume, pointers: seq<nat>, p: Path)
    requires v.Good() && |pointers| == 15
  {
    p.slot < 15 &&
    (NullOnPath(v, pointers[p.slot], p.steps) || (v.start == 0 && Follow(v, pointers[p.slot], p.steps) == 1))
  }

  lemma OffsetZero(v: Volume, block: nat)
    requires v.Good()
    ensures Offset(v, block) == 0 <==> block == 0 || (block == 1 && v.start == 0)
  {
    if block > 1 {
      Align.AtLeastOnce(block - 1, v.blockSize);
    }
  }

  lemma FollowNone(v: Volume, block: nat)
    requires v.Good()
    ensures Follow(v, block, []) == block
  {}
}
