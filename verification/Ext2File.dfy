/**
 Reading a file: the loop of ext2_read_inode over the block map, the inode it starts from,
 and the byte sequence a file is on an ext2 volume.
 */
module Ext2File {
  import opened Ahci
  import opened Common
  import opened Disk
  import opened Ext2Blocks

  // ---------------------------------------------------------------- the loop, over any block map

  /** Disk offset of file block i; the map may be too short. */
  function Loc(locs: seq<nat>, i: nat): nat { if i < |locs| then locs[i] else 0 }

  function Min(a: nat, b: nat): nat { if a < b then a else b }

  /** The loop of ext2_read_inode from file offset curr up to end. */
  function ReadLoop(v: Volume, locs: seq<nat>, curr: nat, end: nat): (r: seq<byte>)
    requires v.Good()
    ensures curr <= end ==> |r| == end - curr
    decreases end - curr
  {
    if curr >= end then []
    else
      var size := Min(v.blockSize, end - curr);
      Fetch(v, Loc(locs, Div(curr, v.blockSize)) + Mod(curr, v.blockSize), size) + ReadLoop(v, locs, curr + size, end)
  }

  /** Byte k of the file. */
  function FileByte(v: Volume, locs: seq<nat>, k: nat): byte {
    var at := Loc(locs, Div(k, v.blockSize)) + Mod(k, v.blockSize);
    if at < |v.image| then v.image[at] else 0
  }

  /** Bytes [a, b) of the file. */
  function FileSlice(v: Volume, locs: seq<nat>, a: nat, b: nat): (r: seq<byte>)
    requires a <= b
    ensures |r| == b - a
    ensures forall k :: 0 <= k < b - a ==> r[k] == FileByte(v, locs, a + k)
  {
    seq<byte>(b - a, k requires 0 <= k < b - a => FileByte(v, locs, a + k))
  }

  /** The disk and the map are made of whole sectors, and file blocks from lo on are on the disk. */
  predicate Mapped(v: Volume, locs: seq<nat>, lo: nat) {
    && v.Good() && v.blockSize % SECTOR == 0 && |v.image| % SECTOR == 0
    && forall i :: lo <= i < |locs| ==> locs[i] % SECTOR == 0 && locs[i] + v.blockSize <= |v.image|
  }

  /** One read of `size` bytes at file offset curr stays in its block and in its sectors. */
  predicate OneReadRight(blockSize: nat, curr: nat, size: nat) {
    Mod(curr, blockSize) + size <= blockSize && Covered(Mod(curr, blockSize), size)
  }

  /** A read that starts on a block boundary is always right. */
  lemma AlignedRead(blockSize: nat, curr: nat, size: nat)
    requires Mod(curr, blockSize) == 0 && size <= blockSize
    ensures OneReadRight(blockSize, curr, size)
  {
    SectorsCover(size);
  }

  lemma SectorOffset(loc: nat, r: nat, size: nat)
    requires loc % SECTOR == 0
    ensures Covered(loc + r, size) <==> Covered(r, size)
    ensures Base(loc + r) == loc + Base(r)
  {
    assert (loc + r) % SECTOR == r % SECTOR;
  }

  lemma ReadFits(v: Volume, loc: nat, r: nat, size: nat)
    requires v.blockSize % SECTOR == 0 && loc % SECTOR == 0 && loc + v.blockSize <= |v.image|
    requires r + size <= v.blockSize && Covered(r, size)
    ensures InRange(v.image, loc + r, size)
  {
    SectorOffset(loc, r, size);
    SectorsCover(size);
    BaseSplit(r);
  }

  /** One read is the slice, when it is right. */
  lemma OneRead(v: Volume, locs: seq<nat>, curr: nat, size: nat)
    requires Mapped(v, locs, Div(curr, v.blockSize)) && Div(curr, v.blockSize) < |locs|
    requires OneReadRight(v.blockSize, curr, size)
    ensures Fetch(v, Loc(locs, Div(curr, v.blockSize)) + Mod(curr, v.blockSize), size) ==
            FileSlice(v, locs, curr, curr + size)
  {
    hide Div, Mod, Covered, InRange, ReadDisk;
    var loc, r := locs[Div(curr, v.blockSize)], Mod(curr, v.blockSize);
    SectorOffset(loc, r, size);
    ReadFits(v, loc, r, size);
    ReadCovered(v.image, loc + r, size, v.beyond);
    var bytes := v.image[loc + r..loc + r + size];
    forall k | 0 <= k < size ensures bytes[k] == FileSlice(v, locs, curr, curr + size)[k] {
      WithinBlock(curr, v.blockSize, k);
    }
  }

  /** Moving on by k inside a block. */
  lemma WithinBlock(curr: nat, n: nat, k: nat)
    requires n > 0 && Mod(curr, n) + k < n
    ensures Div(curr + k, n) == Div(curr, n) && Mod(curr + k, n) == Mod(curr, n) + k
  {
    hide Times, Div, Mod;
    Divided(curr, n);
    Digit(Div(curr, n), Mod(curr, n) + k, n);
  }

  lemma NextBlock(curr: nat, n: nat)
    requires n > 0
    ensures Div(curr + n, n) == Div(curr, n) + 1 && Mod(curr + n, n) == Mod(curr, n)
  {
    hide Div, Mod;
    Divided(curr, n);
    Digit(Div(curr, n) + 1, Mod(curr, n), n);
    assert Times(Div(curr, n) + 1, n) == Times(Div(curr, n), n) + n;
  }

  /** From a block boundary on, the loop delivers exactly the file's bytes. */
  lemma {:induction false} ReadLoopAligned(v: Volume, locs: seq<nat>, curr: nat, end: nat)
    requires Mapped(v, locs, Div(curr, v.blockSize)) && Mod(curr, v.blockSize) == 0 && curr <= end
    requires end > curr ==> Div(end - 1, v.blockSize) < |locs|
    ensures ReadLoop(v, locs, curr, end) == FileSlice(v, locs, curr, end)
    decreases end - curr
  {
    hide Div, Mod, Fetch, FileByte;
    if curr < end {
      var size := Min(v.blockSize, end - curr);
      AlignedRead(v.blockSize, curr, size);
      DivMonotone(curr, end - 1, v.blockSize);
      OneRead(v, locs, curr, size);
      if size < v.blockSize {
        assert ReadLoop(v, locs, curr + size, end) == [];
      } else {
        NextBlock(curr, v.blockSize);
        ReadLoopAligned(v, locs, curr + size, end);
      }
    }
  }

  lemma DivMonotone(a: nat, b: nat, n: nat)
    requires a <= b && n > 0
    ensures Div(a, n) <= Div(b, n)
  {
    var qa, qb := a / n, b / n;
    assert a == qa * n + a % n && b == qb * n + b % n;
    assert (qb + 1) * n == qb * n + n;
    if qa > qb {
      Monotone(qb + 1, qa, n);
    }
  }

  // ---------------------------------------------------------------- exactly when the loop is right

  /** Blocks of zeroes, each followed by a block of ones. */
  function Striped(blockSize: nat, blocks: nat): (r: seq<byte>)
    ensures |r| == Times(2 * blocks, blockSize)
  {
    seq<byte>(Times(2 * blocks, blockSize), i requires 0 <= i => if Div(i, blockSize) % 2 == 0 then 0 else 1)
  }

  /** A volume whose file blocks are zero and whose every other byte, on disk or behind buffers, is one. */
  function Witness(blockSize: nat, blocks: nat): Volume {
    Volume(Striped(blockSize, blocks), seq<byte>(SECTOR, _ => 1), 0, blockSize)
  }

  function WitnessLocs(blockSize: nat, blocks: nat): seq<nat> {
    seq(blocks, i requires 0 <= i => Times(2 * i, blockSize))
  }

  lemma StripedAt(blockSize: nat, blocks: nat, i: nat, r: nat)
    requires i < 2 * blocks && r < blockSize
    ensures Times(i, blockSize) + r < |Striped(blockSize, blocks)|
    ensures Striped(blockSize, blocks)[Times(i, blockSize) + r] == i % 2
  {
    hide Times, Div;
    Below(i, r, blockSize, 2 * blocks);
    Digit(i, r, blockSize);
  }

  lemma SectorMultiple(a: nat, n: nat)
    requires n % SECTOR == 0
    ensures Times(a, n) % SECTOR == 0
  {
    var k := n / SECTOR;
    assert n == k * SECTOR;
    assert a * n == (a * k) * SECTOR by { assert a * (k * SECTOR) == (a * k) * SECTOR; }
    Digit(a * k, 0, SECTOR);
  }

  lemma TwoTimes(i: nat, n: nat)
    ensures Times(2 * i + 2, n) == Times(2 * i, n) + 2 * n && Times(2 * i + 1, n) == Times(2 * i, n) + n
  {}

  lemma WitnessMapped(blockSize: nat, blocks: nat)
    requires blockSize >= 4 && blockSize % SECTOR == 0
    ensures Mapped(Witness(blockSize, blocks), WitnessLocs(blockSize, blocks), 0)
  {
    hide Times, Div;
    var v, locs := Witness(blockSize, blocks), WitnessLocs(blockSize, blocks);
    SectorMultiple(2 * blocks, blockSize);
    forall i | 0 <= i < |locs| ensures locs[i] % SECTOR == 0 && locs[i] + blockSize <= |v.image| {
      SectorMultiple(2 * i, blockSize);
      StripedAt(blockSize, blocks, 2 * i, blockSize - 1);
    }
  }

  /** File bytes of the witness are zero. */
  lemma WitnessFile(blockSize: nat, blocks: nat, k: nat)
    requires blockSize > 0 && Div(k, blockSize) < blocks
    ensures FileByte(Witness(blockSize, blocks), WitnessLocs(blockSize, blocks), k) == 0
  {
    hide Times, Div, Mod;
    Divided(k, blockSize);
    StripedAt(blockSize, blocks, 2 * Div(k, blockSize), Mod(k, blockSize));
  }

  /** A byte read past the block or past the buffer is one. */
  lemma WitnessRead(blockSize: nat, blocks: nat, b: nat, r: nat, size: nat, k: nat)
    requires blockSize >= 4 && blockSize % SECTOR == 0 && b < blocks
    requires r < blockSize && k < size <= blockSize
    requires r + k == blockSize || (r + k < blockSize && r % SECTOR + k >= Sectors(size) * SECTOR)
    ensures Fetch(Witness(blockSize, blocks), Times(2 * b, blockSize) + r, size)[k] == 1
  {
    hide Times, Div, ReadDisk, Striped, Base, Sectors;
    var v, loc := Witness(blockSize, blocks), Times(2 * b, blockSize);
    SectorMultiple(2 * b, blockSize);
    SectorOffset(loc, r, size);
    TwoTimes(b, blockSize);
    StripedAt(blockSize, blocks, 2 * b + 1, blockSize - 1);
    StripedAt(blockSize, blocks, 2 * b + 1, 0);
    FitsTwoBlocks(blockSize, r, size);
    SameRemainder(loc, r);
    ReadByte(v.image, loc + r, size, v.beyond, k);
  }

  lemma SameRemainder(loc: nat, r: nat)
    requires loc % SECTOR == 0
    ensures (loc + r) % SECTOR == r % SECTOR
  {}

  lemma FitsTwoBlocks(blockSize: nat, r: nat, size: nat)
    requires blockSize % SECTOR == 0 && r < blockSize && size <= blockSize
    ensures Base(r) + Sectors(size) * SECTOR <= 2 * blockSize
  {}

  /**
   The loop delivers the file's bytes on every volume exactly when it starts on a block boundary,
   or makes one read that stays in its block and in its sectors.
   */
  lemma ReadLoopIff(blockSize: nat, offset: nat, end: nat)
    requires blockSize >= 4 && blockSize % SECTOR == 0 && offset < end
    ensures (forall v: Volume, locs: seq<nat> ::
               Mapped(v, locs, Div(offset, blockSize)) && v.blockSize == blockSize && Div(end - 1, blockSize) < |locs| ==>
                 ReadLoop(v, locs, offset, end) == FileSlice(v, locs, offset, end))
            <==> Mod(offset, blockSize) == 0 || OneReadRight(blockSize, offset, end - offset)
  {
    hide Div, Mod, ReadLoop, FileSlice, OneReadRight;
    if Mod(offset, blockSize) == 0 || OneReadRight(blockSize, offset, end - offset) {
      forall v: Volume, locs: seq<nat> |
        Mapped(v, locs, Div(offset, blockSize)) && v.blockSize == blockSize && Div(end - 1, blockSize) < |locs|
        ensures ReadLoop(v, locs, offset, end) == FileSlice(v, locs, offset, end)
      {
        if Mod(offset, blockSize) == 0 {
          ReadLoopAligned(v, locs, offset, end);
        } else {
          ReadLoopOnce(v, locs, offset, end);
        }
      }
    } else {
      var blocks := Div(end - 1, blockSize) + 1;
      WitnessMapped(blockSize, blocks);
      WitnessDiffers(blockSize, offset, end);
      var v, locs := Witness(blockSize, blocks), WitnessLocs(blockSize, blocks);
      assert ReadLoop(v, locs, offset, end) != FileSlice(v, locs, offset, end);
    }
  }

  lemma ReadLoopOnce(v: Volume, locs: seq<nat>, offset: nat, end: nat)
    requires Mapped(v, locs, Div(offset, v.blockSize)) && offset < end && OneReadRight(v.blockSize, offset, end - offset)
    requires Div(end - 1, v.blockSize) < |locs|
    ensures ReadLoop(v, locs, offset, end) == FileSlice(v, locs, offset, end)
  {
    hide Div, Mod, Fetch, FileByte;
    DivMonotone(offset, end - 1, v.blockSize);
    OneRead(v, locs, offset, end - offset);
    assert ReadLoop(v, locs, end, end) == [];
  }

  lemma WitnessDiffers(blockSize: nat, offset: nat, end: nat)
    requires blockSize >= 4 && blockSize % SECTOR == 0 && offset < end
    requires Mod(offset, blockSize) != 0 && !OneReadRight(blockSize, offset, end - offset)
    ensures var blocks := Div(end - 1, blockSize) + 1;
            var v, locs := Witness(blockSize, blocks), WitnessLocs(blockSize, blocks);
            v.Good() && ReadLoop(v, locs, offset, end) != FileSlice(v, locs, offset, end)
  {
    hide Div, Mod, Times, Fetch, FileByte, Striped;
    var blocks := Div(end - 1, blockSize) + 1;
    var v, locs := Witness(blockSize, blocks), WitnessLocs(blockSize, blocks);
    var b, r := Div(offset, blockSize), Mod(offset, blockSize);
    Divided(offset, blockSize);
    DivMonotone(offset, end - 1, blockSize);
    var size := Min(blockSize, end - offset);
    var k := if r + size > blockSize then blockSize - r else size - 1;
    WitnessRead(blockSize, blocks, b, r, size, k);
    DivMonotone(offset + k, end - 1, blockSize);
    WitnessFile(blockSize, blocks, offset + k);
    assert ReadLoop(v, locs, offset, end)[k] == 1;
    assert FileSlice(v, locs, offset, end)[k] == 0;
  }
}
