/**
 The whole read path: from an inode number to the bytes of the file, against the layout
 the ext2 standard gives a volume.
 */
module Ext2 {
  import opened Ahci
  import opened Common
  import opened Disk
  import opened Ext2Blocks
  import opened Ext2File
  import opened Ext2Inode
  import Align

  const SUPER_OFFSET := 1024        // bytes from the start of a volume to its superblock
  const DESCRIPTOR_SIZE := 18       // sizeof(ext2_block_group_descriptor) in the driver
  const STANDARD_DESCRIPTOR := 32

  /** What the driver uses of the superblock, besides the block size. */
  datatype Super = Super(inodesPerGroup: nat, inodeSize: nat) {
    predicate Good() { inodesPerGroup > 0 && inodeSize in {128, 256, 512} }
  }

  // ---------------------------------------------------------------- the driver

  function Descriptors(v: Volume): nat { v.start + (if v.blockSize > 1024 then v.blockSize else 1024) }

  /** ext2_read_block_group_descriptor: first block of the group's inode table. */
  function InodeTable(v: Volume, group: nat): nat
    requires v.Good()
  {
    Le32(Fetch(v, Descriptors(v) + DESCRIPTOR_SIZE * group, DESCRIPTOR_SIZE), 8)
  }

  /** ext2_read_inode_metadata */
  function InodeBytes(v: Volume, sb: Super, inode: nat): (r: seq<byte>)
    requires v.Good() && sb.Good() && inode >= 1
    ensures |r| == sb.inodeSize
  {
    var table := InodeTable(v, Div(inode - 1, sb.inodesPerGroup));
    var addr := Times(Wrap32(table - 1), v.blockSize) + Times(Mod(inode - 1, sb.inodesPerGroup), sb.inodeSize);
    Fetch(v, v.start + addr, sb.inodeSize)
  }

  function Wrap32(x: int): nat { x % WORD_32 }

  function BlockMap(v: Volume, pointers: seq<nat>, blocks: nat): seq<nat>
    requires v.Good() && |pointers| == 15
  {
    seq(blocks, i requires 0 <= i => NthBlock(v, pointers, i))
  }

  lemma Associative(a: seq<byte>, b: seq<byte>, c: seq<byte>)
    ensures a + (b + c) == (a + b) + c
  {}

  lemma ReadLoopStep(v: Volume, locs: seq<nat>, curr: nat, end: nat)
    requires v.Good()
    ensures curr >= end ==> ReadLoop(v, locs, curr, end) == []
    ensures curr < end ==>
              var size := Min(v.blockSize, end - curr);
              ReadLoop(v, locs, curr, end) ==
                Fetch(v, Loc(locs, Div(curr, v.blockSize)) + Mod(curr, v.blockSize), size)
                + ReadLoop(v, locs, curr + size, end)
  {
    hide Fetch, Div, Mod, Loc;
  }

  /**
   The loop's last offset is computed in 64 unsigned bits: it is the last byte wanted exactly when
   there is one.
   */
  lemma LastOffset(size: nat, offset: nat, count: nat)
    requires offset + count < WORD_64
    ensures (Min(size, offset + count) - 1) % WORD_64 + 1 == Min(size, offset + count)
            <==> Min(size, offset + count) > 0
  {}

  // ---------------------------------------------------------------- the standard's layout

  /** Block n of a volume is its n-th block from the volume's first byte. */
  function StandardPlace(v: Volume, n: nat): nat
    requires v.start >= SUPER_OFFSET
  {
    v.start - SUPER_OFFSET + Times(n, v.blockSize)
  }

  /** The driver's place is the standard's for 1 KiB blocks, and for no other size. */
  lemma PlaceIff(v: Volume, n: nat)
    requires n > 0 && v.start >= SUPER_OFFSET
    ensures Place(v, n) == StandardPlace(v, n) <==> v.blockSize == 1024
  {
    assert (n - 1) * v.blockSize == n * v.blockSize - v.blockSize;
  }

  /** A volume of 1 KiB blocks on a disk of whole sectors. */
  predicate Standard(v: Volume) {
    v.Good() && v.blockSize == 1024 && v.start >= SUPER_OFFSET && v.start % SECTOR == 0 && |v.image| % SECTOR == 0
  }

  /** First block of a group's inode table, by the standard: byte 8 of its 32-byte descriptor. */
  function StandardTable(v: Volume, group: nat): nat {
    var at := Descriptors(v) + STANDARD_DESCRIPTOR * group + 8;
    if at + 4 <= |v.image| then Le32(v.image, at) else 0
  }

  /** A volume that has the descriptor of the group. */
  predicate HasGroup(v: Volume, group: nat) {
    Standard(v) && Descriptors(v) + STANDARD_DESCRIPTOR * (group + 1) <= |v.image|
  }

  /** The driver finds the inode table of a group on every volume that has it exactly for group 0. */
  lemma DescriptorIff(group: nat)
    ensures (forall v: Volume :: HasGroup(v, group) ==> InodeTable(v, group) == StandardTable(v, group)) <==> group == 0
  {
    if group == 0 {
      forall v: Volume | HasGroup(v, group) ensures InodeTable(v, group) == StandardTable(v, group) {
        FirstDescriptor(v);
      }
    } else {
      OtherDescriptor(group);
    }
  }

  lemma FirstDescriptor(v: Volume)
    requires HasGroup(v, 0)
    ensures InodeTable(v, 0) == StandardTable(v, 0)
  {
    hide Fetch, Le32;
    var d := Descriptors(v);
    FetchSlice(v, d, DESCRIPTOR_SIZE);
    SliceLe32(v.image, d, d + DESCRIPTOR_SIZE, 8);
  }

  /** A volume of zeroes except for one byte: the inode table of the group is in block 1. */
  function OneTable(group: nat): Volume {
    var at := 2 * SUPER_OFFSET + STANDARD_DESCRIPTOR * group + 8;
    Volume(seq<byte>(SECTOR * (group + 8), i => if i == at then 1 else 0), seq<byte>(SECTOR, _ => 0), SUPER_OFFSET, 1024)
  }

  lemma OtherDescriptor(group: nat)
    requires group > 0
    ensures var v := OneTable(group); HasGroup(v, group) && InodeTable(v, group) != StandardTable(v, group)
  {
    hide Fetch;
    var v := OneTable(group);
    var d := 2 * SUPER_OFFSET + DESCRIPTOR_SIZE * group;
    OneTableSize(group);
    OneTableByte(group, 8);
    OneTableByte(group, 9);
    OneTableByte(group, 10);
    OneTableByte(group, 11);
    assert Le32(Fetch(v, d, DESCRIPTOR_SIZE), 8) == 0;
    assert StandardTable(v, group) == 1;
  }

  lemma OneTableSize(group: nat)
    ensures HasGroup(OneTable(group), group)
    ensures InRange(OneTable(group).image, 2 * SUPER_OFFSET + DESCRIPTOR_SIZE * group, DESCRIPTOR_SIZE)
  {
    assert Sectors(DESCRIPTOR_SIZE) == 1;
    BaseSplit(2 * SUPER_OFFSET + DESCRIPTOR_SIZE * group);
    Align.MultipleMod(group + 8, SECTOR);
  }

  lemma OneTableByte(group: nat, k: nat)
    requires group > 0 && 8 <= k < 12
    ensures Fetch(OneTable(group), 2 * SUPER_OFFSET + DESCRIPTOR_SIZE * group, DESCRIPTOR_SIZE)[k] == 0
  {
    hide ReadDisk;
    var v, d := OneTable(group), 2 * SUPER_OFFSET + DESCRIPTOR_SIZE * group;
    OneTableSize(group);
    ReadByte(v.image, d, DESCRIPTOR_SIZE, v.beyond, k);
  }

  predicate OnDisk(v: Volume, n: nat)
    requires v.start >= SUPER_OFFSET
  {
    n > 0 && StandardPlace(v, n) + v.blockSize <= |v.image|
  }

  /** Pointer i of the indirect block n. */
  function StandardEntry(v: Volume, n: nat, i: nat): nat
    requires v.start >= SUPER_OFFSET
  {
    var at := StandardPlace(v, n) + 4 * i;
    if at + 4 <= |v.image| then Le32(v.image, at) else 0
  }

  /** All pointers on a path are set and lead to blocks of the disk. */
  predicate Solid(v: Volume, n: nat, steps: seq<nat>)
    requires v.start >= SUPER_OFFSET
    decreases |steps|
  {
    OnDisk(v, n) && (steps == [] || (steps[0] < v.PointersPerBlock() && Solid(v, StandardEntry(v, n, steps[0]), steps[1..])))
  }

  function StandardFollow(v: Volume, n: nat, steps: seq<nat>): nat
    requires v.start >= SUPER_OFFSET
    decreases |steps|
  {
    if n == 0 || steps == [] then n else StandardFollow(v, StandardEntry(v, n, steps[0]), steps[1..])
  }

  lemma SliceLe32(b: seq<byte>, lo: nat, hi: nat, at: nat)
    requires lo <= hi <= |b| && at + 4 <= hi - lo
    ensures Le32(b[lo..hi], at) == Le32(b, lo + at)
  {}

  lemma PlaceAligned(v: Volume, n: nat)
    requires Standard(v) && n > 0
    ensures Place(v, n) == StandardPlace(v, n) && Place(v, n) % SECTOR == 0
  {
    PlaceIff(v, n);
  }

  /** A read of whole sectors from a sector boundary is a slice of the disk. */
  lemma FetchSlice(v: Volume, at: nat, size: nat)
    requires v.Good() && at % SECTOR == 0 && |v.image| % SECTOR == 0 && at + size <= |v.image|
    ensures Fetch(v, at, size) == v.image[at..at + size]
  {
    SectorsCover(size);
    BaseSplit(at);
    assert Sectors(size) * SECTOR <= |v.image| - at;
    ReadCovered(v.image, at, size, v.beyond);
  }

  lemma EntryIsStandard(v: Volume, n: nat, i: nat)
    requires Standard(v) && OnDisk(v, n) && i < v.PointersPerBlock()
    ensures IndirectEntry(v, n, i) == StandardEntry(v, n, i)
  {
    hide Times, Fetch, Le32;
    var at := StandardPlace(v, n);
    PlaceAligned(v, n);
    FetchSlice(v, at, v.blockSize);
    SliceLe32(v.image, at, at + v.blockSize, 4 * i);
  }

  lemma {:induction false} FollowIsStandard(v: Volume, n: nat, steps: seq<nat>)
    requires Standard(v) && Solid(v, n, steps)
    ensures Follow(v, n, steps) == StandardFollow(v, n, steps) && OnDisk(v, Follow(v, n, steps))
    decreases |steps|
  {
    hide IndirectEntry, StandardEntry, StandardPlace;
    if steps != [] {
      EntryIsStandard(v, n, steps[0]);
      FollowIsStandard(v, StandardEntry(v, n, steps[0]), steps[1..]);
    }
  }

  /** The path of file block i is solid: no hole, nothing outside the disk. */
  predicate SolidBlock(v: Volume, pointers: seq<nat>, i: nat)
    requires v.Good() && v.start >= SUPER_OFFSET && |pointers| == 15
  {
    i < Capacity(v.PointersPerBlock()) &&
    var p := PathOf(i, v.PointersPerBlock());
    p.slot < 15 && Solid(v, pointers[p.slot], p.steps)
  }

  /** Byte k of the file, by the standard: the pointer tree, then the block. */
  function StandardByte(v: Volume, pointers: seq<nat>, k: nat): byte
    requires v.Good() && v.start >= SUPER_OFFSET && |pointers| == 15
  {
    var i := Div(k, v.blockSize);
    if i >= Capacity(v.PointersPerBlock()) then 0
    else
      var p := PathOf(i, v.PointersPerBlock());
      var n := if p.slot < 15 then StandardFollow(v, pointers[p.slot], p.steps) else 0;
      var at := StandardPlace(v, n) + Mod(k, v.blockSize);
      if n == 0 || at >= |v.image| then 0 else v.image[at]
  }

  /** Where the driver puts a solid block. */
  lemma SolidPlace(v: Volume, pointers: seq<nat>, i: nat)
    requires Standard(v) && |pointers| == 15 && SolidBlock(v, pointers, i)
    ensures var p := PathOf(i, v.PointersPerBlock());
            var n := StandardFollow(v, pointers[p.slot], p.steps);
            && OnDisk(v, n) && NthBlock(v, pointers, i) == StandardPlace(v, n)
            && NthBlock(v, pointers, i) % SECTOR == 0
  {
    hide Times, Div, Mod, Follow, NthBlock, StandardFollow, Capacity, Solid;
    var p := PathOf(i, v.PointersPerBlock());
    PathOfIndex(i, v.PointersPerBlock());
    NthBlockFollows(v, pointers, i);
    FollowIsStandard(v, pointers[p.slot], p.steps);
    PlaceAligned(v, Follow(v, pointers[p.slot], p.steps));
  }

  lemma SolidMapped(v: Volume, pointers: seq<nat>, lo: nat, blocks: nat)
    requires Standard(v) && |pointers| == 15
    requires forall i: nat :: lo <= i < blocks ==> SolidBlock(v, pointers, i)
    ensures Mapped(v, BlockMap(v, pointers, blocks), lo)
  {
    hide SolidBlock, NthBlock, StandardFollow, PathOf, StandardPlace;
    var locs := BlockMap(v, pointers, blocks);
    forall i | lo <= i < |locs| ensures locs[i] % SECTOR == 0 && locs[i] + v.blockSize <= |v.image| {
      SolidPlace(v, pointers, i);
    }
  }

  /** On solid blocks, the bytes found through the driver's block map are the standard's. */
  lemma FileByteIsStandard(v: Volume, pointers: seq<nat>, blocks: nat, k: nat)
    requires Standard(v) && |pointers| == 15
    requires Div(k, v.blockSize) < blocks && SolidBlock(v, pointers, Div(k, v.blockSize))
    ensures FileByte(v, BlockMap(v, pointers, blocks), k) == StandardByte(v, pointers, k)
  {
    hide Times, Div, Mod, NthBlock, StandardFollow, Solid, Capacity;
    SolidPlace(v, pointers, Div(k, v.blockSize));
    Divided(k, v.blockSize);
  }

  /** Bytes [a, b) of the file, by the standard. */
  function StandardFile(v: Volume, pointers: seq<nat>, a: nat, b: nat): (r: seq<byte>)
    requires v.Good() && v.start >= SUPER_OFFSET && |pointers| == 15 && a <= b
    ensures |r| == b - a
  {
    seq<byte>(b - a, k requires 0 <= k < b - a => StandardByte(v, pointers, a + k))
  }

  /**
   On a volume of 1 KiB blocks, reading [offset, offset + count) of a file returns exactly the
   bytes the file has there, cut off at its end, if the read starts on a block boundary (or is one
   short read, see OneReadRight) and none of the blocks it touches is a hole.
   */
  lemma ReadInodeIsFile(v: Volume, pointers: seq<nat>, size: nat, offset: nat, count: nat)
    requires Standard(v) && |pointers| == 15
    requires var end := Min(size, offset + count);
             && offset < end
             && (Mod(offset, v.blockSize) == 0 || OneReadRight(v.blockSize, offset, end - offset))
             && forall i: nat :: Div(offset, v.blockSize) <= i <= Div(end - 1, v.blockSize) ==> SolidBlock(v, pointers, i)
    ensures var end := Min(size, offset + count);
            ReadLoop(v, BlockMap(v, pointers, Div(end - 1, v.blockSize) + 1), offset, end) ==
            StandardFile(v, pointers, offset, end)
  {
    hide Times, Div, Mod, NthBlock, SolidBlock, Capacity, ReadLoop, OneReadRight, FileByte, StandardByte;
    var end := Min(size, offset + count);
    var blocks := Div(end - 1, v.blockSize) + 1;
    var locs := BlockMap(v, pointers, blocks);
    SolidMapped(v, pointers, Div(offset, v.blockSize), blocks);
    if Mod(offset, v.blockSize) == 0 {
      ReadLoopAligned(v, locs, offset, end);
    } else {
      ReadLoopOnce(v, locs, offset, end);
    }
    forall k | 0 <= k < end - offset
      ensures FileSlice(v, locs, offset, end)[k] == StandardFile(v, pointers, offset, end)[k]
    {
      DivMonotone(offset, offset + k, v.blockSize);
      DivMonotone(offset + k, end - 1, v.blockSize);
      FileByteIsStandard(v, pointers, blocks, offset + k);
    }
  }

  /** A hole is read from the first bytes of the disk; that is right exactly when they are zero. */
  lemma HoleIff(v: Volume, pointers: seq<nat>, i: nat, size: nat)
    requires Standard(v) && |pointers| == 15 && 0 < size <= v.blockSize <= |v.image|
    requires NthBlock(v, pointers, i) == 0
    ensures var locs := BlockMap(v, pointers, i + 1);
            ReadLoop(v, locs, Times(i, v.blockSize), Times(i, v.blockSize) + size) == seq<byte>(size, _ => 0)
            <==> forall k :: 0 <= k < size ==> v.image[k] == 0
  {
    hide Times, Div, Mod, NthBlock, ReadLoop, Fetch;
    var locs, curr := BlockMap(v, pointers, i + 1), Times(i, v.blockSize);
    Digit(i, 0, v.blockSize);
    ReadLoopStep(v, locs, curr, curr + size);
    ReadLoopStep(v, locs, curr + size, curr + size);
    FetchSlice(v, 0, size);
    assert Div(curr, v.blockSize) == i && Mod(curr, v.blockSize) == 0 && Loc(locs, i) == 0;
    var zero, read := seq<byte>(size, _ => 0), ReadLoop(v, locs, curr, curr + size);
    assert read == v.image[0..size];
    assert forall k :: 0 <= k < size ==> read[k] == v.image[k];
    assert read == zero <==> forall k :: 0 <= k < size ==> read[k] == zero[k];
  }

  /** In group 0 the driver's inode is the one the standard puts there. */
  lemma InodeIsStandard(v: Volume, sb: Super, inode: nat)
    requires Standard(v) && sb.Good() && 1 <= inode <= sb.inodesPerGroup
    requires v.start + 1024 + 32 <= |v.image|
    requires var table := Le32(v.image, v.start + 1024 + 8);
             table > 0 && StandardPlace(v, table) + Times(inode, sb.inodeSize) <= |v.image|
    ensures var table := Le32(v.image, v.start + 1024 + 8);
            var at := StandardPlace(v, table) + Times(inode - 1, sb.inodeSize);
            at + sb.inodeSize <= |v.image| && InodeBytes(v, sb, inode) == v.image[at..at + sb.inodeSize]
  {
    hide Fetch, Le32, Times, Div, Mod, StandardPlace;
    var d := v.start + 1024;
    FirstGroup(inode - 1, sb.inodesPerGroup);
    FetchSlice(v, d, DESCRIPTOR_SIZE);
    SliceLe32(v.image, d, d + DESCRIPTOR_SIZE, 8);
    var table := Le32(v.image, d + 8);
    Le32Small(v.image, d + 8);
    PlaceAligned(v, table);
    PlaceTimes(v, table);
    InodeFetch(v, StandardPlace(v, table), inode - 1, sb.inodeSize);
  }

  lemma FirstGroup(i: nat, n: nat)
    requires i < n
    ensures Div(i, n) == 0 && Mod(i, n) == i
  {
    Digit(0, i, n);
  }

  lemma PlaceTimes(v: Volume, n: nat)
    requires n > 0
    ensures Place(v, n) == v.start + Times(n - 1, v.blockSize)
  {}

  lemma Le32Small(b: seq<byte>, at: nat)
    requires at + 4 <= |b|
    ensures Le32(b, at) < WORD_32
  {}

  lemma InodeFetch(v: Volume, place: nat, i: nat, size: nat)
    requires v.Good() && place % SECTOR == 0 && |v.image| % SECTOR == 0 && size in {128, 256, 512}
    requires place + Times(i + 1, size) <= |v.image|
    ensures place + Times(i, size) + size <= |v.image|
    ensures Fetch(v, place + Times(i, size), size) == v.image[place + Times(i, size)..place + Times(i, size) + size]
  {
    hide Times, Base, Sectors, ReadDisk;
    var at := place + Times(i, size);
    InodeInSector(place, i, size);
    InodeInRange(v, at, size);
    ReadCovered(v.image, at, size, v.beyond);
  }

  /** An inode never crosses a sector. */
  lemma InodeInSector(place: nat, i: nat, size: nat)
    requires place % SECTOR == 0 && size in {128, 256, 512}
    ensures (place + Times(i, size)) % SECTOR + size <= SECTOR
    ensures Times(i + 1, size) == Times(i, size) + size
  {
    var p := place / SECTOR;
    if size == 128 {
      Align.DivModUnique(place + i * 128, 512, p + i / 4, (i % 4) * 128);
    } else if size == 256 {
      Align.DivModUnique(place + i * 256, 512, p + i / 2, (i % 2) * 256);
    } else {
      Align.DivModUnique(place + i * 512, 512, p + i, 0);
    }
  }

  lemma InodeInRange(v: Volume, at: nat, size: nat)
    requires |v.image| % SECTOR == 0 && size in {128, 256, 512} && at + size <= |v.image|
    requires at % SECTOR + size <= SECTOR
    ensures InRange(v.image, at, size) && Covered(at, size)
  {
    BaseSplit(at);
    assert Sectors(size) == 1;
  }

  // ---------------------------------------------------------------- ext2_read_inode

  /** The bytes of an inode of group 0, where the standard puts them. */
  function StandardInode(v: Volume, sb: Super, inode: nat): (b: seq<byte>)
    requires HasInode(v, sb, inode)
    ensures |b| == sb.inodeSize
  {
    var at := StandardPlace(v, StandardTable(v, 0)) + Times(inode - 1, sb.inodeSize);
    TimesStep(inode - 1, sb.inodeSize);
    v.image[at..at + sb.inodeSize]
  }

  lemma TimesStep(i: nat, size: nat)
    ensures Times(i + 1, size) == Times(i, size) + size
  {}

  /** A standard volume whose group 0 holds the inode. */
  predicate HasInode(v: Volume, sb: Super, inode: nat) {
    && HasGroup(v, 0) && sb.Good() && 1 <= inode <= sb.inodesPerGroup
    && StandardTable(v, 0) > 0 && StandardPlace(v, StandardTable(v, 0)) + Times(inode, sb.inodeSize) <= |v.image|
  }

  /** Where a read ends: at the end of the file, or sooner. */
  function End(length: nat, offset: nat, count: nat): nat { Min(length, offset + count) }

  /** The standard's inode number `inode` holds the fields r. */
  predicate InodeHolds(v: Volume, sb: Super, inode: nat, r: Inode) {
    HasInode(v, sb, inode) && Fits(r) && StandardInode(v, sb, inode)[..128] == Encode(r)
  }

  /** The read is one the driver gets right: block aligned or one short read, and no hole among its blocks. */
  predicate Readable(v: Volume, r: Inode, offset: nat, count: nat)
    requires Standard(v) && |r.block| == 15
  {
    var end := End(Length(r), offset, count);
    offset < end ==>
      && (Mod(offset, v.blockSize) == 0 || OneReadRight(v.blockSize, offset, end - offset))
      && forall i: nat :: Div(offset, v.blockSize) <= i <= Div(end - 1, v.blockSize) ==> SolidBlock(v, r.block, i)
  }

  /** n bytes, and exactly those the file of inode r has in [offset, offset + count). */
  ghost predicate Delivers(v: Volume, r: Inode, offset: nat, count: nat, n: nat, out: seq<byte>)
    requires Standard(v) && |r.block| == 15
  {
    var end := End(Length(r), offset, count);
    if offset < end then n == end - offset && out == StandardFile(v, r.block, offset, end) else n == 0 && out == []
  }

  /** Whatever fields the inode holds: a read that the driver gets right delivers the file. */
  ghost predicate ReadsRight(v: Volume, sb: Super, inode: nat, offset: nat, count: nat, n: nat, out: seq<byte>) {
    forall r: Inode :: InodeHolds(v, sb, inode, r) && Readable(v, r, offset, count) ==> Delivers(v, r, offset, count, n, out)
  }

  /**
   ext2_read_inode.  On a standard volume it returns the number of bytes the file has in
   [offset, offset + count), and exactly those bytes.
   */
  method ReadInode(v: Volume, sb: Super, inode: nat, offset: nat, count: nat) returns (n: nat, out: seq<byte>)
    requires v.Good() && sb.Good() && inode >= 1 && offset + count < WORD_64
    requires End(FileSize(InodeBytes(v, sb, inode)), offset, count) > 0
    ensures var b := InodeBytes(v, sb, inode);
            var end := End(FileSize(b), offset, count);
            n == |out| && out == ReadLoop(v, BlockMap(v, Pointers(b), Div(end - 1, v.blockSize) + 1), offset, end)
    ensures ReadsRight(v, sb, inode, offset, count, n, out)
  {
    hide Div, Mod, Fetch, NthBlock, InodeBytes, ReadLoop, FileSize, Pointers, ReadsRight;
    var b := InodeBytes(v, sb, inode);
    var curr := offset;
    var endOffset := End(FileSize(b), offset, count) - 1;
    ghost var locs := BlockMap(v, Pointers(b), Div(endOffset, v.blockSize) + 1);
    out := [];
    while curr <= endOffset
      invariant offset <= curr && |out| == curr - offset
      invariant curr > endOffset + 1 ==> curr == offset
      invariant ReadLoop(v, locs, offset, endOffset + 1) == out + ReadLoop(v, locs, curr, endOffset + 1)
      decreases endOffset + 1 - curr
    {
      DivMonotone(curr, endOffset, v.blockSize);
      ReadLoopStep(v, locs, curr, endOffset + 1);
      var readStart := NthBlock(v, Pointers(b), Div(curr, v.blockSize)) + Mod(curr, v.blockSize);
      var readSize := Min(v.blockSize, endOffset - curr + 1);
      assert Loc(locs, Div(curr, v.blockSize)) == NthBlock(v, Pointers(b), Div(curr, v.blockSize));
      Associative(out, Fetch(v, readStart, readSize), ReadLoop(v, locs, curr + readSize, endOffset + 1));
      out := out + Fetch(v, readStart, readSize);
      curr := curr + readSize;
    }
    ReadLoopStep(v, locs, curr, endOffset + 1);
    n := curr - offset;
    ReadIsRight(v, sb, inode, offset, count, out);
  }

  lemma ReadIsRight(v: Volume, sb: Super, inode: nat, offset: nat, count: nat, out: seq<byte>)
    requires v.Good() && sb.Good() && inode >= 1
    requires var b := InodeBytes(v, sb, inode);
             var end := End(FileSize(b), offset, count);
             end > 0 && out == ReadLoop(v, BlockMap(v, Pointers(b), Div(end - 1, v.blockSize) + 1), offset, end)
    ensures ReadsRight(v, sb, inode, offset, count, |out|, out)
  {
    hide Div, Mod, NthBlock, InodeBytes, ReadLoop, FileSize, Pointers, Readable, Delivers;
    forall r: Inode | InodeHolds(v, sb, inode, r) && Readable(v, r, offset, count)
      ensures Delivers(v, r, offset, count, |out|, out)
    {
      ReadIsFile(v, sb, inode, r, offset, count, out);
    }
  }

  /** From the inode number to the bytes of the file. */
  lemma ReadIsFile(v: Volume, sb: Super, inode: nat, r: Inode, offset: nat, count: nat, out: seq<byte>)
    requires InodeHolds(v, sb, inode, r) && Readable(v, r, offset, count)
    requires var b := InodeBytes(v, sb, inode);
             var end := End(FileSize(b), offset, count);
             end > 0 && out == ReadLoop(v, BlockMap(v, Pointers(b), Div(end - 1, v.blockSize) + 1), offset, end)
    ensures Delivers(v, r, offset, count, |out|, out)
  {
    hide Div, Mod, NthBlock, InodeBytes, ReadLoop, FileSize, Pointers, StandardFile, SolidBlock, OneReadRight, Encode;
    var b := StandardInode(v, sb, inode);
    InodeIsStandard(v, sb, inode);
    Decodes(r, b);
    var end := End(Length(r), offset, count);
    if offset < end {
      ReadInodeIsFile(v, r.block, Length(r), offset, count);
    } else {
      ReadLoopStep(v, BlockMap(v, r.block, Div(end - 1, v.blockSize) + 1), offset, end);
    }
  }

  /** Where the driver looks for the descriptor of a group: 18 bytes apart. */
  lemma DescriptorAt(v: Volume, group: nat)
    requires Standard(v) && InRange(v.image, Descriptors(v) + 18 * group, 18) && Covered(Descriptors(v) + 18 * group, 18)
    ensures Descriptors(v) + 18 * group + 12 <= |v.image|
    ensures InodeTable(v, group) == Le32(v.image, Descriptors(v) + 18 * group + 8)
  {
    hide Le32, Base, Sectors, ReadDisk;
    var d := Descriptors(v) + 18 * group;
    ReadCovered(v.image, d, 18, v.beyond);
    SliceLe32(v.image, d, d + 18, 8);
  }
}
