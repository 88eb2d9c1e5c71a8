/**
 The inode on disk: the fields of an ext2 inode in their order and widths, little-endian, and
 the two things the driver takes from them.
 */
module Ext2Inode {
  import opened Common
  import opened Ext2Blocks

  // ---------------------------------------------------------------- the layout

  /** The fields of an inode, as the ext2 layout lists them. */
  datatype Inode = Inode(
    mode: nat, uid: nat, size: nat, atime: nat, ctime: nat, mtime: nat, dtime: nat, gid: nat, links: nat,
    sectors: nat, flags: nat, osd1: nat, block: seq<nat>, generation: nat, fileAcl: nat, dirAcl: nat,
    faddr: nat, osd2: seq<byte>)

  predicate Word16(x: nat) { x < 0x1_0000 }

  predicate Word32(x: nat) { x < 0x1_0000_0000 }

  /** Every field fits its width. */
  predicate Fits(r: Inode) {
    && Word16(r.mode) && Word16(r.uid) && Word16(r.gid) && Word16(r.links)
    && Word32(r.size) && Word32(r.atime) && Word32(r.ctime) && Word32(r.mtime) && Word32(r.dtime)
    && Word32(r.sectors) && Word32(r.flags) && Word32(r.osd1) && Word32(r.generation)
    && Word32(r.fileAcl) && Word32(r.dirAcl) && Word32(r.faddr)
    && |r.block| == 15 && AllWords(r.block) && |r.osd2| == 12
  }

  predicate AllWords(l: seq<nat>) { forall i :: 0 <= i < |l| ==> Word32(l[i]) }

  function Bytes16(x: nat): (b: seq<byte>)
    ensures |b| == 2
  {
    [x % 256, x / 256 % 256]
  }

  function Bytes32(x: nat): (b: seq<byte>)
    ensures |b| == 4
  {
    [x % 256, x / 256 % 256, x / 0x1_0000 % 256, x / 0x100_0000 % 256]
  }

  function AllBytes(l: seq<nat>): (b: seq<byte>)
    ensures |b| == 4 * |l|
  {
    if l == [] then [] else Bytes32(l[0]) + AllBytes(l[1..])
  }

  /** The bytes of an inode: mode to osd1, the fifteen pointers, and what follows them. */
  function Encode(r: Inode): (b: seq<byte>)
    requires Fits(r)
    ensures |b| == 128
  {
    Front(r) + AllBytes(r.block) + Back(r)
  }

  function Front(r: Inode): (b: seq<byte>)
    ensures |b| == 40
  {
    Bytes16(r.mode) + Bytes16(r.uid) + Bytes32(r.size) + Bytes32(r.atime) + Bytes32(r.ctime) + Bytes32(r.mtime)
    + Bytes32(r.dtime) + Bytes16(r.gid) + Bytes16(r.links) + Bytes32(r.sectors) + Bytes32(r.flags) + Bytes32(r.osd1)
  }

  function Back(r: Inode): (b: seq<byte>)
    requires |r.osd2| == 12
    ensures |b| == 28
  {
    Bytes32(r.generation) + Bytes32(r.fileAcl) + Bytes32(r.dirAcl) + Bytes32(r.faddr) + r.osd2
  }

  /** The length of the file: 64 bits, the upper half in dirAcl. */
  function Length(r: Inode): nat { r.dirAcl * 0x1_0000_0000 + r.size }

  // ---------------------------------------------------------------- what the driver takes

  /** i_block: fifteen 32-bit pointers at byte 40. */
  function Pointers(b: seq<byte>): (r: seq<nat>)
    requires |b| >= 128
    ensures |r| == 15
  {
    seq(15, i requires 0 <= i < 15 => Le32(b, 40 + 4 * i))
  }

  /** ext2_get_inode_size: i_size, and i_dir_acl as its upper half. */
  function FileSize(b: seq<byte>): nat
    requires |b| >= 128
  {
    Le32(b, 108) * WORD_32 + Le32(b, 4)
  }

  // ---------------------------------------------------------------- they are the fields

  lemma Le32Bytes(b: seq<byte>, at: nat, x: nat)
    requires at + 4 <= |b| && b[at..at + 4] == Bytes32(x) && Word32(x)
    ensures Le32(b, at) == x
  {
    var s := b[at..at + 4];
    assert b[at] == s[0] && b[at + 1] == s[1] && b[at + 2] == s[2] && b[at + 3] == s[3];
    Quads(x);
  }

  lemma Quads(x: nat)
    requires Word32(x)
    ensures x == x % 256 + 0x100 * (x / 256 % 256) + 0x1_0000 * (x / 0x1_0000 % 256) + 0x100_0000 * (x / 0x100_0000 % 256)
  {
    var q1, q2, q3 := x / 256, x / 256 / 256, x / 256 / 256 / 256;
    assert x / 0x1_0000 == q2 && x / 0x100_0000 == q3;
    assert x == 256 * q1 + x % 256 && q1 == 256 * q2 + q1 % 256 && q2 == 256 * q3 + q2 % 256;
  }

  lemma {:induction false} AllBytesAt(l: seq<nat>, i: nat)
    requires i < |l|
    ensures AllBytes(l)[4 * i..4 * i + 4] == Bytes32(l[i])
    decreases |l|
  {
    var rest := AllBytes(l[1..]);
    if i == 0 {
      assert AllBytes(l)[0..4] == Bytes32(l[0]);
    } else {
      AllBytesAt(l[1..], i - 1);
      assert AllBytes(l)[4 * i..4 * i + 4] == rest[4 * (i - 1)..4 * (i - 1) + 4];
    }
  }

  lemma FrontSize(r: Inode)
    ensures Front(r)[4..8] == Bytes32(r.size)
  {
    hide Bytes16, Bytes32;
  }

  lemma BackDirAcl(r: Inode)
    requires |r.osd2| == 12
    ensures Back(r)[8..12] == Bytes32(r.dirAcl)
  {
    hide Bytes32;
  }

  lemma Parts(r: Inode, b: seq<byte>)
    requires Fits(r) && |b| >= 128 && b[..128] == Encode(r)
    ensures b[0..40] == Front(r) && b[40..100] == AllBytes(r.block) && b[100..128] == Back(r)
  {
    hide Front, AllBytes, Back;
    assert b[0..40] == b[..128][0..40] && b[40..100] == b[..128][40..100] && b[100..128] == b[..128][100..128];
  }

  /** The driver's pointers and size are the record's, for every inode and whatever follows it on disk. */
  lemma Decodes(r: Inode, b: seq<byte>)
    requires Fits(r) && |b| >= 128 && b[..128] == Encode(r)
    ensures Pointers(b) == r.block && FileSize(b) == Length(r)
  {
    hide Front, AllBytes, Back, Le32, Bytes32, Encode;
    Parts(r, b);
    FrontSize(r);
    BackDirAcl(r);
    assert b[4..8] == b[0..40][4..8] && b[108..112] == b[100..128][8..12];
    Le32Bytes(b, 4, r.size);
    Le32Bytes(b, 108, r.dirAcl);
    forall i | 0 <= i < 15 ensures Le32(b, 40 + 4 * i) == r.block[i] {
      AllBytesAt(r.block, i);
      assert b[40 + 4 * i..40 + 4 * i + 4] == b[40..100][4 * i..4 * i + 4];
      Le32Bytes(b, 40 + 4 * i, r.block[i]);
    }
  }

  // ---------------------------------------------------------------- every inode is a record

  function Le16(b: seq<byte>, at: nat): nat
    requires at + 2 <= |b|
  {
    var lo: int, hi: int := b[at], b[at + 1];
    lo + 256 * hi
  }

  lemma Bytes16Le(b: seq<byte>, at: nat)
    requires at + 2 <= |b|
    ensures Bytes16(Le16(b, at)) == b[at..at + 2] && Word16(Le16(b, at))
  {
    var lo: int, hi: int := b[at], b[at + 1];
    assert (lo + 256 * hi) % 256 == lo && (lo + 256 * hi) / 256 == hi;
  }

  lemma Bytes32Le(b: seq<byte>, at: nat)
    requires at + 4 <= |b|
    ensures Bytes32(Le32(b, at)) == b[at..at + 4] && Word32(Le32(b, at))
  {
    var b0: int, b1: int, b2: int, b3: int := b[at], b[at + 1], b[at + 2], b[at + 3];
    var x := Le32(b, at);
    assert x % 256 == b0 && x / 256 == b1 + 256 * b2 + 0x1_0000 * b3;
    assert x / 256 % 256 == b1 && x / 0x1_0000 == b2 + 256 * b3 && x / 0x100_0000 == b3;
  }

  /** The record that some bytes hold. */
  function Decode(b: seq<byte>): Inode
    requires |b| >= 128
  {
    Inode(Le16(b, 0), Le16(b, 2), Le32(b, 4), Le32(b, 8), Le32(b, 12), Le32(b, 16), Le32(b, 20), Le16(b, 24), Le16(b, 26),
          Le32(b, 28), Le32(b, 32), Le32(b, 36), Pointers(b), Le32(b, 100), Le32(b, 104), Le32(b, 108), Le32(b, 112), b[116..128])
  }

  lemma {:induction false} AllBytesLe(b: seq<byte>, l: seq<nat>, at: nat)
    requires at + 4 * |l| <= |b| && forall i :: 0 <= i < |l| ==> l[i] == Le32(b, at + 4 * i)
    ensures AllBytes(l) == b[at..at + 4 * |l|] && AllWords(l)
    decreases |l|
  {
    hide Le32, Bytes32;
    if l != [] {
      Bytes32Le(b, at);
      forall i | 0 <= i < |l[1..]| ensures l[1..][i] == Le32(b, at + 4 + 4 * i) {
        assert l[1..][i] == l[i + 1] == Le32(b, at + 4 * (i + 1));
      }
      AllBytesLe(b, l[1..], at + 4);
      assert l[0] == Le32(b, at + 4 * 0);
    }
  }

  /** Any 128 bytes are the encoding of one record, so what is said of records is said of every inode. */
  lemma DecodeEncode(b: seq<byte>)
    requires |b| >= 128
    ensures Fits(Decode(b)) && Encode(Decode(b)) == b[..128]
  {
    hide Le32, Le16, Bytes16, Bytes32, Pointers, AllBytes, AllWords, Front, Back;
    DecodeFront(b);
    DecodeBack(b);
    PointersBytes(b);
    assert b[..128] == b[0..40] + b[40..100] + b[100..128];
  }

  lemma PointersBytes(b: seq<byte>)
    requires |b| >= 128
    ensures AllBytes(Pointers(b)) == b[40..100] && AllWords(Pointers(b))
  {
    hide Le32, AllBytes;
    AllBytesLe(b, Pointers(b), 40);
  }

  lemma DecodeFront(b: seq<byte>)
    requires |b| >= 128
    ensures Front(Decode(b)) == b[0..40]
    ensures var r := Decode(b);
            && Word16(r.mode) && Word16(r.uid) && Word16(r.gid) && Word16(r.links)
            && Word32(r.size) && Word32(r.atime) && Word32(r.ctime) && Word32(r.mtime) && Word32(r.dtime)
            && Word32(r.sectors) && Word32(r.flags) && Word32(r.osd1)
  {
    hide Le32, Le16, Bytes16, Bytes32, Pointers;
    Bytes16Le(b, 0);
    Bytes16Le(b, 2);
    Bytes32Le(b, 4);
    Bytes32Le(b, 8);
    Bytes32Le(b, 12);
    Bytes32Le(b, 16);
    Bytes32Le(b, 20);
    Bytes16Le(b, 24);
    Bytes16Le(b, 26);
    Bytes32Le(b, 28);
    Bytes32Le(b, 32);
    Bytes32Le(b, 36);
    assert b[0..8] == b[0..2] + b[2..4] + b[4..8];
    assert b[0..20] == b[0..8] + b[8..12] + b[12..16] + b[16..20];
    assert b[0..28] == b[0..20] + b[20..24] + b[24..26] + b[26..28];
    assert b[0..40] == b[0..28] + b[28..32] + b[32..36] + b[36..40];
  }

  lemma DecodeBack(b: seq<byte>)
    requires |b| >= 128
    ensures Back(Decode(b)) == b[100..128]
    ensures var r := Decode(b); Word32(r.generation) && Word32(r.fileAcl) && Word32(r.dirAcl) && Word32(r.faddr)
  {
    hide Le32, Le16, Bytes32, Pointers;
    Bytes32Le(b, 100);
    Bytes32Le(b, 104);
    Bytes32Le(b, 108);
    Bytes32Le(b, 112);
    assert b[100..128] == b[100..104] + b[104..108] + b[108..112] + b[112..116] + b[116..128];
  }
}
