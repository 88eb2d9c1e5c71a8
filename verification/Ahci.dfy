/**
 AHCI transfers: the physical region descriptor table (PRDT) that read_ahci and write_ahci
 build for a buffer, and what a controller that follows it does to memory.
 */
module Ahci {
  import opened Common

  const SECTOR := 512
  const PER_ENTRY := 8192      // PRDT_READ_SIZE_PER_ENTRY, 16 sectors
  const TABLE_ENTRIES := 8     // entries that fit a 256-byte command table

  /** dba is the address of a region; dbc is its length in bytes minus one. */
  datatype Prd = Prd(dba: nat, dbc: nat)

  function UpperDivide(n: nat, d: nat): nat
    requires d > 0
  {
    (n + d - 1) / d
  }

  // ---------------------------------------------------------------- the controller

  /** Bytes described by the table. */
  function Total(t: seq<Prd>): nat {
    if t == [] then 0 else t[0].dbc + 1 + Total(t[1..])
  }

  predicate InMemory(m: seq<byte>, t: seq<Prd>) {
    forall i :: 0 <= i < |t| ==> t[i].dba + t[i].dbc + 1 <= |m|
  }

  /** Device to memory: the regions are filled one after the other. */
  function Scatter(m: seq<byte>, t: seq<Prd>, data: seq<byte>): (r: seq<byte>)
    requires InMemory(m, t) && |data| == Total(t)
    ensures |r| == |m|
    decreases t
  {
    if t == [] then m
    else
      var n := t[0].dbc + 1;
      Scatter(Spliced(m, t[0].dba, data[..n]), t[1..], data[n..])
  }

  /** Memory to device: the regions are sent one after the other. */
  function Gather(m: seq<byte>, t: seq<Prd>): seq<byte>
    requires InMemory(m, t)
  {
    if t == [] then [] else m[t[0].dba..t[0].dba + t[0].dbc + 1] + Gather(m, t[1..])
  }

  // ---------------------------------------------------------------- building the table

  /** The first entry is at `at`, each next one starts where the one before it ends, and they hold `bytes`. */
  predicate TilesFrom(t: seq<Prd>, at: nat, bytes: nat) {
    if t == [] then bytes == 0
    else t[0].dba == at && t[0].dbc < bytes && TilesFrom(t[1..], at + t[0].dbc + 1, bytes - t[0].dbc - 1)
  }

  /**
   The loop of read_ahci and write_ahci.  The entries cover exactly the count sectors at buf, in
   order and without gap; each byte count fits its 22 bits; there is one entry per 16 sectors.
   */
  method BuildPrdt(buf: nat, count: nat) returns (t: seq<Prd>)
    requires count > 0
    ensures |t| == UpperDivide(count, 16)
    ensures TilesFrom(t, buf, count * SECTOR)
    ensures forall i :: 0 <= i < |t| ==> t[i].dbc < 0x40_0000
    ensures |t| <= TABLE_ENTRIES <==> count <= 128
  {
    var prdtl := UpperDivide(count, PER_ENTRY / SECTOR);
    var at, left := buf, count;
    t := [];
    var i := 0;
    while i < prdtl - 1
      invariant 0 <= i <= prdtl - 1 && |t| == i
      invariant at == buf + i * PER_ENTRY && left == count - i * 16 && left > 0
      invariant forall j :: 0 <= j < i ==> t[j] == Prd(buf + j * PER_ENTRY, PER_ENTRY - 1)
    {
      t := t + [Prd(at, PER_ENTRY - 1)];
      at := at + PER_ENTRY;
      left := left - PER_ENTRY / SECTOR;
      i := i + 1;
    }
    t := t + [Prd(at, left * 512 - 1)];
    FullTiles(t, 0, buf, count);
    assert t[0..] == t;
  }

  /** All entries but the last are full: they tile. */
  lemma {:induction false} FullTiles(t: seq<Prd>, i: nat, buf: nat, count: nat)
    requires i < |t| && (|t| - 1) * 16 < count <= |t| * 16
    requires forall j :: i <= j < |t| - 1 ==> t[j] == Prd(buf + j * PER_ENTRY, PER_ENTRY - 1)
    requires t[|t| - 1] == Prd(buf + (|t| - 1) * PER_ENTRY, (count - (|t| - 1) * 16) * SECTOR - 1)
    ensures TilesFrom(t[i..], buf + i * PER_ENTRY, count * SECTOR - i * PER_ENTRY)
    decreases |t| - i
  {
    assert t[i..][1..] == t[i + 1..];
    if i < |t| - 1 {
      FullTiles(t, i + 1, buf, count);
    } else {
      assert t[i + 1..] == [];
    }
  }

  // ---------------------------------------------------------------- the transfer is one copy

  lemma {:induction false} TilesTotal(t: seq<Prd>, at: nat, bytes: nat, m: seq<byte>)
    requires TilesFrom(t, at, bytes) && at + bytes <= |m|
    ensures Total(t) == bytes && InMemory(m, t)
    decreases t
  {
    if t != [] {
      TilesTotal(t[1..], at + t[0].dbc + 1, bytes - t[0].dbc - 1, m);
      forall i | 0 <= i < |t| ensures t[i].dba + t[i].dbc + 1 <= |m| {
        if i > 0 { assert t[i] == t[1..][i - 1]; }
      }
    }
  }

  /** Copying a prefix and then the rest is copying the whole. */
  lemma SplicedTwice(m: seq<byte>, at: nat, data: seq<byte>, n: nat)
    requires at + |data| <= |m| && n <= |data|
    ensures Spliced(Spliced(m, at, data[..n]), at + n, data[n..]) == Spliced(m, at, data)
  {
    hide Spliced;
    var r := Spliced(Spliced(m, at, data[..n]), at + n, data[n..]);
    forall i | 0 <= i < |m| ensures r[i] == Spliced(m, at, data)[i] {}
  }

  /** Through a tiling table, reading a disk is one contiguous copy into the buffer. */
  lemma {:induction false} ScatterIsCopy(m: seq<byte>, t: seq<Prd>, at: nat, data: seq<byte>)
    requires TilesFrom(t, at, |data|) && at + |data| <= |m|
    requires InMemory(m, t) && Total(t) == |data|
    ensures Scatter(m, t, data) == Spliced(m, at, data)
    decreases t
  {
    hide Spliced;
    if t == [] {
      assert Spliced(m, at, data) == m;
    } else {
      var n := t[0].dbc + 1;
      var m1 := Spliced(m, at, data[..n]);
      SplicedTwice(m, at, data, n);
      TilesTotal(t[1..], at + n, |data| - n, m1);
      ScatterIsCopy(m1, t[1..], at + n, data[n..]);
    }
  }

  /** Through a tiling table, writing a disk sends the buffer's bytes in order. */
  lemma {:induction false} GatherIsCopy(m: seq<byte>, t: seq<Prd>, at: nat, bytes: nat)
    requires TilesFrom(t, at, bytes) && at + bytes <= |m| && InMemory(m, t)
    ensures Gather(m, t) == m[at..at + bytes]
    decreases t
  {
    if t != [] {
      var n := t[0].dbc + 1;
      TilesTotal(t[1..], at + n, bytes - n, m);
      GatherIsCopy(m, t[1..], at + n, bytes - n);
      assert m[at..at + n] + m[at + n..at + bytes] == m[at..at + bytes];
    }
  }

  // ---------------------------------------------------------------- the LBA fields

  /** lba0 .. lba5: six bytes of the start sector. */
  function LbaBytes(start: nat): seq<nat> {
    [start % 256, start / 0x100 % 256, start / 0x1_0000 % 256,
     start / 0x100_0000 % 256, start / 0x1_0000_0000 % 256, start / 0x100_0000_0000 % 256]
  }

  function FromLbaBytes(b: seq<nat>): nat
    requires |b| == 6
  {
    b[0] + 256 * (b[1] + 256 * (b[2] + 256 * (b[3] + 256 * (b[4] + 256 * b[5]))))
  }

  lemma Shifts(x: nat)
    ensures x / 0x1_0000 == x / 256 / 256 && x / 0x100_0000 == x / 256 / 256 / 256
  {}

  /** The command names the right sector exactly when it has a 48-bit number. */
  lemma LbaRoundTrip(start: nat)
    ensures FromLbaBytes(LbaBytes(start)) == start <==> start < 0x1_0000_0000_0000
  {
    var q3 := start / 0x100_0000;
    Shifts(start);
    Shifts(q3);
    assert start / 0x1_0000_0000 == q3 / 256 && start / 0x100_0000_0000 == q3 / 256 / 256;
    var low := start % 256 + 256 * (start / 256 % 256 + 256 * (start / 256 / 256 % 256));
    var high := q3 % 256 + 256 * (q3 / 256 % 256 + 256 * (q3 / 256 / 256 % 256));
    assert start == low + 0x100_0000 * q3;
    assert q3 == high + 0x100_0000 * (q3 / 0x100_0000);
    assert FromLbaBytes(LbaBytes(start)) == low + 0x100_0000 * high;
  }
}
