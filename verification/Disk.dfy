/**
 Byte-addressed disk access on top of whole sectors, through a temporary buffer.
 */
module Disk {
  import opened Ahci
  import opened Common

  /** Sectors a call touches, and the temporary buffer's length. */
  function Sectors(size: nat): nat { UpperDivide(size, SECTOR) }

  function Base(offset: nat): nat { offset / SECTOR * SECTOR }

  predicate InRange(image: seq<byte>, offset: nat, size: nat) {
    Base(offset) + Sectors(size) * SECTOR <= |image|
  }

  /**
   read_disk: size/512 sectors, rounded up, are read from the sector of `offset`, and `size` bytes
   copied from the place of `offset` in them.  `beyond` is what lies in memory after the buffer.
   */
  function ReadDisk(image: seq<byte>, offset: nat, size: nat, beyond: seq<byte>): (r: seq<byte>)
    requires InRange(image, offset, size) && |beyond| >= SECTOR
    ensures |r| == size
  {
    var n := Sectors(size) * SECTOR;
    var temp := image[Base(offset)..Base(offset) + n] + beyond;
    temp[offset % SECTOR..offset % SECTOR + size]
  }

  /**
   write_disk: the sectors are read, the data copied over the buffer at offset_sectors * 512 -
   offset, and written back.  `before` is what lies in memory before the buffer.
   */
  function WriteDisk(image: seq<byte>, offset: nat, data: seq<byte>, before: seq<byte>): (r: seq<byte>)
    requires InRange(image, offset, |data|) && |before| == SECTOR
    ensures |r| == |image|
  {
    var n := Sectors(|data|) * SECTOR;
    var buffer := before + image[Base(offset)..Base(offset) + n];
    var patched := Spliced(buffer, SECTOR - offset % SECTOR, data);
    Spliced(image, Base(offset), patched[SECTOR..])
  }

  /** The bytes read are all inside the temporary buffer. */
  predicate Covered(offset: nat, size: nat) {
    offset % SECTOR + size <= Sectors(size) * SECTOR
  }

  lemma SectorsCover(size: nat)
    ensures size <= Sectors(size) * SECTOR < size + SECTOR
  {}

  lemma BaseSplit(offset: nat)
    ensures offset == Base(offset) + offset % SECTOR
  {}

  /** Byte k of a read: from the disk inside the buffer, from memory behind it. */
  lemma ReadByte(image: seq<byte>, offset: nat, size: nat, beyond: seq<byte>, k: nat)
    requires InRange(image, offset, size) && |beyond| >= SECTOR && k < size
    ensures var n, at := Sectors(size) * SECTOR, offset % SECTOR + k;
            if at < n then offset + k < |image| && ReadDisk(image, offset, size, beyond)[k] == image[offset + k]
            else at - n < |beyond| && ReadDisk(image, offset, size, beyond)[k] == beyond[at - n]
  {
    hide Base, Sectors;
    BaseSplit(offset);
    SectorsCover(size);
    var n := Sectors(size) * SECTOR;
    var temp := image[Base(offset)..Base(offset) + n] + beyond;
    assert ReadDisk(image, offset, size, beyond)[k] == temp[offset % SECTOR + k];
  }

  /** A covered read is right whatever lies behind the buffer. */
  lemma ReadCovered(image: seq<byte>, offset: nat, size: nat, beyond: seq<byte>)
    requires InRange(image, offset, size) && |beyond| >= SECTOR && Covered(offset, size)
    ensures offset + size <= |image|
    ensures ReadDisk(image, offset, size, beyond) == image[offset..offset + size]
  {
    hide Base, Sectors, ReadDisk;
    BaseSplit(offset);
    forall k | 0 <= k < size
      ensures ReadDisk(image, offset, size, beyond)[k] == image[offset..offset + size][k]
    {
      ReadByte(image, offset, size, beyond, k);
    }
  }

  /** read_disk gives the bytes asked for, whatever lies behind its buffer, exactly when it is covered. */
  lemma ReadDiskIff(image: seq<byte>, offset: nat, size: nat)
    requires size > 0 && InRange(image, offset, size) && offset + size <= |image|
    ensures (forall beyond: seq<byte> :: |beyond| >= SECTOR ==>
               ReadDisk(image, offset, size, beyond) == image[offset..offset + size]) <==> Covered(offset, size)
  {
    if Covered(offset, size) {
      forall beyond: seq<byte> | |beyond| >= SECTOR
        ensures ReadDisk(image, offset, size, beyond) == image[offset..offset + size]
      {
        ReadCovered(image, offset, size, beyond);
      }
    } else {
      BaseSplit(offset);
      SectorsCover(size);
      var last := image[offset + size - 1];
      var wrong: byte := if last == 0 then 1 else 0;
      var beyond := seq(SECTOR, _ => wrong);
      ReadByte(image, offset, size, beyond, size - 1);
      assert ReadDisk(image, offset, size, beyond)[size - 1] == wrong;
    }
  }

  /** On a sector boundary write_disk changes exactly the bytes it is given. */
  lemma WriteAligned(image: seq<byte>, offset: nat, data: seq<byte>, before: seq<byte>)
    requires InRange(image, offset, |data|) && |before| == SECTOR && offset % SECTOR == 0
    ensures offset + |data| <= |image|
    ensures WriteDisk(image, offset, data, before) == Spliced(image, offset, data)
  {
    hide Spliced, Base, Sectors;
    BaseSplit(offset);
    SectorsCover(|data|);
    var r := WriteDisk(image, offset, data, before);
    forall i | 0 <= i < |image| ensures r[i] == Spliced(image, offset, data)[i] {}
  }

  /** write_disk writes right on every disk exactly when the offset is on a sector boundary. */
  lemma WriteDiskIff(offset: nat, size: nat)
    requires size > 0
    ensures (forall image: seq<byte>, data: seq<byte>, before: seq<byte> ::
               InRange(image, offset, size) && offset + size <= |image| && |data| == size && |before| == SECTOR ==>
                 WriteDisk(image, offset, data, before) == Spliced(image, offset, data))
            <==> offset % SECTOR == 0
  {
    if offset % SECTOR == 0 {
      forall image: seq<byte>, data: seq<byte>, before: seq<byte> |
        InRange(image, offset, size) && offset + size <= |image| && |data| == size && |before| == SECTOR
        ensures WriteDisk(image, offset, data, before) == Spliced(image, offset, data)
      {
        WriteAligned(image, offset, data, before);
      }
    } else {
      BaseSplit(offset);
      SectorsCover(size);
      var image: seq<byte> := seq(Base(offset) + Sectors(size) * SECTOR + SECTOR, _ => 0);
      var data: seq<byte> := seq(size, _ => 1);
      var before: seq<byte> := seq(SECTOR, _ => 0);
      var last := offset + size - 1;
      assert Spliced(image, offset, data)[last] == 1;
      assert WriteDisk(image, offset, data, before)[last] == 0;
    }
  }

  /** What was written on a sector boundary is what is read back. */
  lemma WriteThenRead(image: seq<byte>, offset: nat, data: seq<byte>, before: seq<byte>, beyond: seq<byte>)
    requires InRange(image, offset, |data|) && |before| == SECTOR && |beyond| >= SECTOR && offset % SECTOR == 0
    ensures ReadDisk(WriteDisk(image, offset, data, before), offset, |data|, beyond) == data
  {
    WriteAligned(image, offset, data, before);
    SectorsCover(|data|);
    ReadCovered(WriteDisk(image, offset, data, before), offset, |data|, beyond);
  }

  // ---------------------------------------------------------------- the drive

  /**
   One command can do it: the table's entries fit, and the first sector has a 48-bit number.  By
   BuildPrdt and LbaRoundTrip no other command can.
   */
  predicate Transferable(lba: nat, count: nat) { count <= 128 && lba < 0x1_0000_0000_0000 }

  class Drive {
    var image: seq<byte>

    /** read_ahci into a buffer: a PRDT is built and the controller follows it, from the sector it was told. */
    method ReadSectors(lba: nat, count: nat, buffer: seq<byte>) returns (filled: seq<byte>)
      requires 0 < count && (lba + count) * SECTOR <= |image| && |buffer| == count * SECTOR
      requires Transferable(lba, count)
      ensures filled == image[lba * SECTOR..(lba + count) * SECTOR]
    {
      LbaRoundTrip(lba);
      var named := FromLbaBytes(LbaBytes(lba));
      var data := image[named * SECTOR..(named + count) * SECTOR];
      var t := BuildPrdt(0, count);
      assert |t| <= TABLE_ENTRIES;
      TilesTotal(t, 0, count * SECTOR, buffer);
      ScatterIsCopy(buffer, t, 0, data);
      filled := Scatter(buffer, t, data);
    }

    /** write_ahci of a buffer. */
    method WriteSectors(lba: nat, count: nat, buffer: seq<byte>)
      requires 0 < count && (lba + count) * SECTOR <= |image| && |buffer| == count * SECTOR
      requires Transferable(lba, count)
      modifies this
      ensures image == Spliced(old(image), lba * SECTOR, buffer)
    {
      LbaRoundTrip(lba);
      var named := FromLbaBytes(LbaBytes(lba));
      var t := BuildPrdt(0, count);
      assert |t| <= TABLE_ENTRIES;
      TilesTotal(t, 0, count * SECTOR, buffer);
      GatherIsCopy(buffer, t, 0, count * SECTOR);
      image := Spliced(image, named * SECTOR, Gather(buffer, t));
    }

    /** read_disk; `heap` is the buffer's old contents, `beyond` what lies behind it. */
    method Read(offset: nat, size: nat, heap: seq<byte>, beyond: seq<byte>) returns (out: seq<byte>)
      requires size > 0 && InRange(image, offset, size) && Transferable(offset / SECTOR, Sectors(size))
      requires |heap| == Sectors(size) * SECTOR && |beyond| >= SECTOR
      ensures out == ReadDisk(image, offset, size, beyond)
    {
      var temp := ReadSectors(offset / SECTOR, Sectors(size), heap);
      out := (temp + beyond)[offset % SECTOR..offset % SECTOR + size];
    }

    /** write_disk; `heap` is the buffer's old contents, `before` what lies in front of it. */
    method Write(offset: nat, data: seq<byte>, heap: seq<byte>, before: seq<byte>)
      requires |data| > 0 && InRange(image, offset, |data|) && Transferable(offset / SECTOR, Sectors(|data|))
      requires |heap| == Sectors(|data|) * SECTOR && |before| == SECTOR
      modifies this
      ensures image == WriteDisk(old(image), offset, data, before)
    {
      var temp := ReadSectors(offset / SECTOR, Sectors(|data|), heap);
      var buffer := Spliced(before + temp, SECTOR - offset % SECTOR, data);
      WriteSectors(offset / SECTOR, Sectors(|data|), buffer[SECTOR..]);
    }
  }
}
