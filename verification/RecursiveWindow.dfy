/**
 The recursive window: page tables are reached only through virtual addresses whose walk
 passes entry 511.  The methods here load and store through such addresses, as the source
 does, and are proved to do to memory what the functions of `Paging` do to a tree.
 */
module RecursiveWindow {
  import opened Common
  import opened Paging
  import Align

  const BIT_12 := 0x1000
  const BIT_21 := 0x20_0000
  const BIT_30 := 0x4000_0000
  const BIT_39 := 0x80_0000_0000
  const BIT_47 := 0x8000_0000_0000
  const BIT_48 := 0x1_0000_0000_0000

  /** The page an address lies in: bits 39-47, 30-38, 21-29 and 12-20. */
  function PageOf(va: nat): Page {
    Page((va / BIT_39) % 512, (va / BIT_30) % 512, (va / BIT_21) % 512, (va / BIT_12) % 512)
  }

  /** The 64-bit word of its page an address lies in. */
  function WordOf(va: nat): Index { (va % 4096) / 8 }

  predicate Canonical(va: nat) { va < BIT_47 || WORD_64 - BIT_47 <= va < WORD_64 }

  /** get_addr_from_table_indexes: four 9-bit fields, bit 47 copied into bits 48-63. */
  function AddrFromIndexes(i4: nat, i3: nat, i2: nat, i1: nat): (va: nat) {
    var a := (i4 % 512) * BIT_39 + (i3 % 512) * BIT_30 + (i2 % 512) * BIT_21 + (i1 % 512) * BIT_12;
    if (a / BIT_47) % 2 == 1 then a + 0xFFFF * BIT_48 else a
  }

  /** The same page, read off the page number one 9-bit field at a time. */
  function PageOfNumber(n: nat): Page {
    Page((n / 512 / 512 / 512) % 512, (n / 512 / 512) % 512, (n / 512) % 512, n % 512)
  }

  lemma PageOfIsPageOfNumber(va: nat)
    ensures PageOf(va) == PageOfNumber(va / 4096)
  {
    var n := va / 4096;
    assert va / BIT_21 == n / 512;
    assert va / BIT_30 == n / 512 / 512;
    assert va / BIT_39 == n / 512 / 512 / 512;
  }

  lemma NumberFields(high: nat, p: Page)
    ensures PageOfNumber((((high * 512 + p.i4) * 512 + p.i3) * 512 + p.i2) * 512 + p.i1) == p
  {
    var n3 := high * 512 + p.i4;
    var n2 := n3 * 512 + p.i3;
    var n1 := n2 * 512 + p.i2;
    var n := n1 * 512 + p.i1;
    assert n / 512 == n1 && n % 512 == p.i1;
    assert n1 / 512 == n2 && n1 % 512 == p.i2;
    assert n2 / 512 == n3 && n2 % 512 == p.i3;
    assert n3 % 512 == p.i4;
  }

  /** The page number of an address built from p: p's four fields below the sign extension. */
  function BuiltNumber(p: Page): nat {
    var high := if p.i4 < 256 then 0 else 0xFFFF;
    (((high * 512 + p.i4) * 512 + p.i3) * 512 + p.i2) * 512 + p.i1
  }

  lemma AddrIsNumber(p: Page)
    ensures AddrFromIndexes(p.i4, p.i3, p.i2, p.i1) == BuiltNumber(p) * 4096
  {
    var rest := p.i3 * BIT_30 + p.i2 * BIT_21 + p.i1 * BIT_12;
    TopBit(p.i4, rest);
    SmallFields(p);
  }

  lemma TopBit(i4: Index, rest: nat)
    requires rest < BIT_39
    ensures ((i4 * BIT_39 + rest) / BIT_47) % 2 == 1 <==> i4 >= 256
  {
    var a := i4 * BIT_39 + rest;
    Align.DivModUnique(a, BIT_47, if i4 >= 256 then 1 else 0, if i4 >= 256 then a - BIT_47 else a);
  }

  lemma SmallFields(p: Page)
    ensures p.i4 % 512 == p.i4 && p.i3 % 512 == p.i3 && p.i2 % 512 == p.i2 && p.i1 % 512 == p.i1
  {}

  /** Address construction is inverted by the processor's split, for every word of the page. */
  lemma AddrSplits(p: Page, i: Index)
    ensures var va := AddrFromIndexes(p.i4, p.i3, p.i2, p.i1);
            && va % 4096 == 0 && Canonical(va)
            && PageOf(va + 8 * i) == p && WordOf(va + 8 * i) == i
  {
    hide AddrFromIndexes, PageOf;
    var va, n := AddrFromIndexes(p.i4, p.i3, p.i2, p.i1), BuiltNumber(p);
    AddrIsNumber(p);
    WordSplits(n, i);
    PageOfIsPageOfNumber(va + 8 * i);
    NumberFields(if p.i4 < 256 then 0 else 0xFFFF, p);
  }

  lemma WordSplits(n: nat, i: Index)
    ensures (n * 4096 + 8 * i) / 4096 == n && (n * 4096 + 8 * i) % 4096 == 8 * i && (n * 4096) % 4096 == 0
  {}

  /** An access at page w, with root k active, lands in `frame`. */
  predicate Reaches(m: Memory, k: nat, w: Page, frame: nat) {
    Walk(m, k, w).Some? && FrameOf(Walk(m, k, w).value) == frame
  }

  /** The active root k shows the tree of root p in its window: k[511] is p and p[511] is p. */
  predicate Shows(m: Memory, k: nat, p: nat) {
    Next(m, k, RECURSIVE) == Some(p) && Next(m, p, RECURSIVE) == Some(p)
  }

  /**
   The four addresses map_page builds reach exactly the edited tree's PML4, and the PDPT, PD
   and PT on the chain of the page, whichever root is active.
   */
  lemma WindowReaches(m: Memory, k: nat, root: nat, p: Page)
    requires Shows(m, k, root)
    ensures Reaches(m, k, Page(511, 511, 511, 511), root)
    ensures Next(m, root, p.i4).Some? ==>
              var pdpt := Next(m, root, p.i4).value;
              && Reaches(m, k, Page(511, 511, 511, p.i4), pdpt)
              && (Next(m, pdpt, p.i3).Some? ==>
                var pd := Next(m, pdpt, p.i3).value;
                && Reaches(m, k, Page(511, 511, p.i4, p.i3), pd)
                && (Next(m, pd, p.i2).Some? ==>
                  Reaches(m, k, Page(511, p.i4, p.i3, p.i2), Next(m, pd, p.i2).value)))
  {}

  lemma WindowAt(m: Memory, k: nat, p: nat, x2: Index, x1: Index, a: nat, table: nat)
    requires Shows(m, k, p) && Next(m, p, x2) == Some(a) && Next(m, a, x1) == Some(table)
    ensures Reaches(m, k, Page(511, 511, x2, x1), table)
  {}

  /** After entry i of `table` was set to e, the window page one level down leads to e's frame. */
  lemma ChildSeen(m: Memory, k: nat, p: nat, x2: Index, x1: Index, a: nat, table: nat, i: Index, e: nat)
    requires Shows(m, k, p) && Next(m, p, x2) == Some(a) && Next(m, a, x1) == Some(table)
    requires table in m && |m[table]| == 512 && Present(e)
    requires (table == k ==> i != 511) && (table == p ==> i != 511 && i != x2) && (table == a ==> i != x1)
    ensures Reaches(Store(m, table, i, e), k, Page(511, x2, x1, i), FrameOf(e))
  {
    var m' := Store(m, table, i, e);
    assert Next(m', k, 511) == Some(p);
    assert Next(m', p, x2) == Some(a);
    assert Next(m', a, x1) == Some(table);
  }

  /** `table` is a full table other than those given. */
  predicate Apart(m: Memory, table: nat, others: set<nat>) {
    table in m && |m[table]| == 512 && table !in others
  }

  /**
   While map_page goes down, the window keeps showing the same tree, and each table it
   finds or makes is a frame of its own.
   */
  lemma Descents(s: Machine, o: Owners, k: nat, root: nat, pid: nat, p: Page)
    requires WellFormed(s, o) && IsRoot(o, k) && IsRoot(o, root) && Shows(s.mem, k, root)
    requires p.i4 != RECURSIVE && pid % 256 != 0
    ensures var (s1, pdpt) := Descend(s, root, p.i4, pid);
            pdpt.Some? ==>
              && Shows(s1.mem, k, root) && Next(s1.mem, root, p.i4) == pdpt
              && Apart(s1.mem, pdpt.value, {k, root})
              && var (s2, pd) := Descend(s1, pdpt.value, p.i3, pid);
              pd.Some? ==>
                && Shows(s2.mem, k, root) && Next(s2.mem, root, p.i4) == pdpt
                && Next(s2.mem, pdpt.value, p.i3) == pd
                && Apart(s2.mem, pd.value, {k, root, pdpt.value})
  {
    hide WellFormed, Walk, Descend, Load;
    var o1 := DescendKeeps(s, o, root, p.i4, pid);
    var (s1, pdpt) := Descend(s, root, p.i4, pid);
    if pdpt.Some? {
      TableEntry(s1, o1, pdpt.value, p.i3);
      assert Load(s1.mem, k, RECURSIVE) == Load(s.mem, k, RECURSIVE);
      var o2 := DescendKeeps(s1, o1, pdpt.value, p.i3, pid);
      var (s2, pd) := Descend(s1, pdpt.value, p.i3, pid);
      if pd.Some? {
        TableEntry(s2, o2, pd.value, p.i2);
        assert Load(s2.mem, k, RECURSIVE) == Load(s1.mem, k, RECURSIVE);
      }
    }
  }

  function AllUsed(frames: nat): seq<nat> { seq(frames, _ => 1) }

  lemma AllUsedKeeps(s: Machine, o: Owners)
    requires WellFormed(s, o)
    ensures WellFormed(s.(bitmap := AllUsed(|s.bitmap|)), o)
  {
    hide GoodEntry, Reached;
    forall g, j: Index | g in o ensures GoodEntry(s.mem, o, g, j) { TableEntry(s, o, g, j); }
    forall g | g in o ensures Reached(s.mem, o, g) { ReachedIn(s, o, g); }
  }

  /** unmap_page asks nothing of the byte map. */
  lemma UnmapAnyMap(s: Machine, t: Machine, root: nat, p: Page)
    requires s.mem == t.mem
    ensures UnmapPage(s, root, p) == s.(mem := UnmapPage(t, root, p).mem)
  {
    hide Load, Store;
  }

  class Mmu {
    var mem: Memory
    var bitmap: seq<nat>
    var cr3: nat
    ghost var owners: Owners

    ghost function State(): Machine reads this { Machine(mem, bitmap) }

    /** The root whose tree the window shows. */
    ghost function Shown(): nat reads this { FrameOf(Load(mem, cr3, RECURSIVE)) }

    ghost predicate Valid() reads this {
      && WellFormed(State(), owners)
      && IsRoot(owners, cr3)
      && Shows(mem, cr3, Shown())
    }

    /** The trees alone are as in Valid; the byte map may say anything. */
    ghost predicate Standing() reads this {
      && WellFormed(Machine(mem, AllUsed(|bitmap|)), owners)
      && IsRoot(owners, cr3)
      && Shows(mem, cr3, Shown())
    }

    method ReadWord(va: nat) returns (e: nat)
      requires Walk(mem, cr3, PageOf(va)).Some?
      ensures e == Load(mem, FrameOf(Walk(mem, cr3, PageOf(va)).value), WordOf(va))
    {
      e := Load(mem, FrameOf(Walk(mem, cr3, PageOf(va)).value), WordOf(va));
    }

    method WriteWord(va: nat, e: nat)
      requires Walk(mem, cr3, PageOf(va)).Some?
      modifies this`mem
      ensures mem == Store(old(mem), FrameOf(Walk(old(mem), cr3, PageOf(va)).value), WordOf(va), e)
    {
      mem := Store(mem, FrameOf(Walk(mem, cr3, PageOf(va)).value), WordOf(va), e);
    }

    /** memset of one page, taken as one step. */
    method ZeroPage(va: nat)
      requires Walk(mem, cr3, PageOf(va)).Some?
      modifies this`mem
      ensures mem == old(mem)[FrameOf(Walk(old(mem), cr3, PageOf(va)).value) := Zeroes()]
    {
      mem := mem[FrameOf(Walk(mem, cr3, PageOf(va)).value) := Zeroes()];
    }

    /** allocate_page: the address of the first free frame, or 0. */
    method AllocatePage(pid: nat) returns (address: nat)
      modifies this`bitmap
      ensures Machine(mem, bitmap) == Allocate(old(State()), pid).0
      ensures var f := Allocate(old(State()), pid).1;
              address == if f.Some? then f.value * 4096 else 0
    {
      var i := 0;
      while i < |bitmap|
        invariant i <= |bitmap| && bitmap == old(bitmap)
        invariant FirstFree(bitmap, 0) == FirstFree(bitmap, i)
      {
        if bitmap[i] == 0 {
          bitmap := bitmap[i := pid % 256];
          return i * 4096;
        }
        i := i + 1;
      }
      address := 0;
    }

    /** Word i of the window page w, at the address built from w's four indices. */
    method ReadEntry(w: Page, i: Index) returns (e: nat)
      requires Walk(mem, cr3, w).Some?
      ensures e == Load(mem, FrameOf(Walk(mem, cr3, w).value), i)
    {
      AddrSplits(w, i);
      e := ReadWord(AddrFromIndexes(w.i4, w.i3, w.i2, w.i1) + 8 * i);
    }

    method WriteEntry(w: Page, i: Index, e: nat)
      requires Walk(mem, cr3, w).Some?
      modifies this`mem
      ensures mem == Store(old(mem), FrameOf(Walk(old(mem), cr3, w).value), i, e)
    {
      AddrSplits(w, i);
      WriteWord(AddrFromIndexes(w.i4, w.i3, w.i2, w.i1) + 8 * i, e);
    }

    method ZeroTable(w: Page)
      requires Walk(mem, cr3, w).Some?
      modifies this`mem
      ensures mem == old(mem)[FrameOf(Walk(old(mem), cr3, w).value) := Zeroes()]
    {
      AddrSplits(w, 0);
      ZeroPage(AddrFromIndexes(w.i4, w.i3, w.i2, w.i1));
    }

    /**
     One "check, allocate, store, zero" stanza of map_page.  The parent table is seen at window
     page (511, 511, x2, x1), its child at (511, x2, x1, i).
     */
    method EnsureTable(x2: Index, x1: Index, i: Index, pid: nat, ghost p: nat, ghost a: nat, ghost table: nat)
      returns (ok: bool)
      requires table in mem && |mem[table]| == 512
      requires Shows(mem, cr3, p) && Next(mem, p, x2) == Some(a) && Next(mem, a, x1) == Some(table)
      requires (table == cr3 ==> i != 511) && (table == p ==> i != 511 && i != x2) && (table == a ==> i != x1)
      modifies this`mem, this`bitmap
      ensures State() == Descend(old(State()), table, i, pid).0
      ensures ok <==> Descend(old(State()), table, i, pid).1.Some?
    {
      WindowAt(mem, cr3, p, x2, x1, a, table);
      hide Walk, FirstFree, Allocate;
      var e := ReadEntry(Page(511, 511, x2, x1), i);
      if !Present(e) {
        var address := AllocatePage(pid);
        if address == 0 {
          return false;
        }
        ghost var f := Allocate(old(State()), pid).1.value;
        EntryFields(f, MAP_FLAGS);
        ChildSeen(mem, cr3, p, x2, x1, a, table, i, Entry(f, MAP_FLAGS));
        WriteEntry(Page(511, 511, x2, x1), i, address + MAP_FLAGS);
        ZeroTable(Page(511, x2, x1, i));
      }
      ok := true;
    }

    /** The three stanzas of map_page, one level of tables each. */
    method EnsureTables(pid: nat, p: Page, ghost root: nat) returns (ok: bool)
      requires WellFormed(State(), owners) && IsRoot(owners, cr3) && IsRoot(owners, root)
      requires Shows(mem, cr3, root) && p.i4 != RECURSIVE && pid % 256 != 0
      modifies this`mem, this`bitmap
      ensures State() == MakeTables(old(State()), root, pid, p).0
      ensures ok <==> MakeTables(old(State()), root, pid, p).1.Some?
    {
      hide WellFormed;
      TableEntry(State(), owners, root, p.i4);
      Descents(State(), owners, cr3, root, pid, p);
      ok := EnsureTable(511, 511, p.i4, pid, root, root, root);
      if !ok {
        return;
      }
      ghost var pdpt := Next(mem, root, p.i4).value;
      ok := EnsureTable(511, p.i4, p.i3, pid, root, root, pdpt);
      if !ok {
        return;
      }
      ghost var pd := Next(mem, pdpt, p.i3).value;
      ok := EnsureTable(p.i4, p.i3, p.i2, pid, root, pdpt, pd);
    }

    method MapAt(pid: nat, p: Page, frame: nat, flags: nat) returns (ok: bool)
      requires Valid() && pid % 256 != 0 && p.i4 != RECURSIVE && flags < 4096
      modifies this`mem, this`bitmap, this`owners
      ensures Valid() && Shown() == old(Shown()) && Extends(old(owners), owners)
      ensures |bitmap| == |old(bitmap)|
      ensures (State(), ok) == Paging.MapPage(old(State()), old(Shown()), pid, p, frame, flags)
    {
      hide WellFormed, Walk, Fresh;
      ghost var root, m := Shown(), mem;
      TableEntry(State(), owners, cr3, RECURSIVE);
      ghost var o1 := MakeTablesKeeps(State(), owners, root, pid, p);
      ghost var o2 := MapPageCorrect(State(), owners, root, pid, p, frame, flags);
      ok := EnsureTables(pid, p, root);
      if ok {
        assert Shows(mem, cr3, root);
        WindowReaches(mem, cr3, root, p);
        WriteEntry(Page(511, p.i4, p.i3, p.i2), p.i1, Entry(frame, flags));
      }
      assert SameWindows(m, mem, owners);
      MapPageLength(old(State()), root, pid, p, frame, flags);
      owners := o2;
    }

    /** map_page */
    method MapPage(pid: nat, va: nat, physical: nat, flags: nat) returns (ok: bool)
      requires Valid() && pid % 256 != 0
      requires PageOf(va).i4 != RECURSIVE && physical % 4096 == 0 && flags < 4096
      modifies this`mem, this`bitmap, this`owners
      ensures Valid() && Shown() == old(Shown()) && Extends(old(owners), owners)
      ensures |bitmap| == |old(bitmap)|
      ensures (State(), ok) ==
              Paging.MapPage(old(State()), old(Shown()), pid, PageOf(va), physical / 4096, flags)
    {
      ok := MapAt(pid, PageOf(va), physical / 4096, flags);
    }

    method UnmapAt(p: Page)
      requires Standing() && p.i4 != RECURSIVE
      modifies this`mem
      ensures Standing() && Shown() == old(Shown())
      ensures State() == Paging.UnmapPage(old(State()), old(Shown()), p)
      ensures old(Valid()) ==> Valid()
    {
      hide WellFormed, AllUsed, Walk;
      ghost var root, t := Shown(), Machine(mem, AllUsed(|bitmap|));
      TableEntry(t, owners, cr3, RECURSIVE);
      if WellFormed(State(), owners) { UnmapPageCorrect(State(), owners, root, p); }
      UnmapAnyMap(State(), t, root, p);
      TableEntry(t, owners, root, p.i4);
      UnmapPageCorrect(t, owners, root, p);
      WalkPlaces(t, owners, root, p);
      WindowReaches(mem, cr3, root, p);
      var e := ReadEntry(Page(511, 511, 511, 511), p.i4);
      if !Present(e) { return; }
      ghost var pdpt := FrameOf(e);
      TableEntry(t, owners, pdpt, p.i3);
      e := ReadEntry(Page(511, 511, 511, p.i4), p.i3);
      if !Present(e) { return; }
      TableEntry(t, owners, FrameOf(e), p.i2);
      e := ReadEntry(Page(511, 511, p.i4, p.i3), p.i2);
      if !Present(e) { return; }
      e := ReadEntry(Page(511, p.i4, p.i3, p.i2), p.i1);
      if !Present(e) { return; }
      WriteEntry(Page(511, p.i4, p.i3, p.i2), p.i1, 0);
    }

    /** unmap_page */
    method UnmapPage(va: nat)
      requires Standing() && PageOf(va).i4 != RECURSIVE
      modifies this`mem
      ensures Standing() && Shown() == old(Shown())
      ensures State() == Paging.UnmapPage(old(State()), old(Shown()), PageOf(va))
      ensures old(Valid()) ==> Valid()
    {
      UnmapAt(PageOf(va));
    }
  }
}
