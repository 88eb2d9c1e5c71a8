/**
 Four-level paging: page-table trees held in physical memory, the walk the processor
 makes over them, and what mapping and unmapping one page does to every walk.

 Physical memory is a map from frame numbers to tables of 512 words.  A word is a page-table
 entry: bit 0 is "present", bit 7 is "large page", bits 12 and up are a frame number.
 Masks and shifts of the source are written as `%` and `/` by powers of two, and `|` of
 fields that do not overlap as `+`.
 */
module Paging {
  import opened Common
  import Align

  const RECURSIVE := 511     // PML4_RECURSIVE_ENTRY_NUM
  const MAP_FLAGS := 7       // PAGE_PRESENT | PAGE_WRITE | PAGE_USER

  type Index = i: nat | i < 512

  /** A 4 KiB page, named by the four table indices the processor takes from an address. */
  datatype Page = Page(i4: Index, i3: Index, i2: Index, i1: Index)

  type Memory = map<nat, seq<nat>>

  /** Physical memory and the byte map of used frames (0 means free). */
  datatype Machine = Machine(mem: Memory, bitmap: seq<nat>)

  predicate Present(e: nat) { e % 2 == 1 }

  predicate Large(e: nat) { (e / 128) % 2 == 1 }

  function FrameOf(e: nat): nat { e / 4096 }

  function Entry(frame: nat, flags: nat): nat { frame * 4096 + flags }

  predicate Complete(m: Memory, frames: nat) {
    forall f :: 0 <= f < frames ==> f in m && |m[f]| == 512
  }

  /** Physical loads and stores; a frame that does not exist reads as 0 and ignores stores. */
  function Load(m: Memory, frame: nat, i: Index): nat {
    if frame in m && |m[frame]| == 512 then m[frame][i] else 0
  }

  function Store(m: Memory, frame: nat, i: Index, e: nat): Memory {
    if frame in m && |m[frame]| == 512 then
      var t: seq<nat> := m[frame][i := e];
      m[frame := t]
    else m
  }

  // ---------------------------------------------------------------- the processor's walk

  /** The table one level down, if the entry is present and does not end the walk early. */
  function Next(m: Memory, table: nat, i: Index): Option<nat> {
    var e := Load(m, table, i);
    if Present(e) && !Large(e) then Some(FrameOf(e)) else None
  }

  function Leaf(m: Memory, table: nat, i: Index): Option<nat> {
    var e := Load(m, table, i);
    if Present(e) then Some(e) else None
  }

  function Walk(m: Memory, root: nat, p: Page): Option<nat> {
    match Next(m, root, p.i4)
    case None => None
    case Some(pdpt) =>
      match Next(m, pdpt, p.i3)
      case None => None
      case Some(pd) =>
        match Next(m, pd, p.i2)
        case None => None
        case Some(pt) => Leaf(m, pt, p.i1)
  }

  // ---------------------------------------------------------------- trees

  /** The place of a table: its root, and the indices that lead to it. */
  datatype Node =
    | Pml4(root: nat)
    | Pdpt(root: nat, a: Index)
    | Pd(root: nat, a: Index, b: Index)
    | Pt(root: nat, a: Index, b: Index, c: Index)

  type Owners = map<nat, Node>

  function Child(n: Node, i: Index): Node
    requires !n.Pt?
  {
    match n
    case Pml4(r) => Pdpt(r, i)
    case Pdpt(r, a) => Pd(r, a, i)
    case Pd(r, a, b) => Pt(r, a, b, i)
  }

  predicate IsRoot(o: Owners, r: nat) { r in o && o[r] == Pml4(r) }

  /** Entry i of table f, when it points further down, points to f's own child at i. */
  predicate GoodEntry(m: Memory, o: Owners, f: nat, i: Index)
    requires f in o
  {
    var e := Load(m, f, i);
    if o[f].Pt? then true
    else if o[f].Pml4? && i == RECURSIVE then
      Present(e) && !Large(e) && IsRoot(o, FrameOf(e))
    else
      Present(e) ==> !Large(e) && FrameOf(e) in o && o[FrameOf(e)] == Child(o[f], i)
  }

  /** The table the entries lead to at a place. */
  function TableAt(m: Memory, n: Node): Option<nat> {
    match n
    case Pml4(r) => Some(r)
    case Pdpt(r, a) => Next(m, r, a)
    case Pd(r, a, b) => Follow(m, Next(m, r, a), b)
    case Pt(r, a, b, c) => Follow(m, Follow(m, Next(m, r, a), b), c)
  }

  function Follow(m: Memory, table: Option<nat>, i: Index): Option<nat> {
    match table
    case None => None
    case Some(t) => Next(m, t, i)
  }

  /** The entries lead to table f at its place, and not through the window. */
  predicate Reached(m: Memory, o: Owners, f: nat)
    requires f in o
  {
    TableAt(m, o[f]) == Some(f) && (o[f].Pml4? || o[f].a != RECURSIVE)
  }

  /**
   Tables are used frames, and since every table frame has one place only, trees share no
   table, neither with themselves nor with each other.  No table is out of reach.  Entry 511 of a
   root leads to a root.
   */
  predicate WellFormed(s: Machine, o: Owners) {
    && Complete(s.mem, |s.bitmap|)
    && (forall f :: f in o ==> f < |s.bitmap| && s.bitmap[f] != 0)
    && (forall f :: f in o && o[f].Pml4? ==> o[f].root == f)
    && (forall f :: f in o ==> IsRoot(o, o[f].root))
    && (forall f, i: Index :: f in o ==> GoodEntry(s.mem, o, f, i))
    && (forall f :: f in o ==> Reached(s.mem, o, f))
    && 0 < |s.bitmap| && s.bitmap[0] != 0
  }

  // ---------------------------------------------------------------- the frame allocator

  /** Index of the first free frame at or after `from`. */
  function FirstFree(bitmap: seq<nat>, from: nat): (r: Option<nat>)
    requires from <= |bitmap|
    ensures r.Some? ==> from <= r.value < |bitmap| && bitmap[r.value] == 0
                        && forall j :: from <= j < r.value ==> bitmap[j] != 0
    ensures r.None? ==> forall j :: from <= j < |bitmap| ==> bitmap[j] != 0
    decreases |bitmap| - from
  {
    if from == |bitmap| then None
    else if bitmap[from] == 0 then Some(from)
    else FirstFree(bitmap, from + 1)
  }

  /** allocate_page: the mark is the pid cut to the byte the map holds. */
  function Allocate(s: Machine, pid: nat): (r: (Machine, Option<nat>)) {
    match FirstFree(s.bitmap, 0)
    case None => (s, None)
    case Some(f) => (s.(bitmap := s.bitmap[f := pid % 256]), Some(f))
  }

  // ---------------------------------------------------------------- editing a tree

  function Zeroes(): seq<nat> { seq(512, _ => 0) }

  /**
   The table below entry i of `table`, made and zeroed if the entry is not present.
   A frame number 0 is the source's NULL and counts as a failure.
   */
  function Descend(s: Machine, table: nat, i: Index, pid: nat): (Machine, Option<nat>) {
    var e := Load(s.mem, table, i);
    if Present(e) then (s, Some(FrameOf(e)))
    else
      match Allocate(s, pid)
      case (s1, None) => (s1, None)
      case (s1, Some(f)) =>
        if f == 0 then (s1, None)
        else (s1.(mem := Store(s1.mem, table, i, Entry(f, MAP_FLAGS))[f := Zeroes()]), Some(f))
  }

  /** The page table for p below `root`, with the tables on the way to it made as needed. */
  function MakeTables(s: Machine, root: nat, pid: nat, p: Page): (Machine, Option<nat>) {
    match Descend(s, root, p.i4, pid)
    case (s1, None) => (s1, None)
    case (s1, Some(pdpt)) => MakeBelow(s1, pdpt, pid, p)
  }

  function MakeBelow(s: Machine, pdpt: nat, pid: nat, p: Page): (Machine, Option<nat>) {
    match Descend(s, pdpt, p.i3, pid)
    case (s1, None) => (s1, None)
    case (s1, Some(pd)) => Descend(s1, pd, p.i2, pid)
  }

  /** map_page on the tree of root `root`; false when a table could not be allocated. */
  function MapPage(s: Machine, root: nat, pid: nat, p: Page, frame: nat, flags: nat): (Machine, bool) {
    match MakeTables(s, root, pid, p)
    case (s', None) => (s', false)
    case (s', Some(pt)) => (s'.(mem := Store(s'.mem, pt, p.i1, Entry(frame, flags))), true)
  }

  /** unmap_page: clears the page's entry if the whole chain is present. */
  function UnmapPage(s: Machine, root: nat, p: Page): Machine {
    match Next(s.mem, root, p.i4)
    case None => s
    case Some(pdpt) =>
      match Next(s.mem, pdpt, p.i3)
      case None => s
      case Some(pd) =>
        match Next(s.mem, pd, p.i2)
        case None => s
        case Some(pt) =>
          if Leaf(s.mem, pt, p.i1).None? then s
          else s.(mem := Store(s.mem, pt, p.i1, 0))
  }

  lemma MapPageLength(s: Machine, root: nat, pid: nat, p: Page, frame: nat, flags: nat)
    ensures |MapPage(s, root, pid, p, frame, flags).0.bitmap| == |s.bitmap|
  {
    hide Load, Store;
  }

  // ---------------------------------------------------------------- proofs

  lemma TableEntry(s: Machine, o: Owners, f: nat, i: Index)
    requires WellFormed(s, o) && f in o
    ensures GoodEntry(s.mem, o, f, i)
    ensures f in s.mem && |s.mem[f]| == 512 && f < |s.bitmap|
  {}

  /** Entry i of f leads to a table of f's own tree. */
  predicate IsLink(o: Owners, f: nat, i: Index)
    requires f in o
  {
    !o[f].Pt? && !(o[f].Pml4? && i == RECURSIVE)
  }

  /** Entries that lead to tables are as they were. */
  predicate KeepsLinks(m: Memory, m': Memory, o: Owners) {
    forall f, i: Index :: f in o && IsLink(o, f, i) && Present(Load(m, f, i)) ==> Load(m', f, i) == Load(m, f, i)
  }

  lemma LinkStep(s: Machine, o: Owners, m': Memory, f: nat, i: Index)
    requires WellFormed(s, o) && KeepsLinks(s.mem, m', o) && f in o && IsLink(o, f, i) && Next(s.mem, f, i).Some?
    ensures var t := Next(s.mem, f, i).value;
            Next(m', f, i) == Some(t) && t in o && o[t] == Child(o[f], i)
  {
    TableEntry(s, o, f, i);
  }

  /** A place that starts outside the window of a root holds the table that the owner map says. */
  lemma TableAtIn(s: Machine, o: Owners, m': Memory, n: Node)
    requires WellFormed(s, o) && KeepsLinks(s.mem, m', o) && IsRoot(o, n.root) && (n.Pml4? || n.a != RECURSIVE)
    ensures TableAt(s.mem, n).Some? ==>
              var t := TableAt(s.mem, n).value; TableAt(m', n) == Some(t) && t in o && o[t] == n
  {
    hide WellFormed, KeepsLinks;
    if !n.Pml4? && Next(s.mem, n.root, n.a).Some? {
      LinkStep(s, o, m', n.root, n.a);
      var t3 := Next(s.mem, n.root, n.a).value;
      if !n.Pdpt? && Next(s.mem, t3, n.b).Some? {
        LinkStep(s, o, m', t3, n.b);
        var t2 := Next(s.mem, t3, n.b).value;
        if n.Pt? && Next(s.mem, t2, n.c).Some? {
          LinkStep(s, o, m', t2, n.c);
        }
      }
    }
  }

  lemma ReachedIn(s: Machine, o: Owners, f: nat)
    requires WellFormed(s, o) && f in o
    ensures Reached(s.mem, o, f) && IsRoot(o, o[f].root)
  {}

  lemma ReachedKept(s: Machine, o: Owners, m': Memory, f: nat)
    requires WellFormed(s, o) && KeepsLinks(s.mem, m', o) && f in o
    ensures Reached(m', o, f)
  {
    hide KeepsLinks, WellFormed;
    ReachedIn(s, o, f);
    TableAtIn(s, o, m', o[f]);
  }

  /** The entries alone say which frames are tables, given which are roots. */
  lemma OwnersUnique(s: Machine, o: Owners, t: Machine, o': Owners, f: nat)
    requires WellFormed(s, o) && WellFormed(t, o') && s.mem == t.mem
    requires forall r :: IsRoot(o, r) ==> IsRoot(o', r)
    requires f in o
    ensures f in o' && o'[f] == o[f]
  {
    hide WellFormed;
    ReachedIn(s, o, f);
    TableAtIn(t, o', t.mem, o[f]);
  }

  /** Two pages of two roots are the same place. */
  predicate SameFrom(n: Node, i: Index, r: nat, q: Page) {
    n.root == r &&
    match n
    case Pml4(_) => q.i4 == i
    case Pdpt(_, a) => q.i4 == a && q.i3 == i
    case Pd(_, a, b) => q.i4 == a && q.i3 == b && q.i2 == i
    case Pt(_, a, b, c) => q.i4 == a && q.i3 == b && q.i2 == c && q.i1 == i
  }

  /** What one descent promises: the tree stays well formed and no walk changes. */
  ghost predicate SameWalks(s: Machine, s': Machine, o: Owners) {
    forall r, q: Page :: IsRoot(o, r) && q.i4 != RECURSIVE ==> Walk(s'.mem, r, q) == Walk(s.mem, r, q)
  }

  /** Every table a walk meets is at the place the page's own indices name. */
  lemma WalkPlaces(s: Machine, o: Owners, r: nat, q: Page)
    requires WellFormed(s, o) && IsRoot(o, r) && q.i4 != RECURSIVE
    ensures Next(s.mem, r, q.i4).Some? ==>
              var t3 := Next(s.mem, r, q.i4).value;
              && t3 in o && o[t3] == Pdpt(r, q.i4)
              && (Next(s.mem, t3, q.i3).Some? ==>
                var t2 := Next(s.mem, t3, q.i3).value;
                && t2 in o && o[t2] == Pd(r, q.i4, q.i3)
                && (Next(s.mem, t2, q.i2).Some? ==>
                  var t1 := Next(s.mem, t2, q.i2).value;
                  t1 in o && o[t1] == Pt(r, q.i4, q.i3, q.i2)))
  {
    assert GoodEntry(s.mem, o, r, q.i4);
    if Next(s.mem, r, q.i4).Some? {
      var t3 := Next(s.mem, r, q.i4).value;
      assert GoodEntry(s.mem, o, t3, q.i3);
      if Next(s.mem, t3, q.i3).Some? {
        assert GoodEntry(s.mem, o, Next(s.mem, t3, q.i3).value, q.i2);
      }
    }
  }

  /** A store into entry i of a table is seen only by walks that pass through that entry. */
  lemma StoreFrame(s: Machine, o: Owners, table: nat, i: Index, e: nat, r: nat, q: Page)
    requires WellFormed(s, o) && IsRoot(o, r) && q.i4 != RECURSIVE
    requires table in o && !SameFrom(o[table], i, r, q)
    ensures Walk(Store(s.mem, table, i, e), r, q) == Walk(s.mem, r, q)
  {
    hide WellFormed, Store, Load;
    WalkPlaces(s, o, r, q);
    StoreLoad(s.mem, table, i, e, r, q.i4);
    if Next(s.mem, r, q.i4).Some? {
      var t3 := Next(s.mem, r, q.i4).value;
      StoreLoad(s.mem, table, i, e, t3, q.i3);
      if Next(s.mem, t3, q.i3).Some? {
        var t2 := Next(s.mem, t3, q.i3).value;
        StoreLoad(s.mem, table, i, e, t2, q.i2);
        if Next(s.mem, t2, q.i2).Some? {
          StoreLoad(s.mem, table, i, e, Next(s.mem, t2, q.i2).value, q.i1);
        }
      }
    }
  }

  lemma StoreLoad(m: Memory, table: nat, i: Index, e: nat, g: nat, j: Index)
    ensures !(g == table && j == i) ==> Load(Store(m, table, i, e), g, j) == Load(m, g, j)
  {}

  /** Filling a frame no tree uses is seen by no walk. */
  lemma FillFrame(s: Machine, o: Owners, f: nat, t: seq<nat>, r: nat, q: Page)
    requires WellFormed(s, o) && IsRoot(o, r) && q.i4 != RECURSIVE
    requires f !in o
    ensures Walk(s.mem[f := t], r, q) == Walk(s.mem, r, q)
  {
    WalkPlaces(s, o, r, q);
  }

  lemma EntryFields(frame: nat, flags: nat)
    requires flags < 4096
    ensures FrameOf(Entry(frame, flags)) == frame
    ensures Present(Entry(frame, flags)) == Present(flags)
    ensures Large(Entry(frame, flags)) == Large(flags)
  {
    var e, q := Entry(frame, flags), flags / 128;
    Align.DivModUnique(e, 4096, frame, flags);
    Align.DivModUnique(e, 128, frame * 32 + q, flags % 128);
    Align.DivModUnique(e, 2, frame * 2048 + flags / 2, flags % 2);
    Align.DivModUnique(frame * 32 + q, 2, frame * 16 + q / 2, q % 2);
  }

  /** Memory after an empty table f was hung below entry i of `table`. */
  function Hung(m: Memory, table: nat, i: Index, f: nat): Memory {
    Store(m, table, i, Entry(f, MAP_FLAGS))[f := Zeroes()]
  }

  lemma HungLoad(m: Memory, table: nat, i: Index, f: nat, g: nat, j: Index)
    requires table in m && |m[table]| == 512 && table != f
    ensures Load(Hung(m, table, i, f), g, j) ==
            if g == f then 0 else if g == table && j == i then Entry(f, MAP_FLAGS) else Load(m, g, j)
  {}

  /** Hanging an empty fresh table below an absent entry keeps the trees well formed. */
  lemma HangTable(s: Machine, o: Owners, table: nat, i: Index, f: nat, mark: nat)
    requires WellFormed(s, o) && table in o && !o[table].Pt?
    requires !(o[table].Pml4? && i == RECURSIVE)
    requires !Present(Load(s.mem, table, i))
    requires 0 < f < |s.bitmap| && s.bitmap[f] == 0 && mark != 0
    ensures WellFormed(Machine(Hung(s.mem, table, i, f), s.bitmap[f := mark]), o[f := Child(o[table], i)])
  {
    var o' := o[f := Child(o[table], i)];
    var m := Hung(s.mem, table, i, f);
    EntryFields(f, MAP_FLAGS);
    hide Reached;
    forall g, j: Index | g in o' ensures GoodEntry(m, o', g, j) {
      HungLoad(s.mem, table, i, f, g, j);
      if g != f {
        assert GoodEntry(s.mem, o, g, j);
      }
    }
    forall g | g in o' ensures Reached(m, o', g) {
      HangReached(s, o, table, i, f, g);
    }
  }

  lemma HangReached(s: Machine, o: Owners, table: nat, i: Index, f: nat, g: nat)
    requires WellFormed(s, o) && table in o && IsLink(o, table, i) && !Present(Load(s.mem, table, i))
    requires 0 < f < |s.bitmap| && s.bitmap[f] == 0 && (g in o || g == f)
    ensures Reached(Hung(s.mem, table, i, f), o[f := Child(o[table], i)], g)
  {
    hide WellFormed, Hung, Load, Entry;
    var m := Hung(s.mem, table, i, f);
    TableEntry(s, o, table, i);
    FreeNotTable(s, o, f);
    EntryFields(f, MAP_FLAGS);
    HungLinks(s, o, table, i, f);
    ReachedKept(s, o, m, if g == f then table else g);
    HungLoad(s.mem, table, i, f, table, i);
  }

  lemma HungLinks(s: Machine, o: Owners, table: nat, i: Index, f: nat)
    requires WellFormed(s, o) && table in o && !Present(Load(s.mem, table, i)) && f < |s.bitmap| && s.bitmap[f] == 0
    ensures KeepsLinks(s.mem, Hung(s.mem, table, i, f), o)
  {
    TableEntry(s, o, table, i);
    FreeNotTable(s, o, f);
    forall g, j: Index | g in o && Present(Load(s.mem, g, j))
      ensures Load(Hung(s.mem, table, i, f), g, j) == Load(s.mem, g, j)
    {
      HungLoad(s.mem, table, i, f, g, j);
    }
  }

  lemma FreeNotTable(s: Machine, o: Owners, f: nat)
    requires WellFormed(s, o) && f < |s.bitmap| && s.bitmap[f] == 0
    ensures f !in o
  {}

  /** ... and no walk notices it. */
  lemma HangTableWalk(s: Machine, o: Owners, table: nat, i: Index, f: nat, r: nat, q: Page)
    requires WellFormed(s, o) && table in o && !o[table].Pt?
    requires !(o[table].Pml4? && i == RECURSIVE)
    requires !Present(Load(s.mem, table, i))
    requires 0 < f < |s.bitmap| && s.bitmap[f] == 0
    requires IsRoot(o, r) && q.i4 != RECURSIVE
    ensures Walk(Hung(s.mem, table, i, f), r, q) == Walk(s.mem, r, q)
  {
    TableEntry(s, o, table, i);
    EntryFields(f, MAP_FLAGS);
    WalkPlaces(s, o, r, q);
    FreeNotTable(s, o, f);
    hide WellFormed, Hung, Load, Entry;
    HungLoad(s.mem, table, i, f, r, q.i4);
    if Next(s.mem, r, q.i4).Some? {
      var t3 := Next(s.mem, r, q.i4).value;
      HungLoad(s.mem, table, i, f, t3, q.i3);
      if Next(s.mem, t3, q.i3).Some? {
        var t2 := Next(s.mem, t3, q.i3).value;
        HungLoad(s.mem, table, i, f, t2, q.i2);
        if Next(s.mem, t2, q.i2).Some? {
          HungLoad(s.mem, table, i, f, Next(s.mem, t2, q.i2).value, q.i1);
        }
      }
    }
    HungLoad(s.mem, table, i, f, f, q.i3);
    HungLoad(s.mem, table, i, f, f, q.i2);
    HungLoad(s.mem, table, i, f, f, q.i1);
  }

  function FreeFrames(bitmap: seq<nat>): set<nat> {
    set f | 0 <= f < |bitmap| && bitmap[f] == 0
  }

  /** `o'` adds tables below the roots of `o`, and moves none. */
  predicate Extends(o: Owners, o': Owners) {
    && (forall g :: g in o ==> g in o' && o'[g] == o[g])
    && (forall g :: g in o' && o'[g].Pml4? ==> g in o)
  }

  /**
   The frames between two states: new tables were free, used cells keep their marks, only new
   tables were taken, and what is no table afterwards was not written.
   */
  ghost predicate Fresh(s: Machine, s': Machine, o: Owners, o': Owners) {
    && |s'.bitmap| == |s.bitmap|
    && (forall g :: g in o' && g !in o ==> g < |s.bitmap| && s.bitmap[g] == 0)
    && (forall g :: 0 <= g < |s.bitmap| && s.bitmap[g] != 0 ==> s'.bitmap[g] == s.bitmap[g])
    && (forall g :: 0 <= g < |s.bitmap| && s.bitmap[g] == 0 && s'.bitmap[g] != 0 ==> g in o')
    && (forall g, j: Index :: g !in o' ==> Load(s'.mem, g, j) == Load(s.mem, g, j))
  }

  /** The same when the marks of used cells may change: used frames stay used, and no other frame is written. */
  ghost predicate Spares(s: Machine, s': Machine, o: Owners, o': Owners) {
    && |s'.bitmap| == |s.bitmap|
    && (forall g :: g in o' && g !in o ==> g < |s.bitmap| && s.bitmap[g] == 0)
    && (forall g :: 0 <= g < |s.bitmap| && s.bitmap[g] != 0 ==> s'.bitmap[g] != 0)
    && (forall g, j: Index :: g !in o' ==> Load(s'.mem, g, j) == Load(s.mem, g, j))
  }

  lemma SparesChain(s: Machine, s1: Machine, s2: Machine, o: Owners, o1: Owners, o2: Owners)
    requires (forall g :: g in o ==> g in o1) && (forall g :: g in o1 ==> g in o2)
    requires Spares(s, s1, o, o1) && Spares(s1, s2, o1, o2)
    ensures Spares(s, s2, o, o2)
  {
    hide Load;
  }

  lemma FreshSpares(s: Machine, s': Machine, o: Owners, o': Owners)
    requires Fresh(s, s', o, o')
    ensures Spares(s, s', o, o')
  {
    hide Load;
  }

  lemma FreshChain(s: Machine, s1: Machine, s2: Machine, o: Owners, o1: Owners, o2: Owners)
    requires Extends(o, o1) && Extends(o1, o2) && Fresh(s, s1, o, o1) && Fresh(s1, s2, o1, o2)
    ensures Fresh(s, s2, o, o2)
  {
    hide Load;
  }

  /** Frames in use that are no tables: they become none, stay in use and keep their words. */
  lemma SparesKeeps(s: Machine, s': Machine, o: Owners, o': Owners, g: nat, j: Index)
    requires Spares(s, s', o, o') && g < |s.bitmap| && s.bitmap[g] != 0 && g !in o
    ensures g !in o' && s'.bitmap[g] != 0 && Load(s'.mem, g, j) == Load(s.mem, g, j)
  {}

  /** Entries of o's tables other than entry i of `table` are as they were. */
  predicate OtherEntries(m: Memory, m': Memory, o: Owners, table: nat, i: Index) {
    forall g, j: Index :: g in o && !(g == table && j == i) ==> Load(m', g, j) == Load(m, g, j)
  }

  lemma DescendKeeps(s: Machine, o: Owners, table: nat, i: Index, pid: nat) returns (o': Owners)
    requires WellFormed(s, o) && table in o && !o[table].Pt?
    requires !(o[table].Pml4? && i == RECURSIVE)
    requires pid % 256 != 0
    ensures var (s', c) := Descend(s, table, i, pid);
            && WellFormed(s', o') && Extends(o, o') && Fresh(s, s', o, o')
            && SameWalks(s, s', o)
            && OtherEntries(s.mem, s'.mem, o, table, i)
            && (c.None? <==> !Present(Load(s.mem, table, i)) && |FreeFrames(s.bitmap)| == 0)
            && (c.None? || Present(Load(s.mem, table, i)) ==> s' == s)
            && (c.Some? ==>
              && c.value in o' && o'[c.value] == Child(o[table], i)
              && Next(s'.mem, table, i) == c
              && |FreeFrames(s'.bitmap)| ==
                 |FreeFrames(s.bitmap)| - (if Present(Load(s.mem, table, i)) then 0 else 1)
              && (!Present(Load(s.mem, table, i)) ==>
                    Load(s'.mem, table, i) == c.value * 4096 + 7 && forall j: Index :: Load(s'.mem, c.value, j) == 0))
  {
    hide WellFormed, Walk, FirstFree, FreeFrames, Fresh;
    o' := o;
    TableEntry(s, o, table, i);
    FreeCount(s.bitmap, pid % 256);
    NoChange(s, o);
    if !Present(Load(s.mem, table, i)) && FirstFree(s.bitmap, 0).Some? {
      var f := FirstFree(s.bitmap, 0).value;
      o' := o[f := Child(o[table], i)];
      HangTable(s, o, table, i, f, pid % 256);
      HangFresh(s, o, table, i, f, pid % 256);
    }
  }

  lemma NoChange(s: Machine, o: Owners)
    requires WellFormed(s, o)
    ensures Fresh(s, s, o, o) && 0 < |s.bitmap| && s.bitmap[0] != 0
  {}

  lemma FreeCount(bitmap: seq<nat>, mark: nat)
    requires mark != 0
    ensures FirstFree(bitmap, 0).None? <==> |FreeFrames(bitmap)| == 0
    ensures FirstFree(bitmap, 0).Some? ==>
              var f := FirstFree(bitmap, 0).value;
              |FreeFrames(bitmap[f := mark])| == |FreeFrames(bitmap)| - 1
  {
    if FirstFree(bitmap, 0).Some? {
      var f := FirstFree(bitmap, 0).value;
      assert f in FreeFrames(bitmap);
      assert FreeFrames(bitmap[f := mark]) == FreeFrames(bitmap) - {f};
    } else {
      assert FreeFrames(bitmap) == {};
    }
  }

  /** What hanging a table leaves as it was. */
  lemma HangFresh(s: Machine, o: Owners, table: nat, i: Index, f: nat, mark: nat)
    requires WellFormed(s, o) && table in o && IsLink(o, table, i) && !Present(Load(s.mem, table, i))
    requires 0 < f < |s.bitmap| && s.bitmap[f] == 0 && mark != 0
    ensures var s', o' := Machine(Hung(s.mem, table, i, f), s.bitmap[f := mark]), o[f := Child(o[table], i)];
            && Extends(o, o') && Fresh(s, s', o, o') && SameWalks(s, s', o)
            && OtherEntries(s.mem, s'.mem, o, table, i)
            && Load(s'.mem, table, i) == f * 4096 + 7
            && Next(s'.mem, table, i) == Some(f) && (forall j: Index :: Load(s'.mem, f, j) == 0)
  {
    hide WellFormed, Walk, Hung, Load;
    TableEntry(s, o, table, i);
    FreeNotTable(s, o, f);
    EntryFields(f, MAP_FLAGS);
    forall r, q: Page | IsRoot(o, r) && q.i4 != RECURSIVE
      ensures Walk(Hung(s.mem, table, i, f), r, q) == Walk(s.mem, r, q)
    {
      HangTableWalk(s, o, table, i, f, r, q);
    }
    forall g, j: Index ensures Load(Hung(s.mem, table, i, f), g, j) ==
      if g == f then 0 else if g == table && j == i then Entry(f, MAP_FLAGS) else Load(s.mem, g, j)
    {
      HungLoad(s.mem, table, i, f, g, j);
    }
  }

  /** Writing a leaf entry keeps the trees; only the walk of that page can change. */
  lemma StoreLeaf(s: Machine, o: Owners, pt: nat, i: Index, e: nat)
    requires WellFormed(s, o) && pt in o && o[pt].Pt?
    ensures WellFormed(s.(mem := Store(s.mem, pt, i, e)), o)
    ensures forall r, q: Page :: IsRoot(o, r) && q.i4 != RECURSIVE && !SameFrom(o[pt], i, r, q) ==>
              Walk(Store(s.mem, pt, i, e), r, q) == Walk(s.mem, r, q)
    ensures OtherEntries(s.mem, Store(s.mem, pt, i, e), o, pt, i)
    ensures Fresh(s, s.(mem := Store(s.mem, pt, i, e)), o, o)
    ensures Load(Store(s.mem, pt, i, e), pt, i) == e
  {
    hide WellFormed, Walk;
    TableEntry(s, o, pt, i);
    StoreLeafTrees(s, o, pt, i, e);
    forall r, q: Page | IsRoot(o, r) && q.i4 != RECURSIVE && !SameFrom(o[pt], i, r, q)
      ensures Walk(Store(s.mem, pt, i, e), r, q) == Walk(s.mem, r, q)
    {
      StoreFrame(s, o, pt, i, e, r, q);
    }
  }

  lemma StoreLeafTrees(s: Machine, o: Owners, pt: nat, i: Index, e: nat)
    requires WellFormed(s, o) && pt in o && o[pt].Pt?
    ensures WellFormed(s.(mem := Store(s.mem, pt, i, e)), o)
  {
    hide Reached;
    var m := Store(s.mem, pt, i, e);
    forall g, j: Index | g in o ensures GoodEntry(m, o, g, j) {
      assert GoodEntry(s.mem, o, g, j);
    }
    forall g | g in o ensures Reached(m, o, g) {
      ReachedKept(s, o, m, g);
    }
  }

  /** How many tables the chain of p lacks. */
  function Missing(m: Memory, root: nat, p: Page): nat {
    match Next(m, root, p.i4)
    case None => 3
    case Some(pdpt) => MissingBelow(m, pdpt, p)
  }

  function MissingBelow(m: Memory, pdpt: nat, p: Page): nat {
    match Next(m, pdpt, p.i3)
    case None => 2
    case Some(pd) => if Next(m, pd, p.i2).None? then 1 else 0
  }

  /** The chain of p ends in the page table pt. */
  predicate Chain(m: Memory, root: nat, p: Page, pt: nat) {
    Next(m, root, p.i4).Some? && ChainBelow(m, Next(m, root, p.i4).value, p, pt)
  }

  predicate ChainBelow(m: Memory, pdpt: nat, p: Page, pt: nat) {
    Next(m, pdpt, p.i3).Some? && Next(m, Next(m, pdpt, p.i3).value, p.i2) == Some(pt)
  }

  predicate SameRoots(m: Memory, m': Memory, o: Owners) {
    forall g, j: Index :: g in o && o[g].Pml4? ==> Load(m', g, j) == Load(m, g, j)
  }

  /** Entry 511 of every root is as it was. */
  predicate SameWindows(m: Memory, m': Memory, o: Owners) {
    forall g :: g in o && o[g].Pml4? ==> Load(m', g, RECURSIVE) == Load(m, g, RECURSIVE)
  }

  lemma MakeBelowKeeps(s: Machine, o: Owners, pdpt: nat, pid: nat, p: Page) returns (o': Owners)
    requires WellFormed(s, o) && pdpt in o && o[pdpt].Pdpt? && o[pdpt].a == p.i4
    requires pid % 256 != 0
    ensures var (s', pt) := MakeBelow(s, pdpt, pid, p);
            && WellFormed(s', o') && Extends(o, o') && Fresh(s, s', o, o')
            && SameWalks(s, s', o) && SameRoots(s.mem, s'.mem, o)
            && (pt.Some? <==> MissingBelow(s.mem, pdpt, p) <= |FreeFrames(s.bitmap)|)
            && |FreeFrames(s'.bitmap)| ==
               (if pt.Some? then |FreeFrames(s.bitmap)| - MissingBelow(s.mem, pdpt, p) else 0)
            && (pt.Some? ==> pt.value in o' && o'[pt.value] == Pt(o[pdpt].root, p.i4, p.i3, p.i2)
                             && ChainBelow(s'.mem, pdpt, p, pt.value))
  {
    hide WellFormed, Walk, Descend, Fresh;
    TableEntry(s, o, pdpt, p.i3);
    o' := DescendKeeps(s, o, pdpt, p.i3, pid);
    var (s1, pd) := Descend(s, pdpt, p.i3, pid);
    if pd.Some? {
      var o1 := o';
      TableEntry(s1, o1, pd.value, p.i2);
      o' := DescendKeeps(s1, o1, pd.value, p.i2, pid);
      FreshChain(s, s1, Descend(s1, pd.value, p.i2, pid).0, o, o1, o');
      if Present(Load(s.mem, pdpt, p.i3)) {
        assert MissingBelow(s.mem, pdpt, p) == if Present(Load(s1.mem, pd.value, p.i2)) then 0 else 1;
      } else {
        assert Load(s1.mem, pd.value, p.i2) == 0;
        assert MissingBelow(s.mem, pdpt, p) == 2;
      }
      var (s2, pt) := Descend(s1, pd.value, p.i2, pid);
      assert MakeBelow(s, pdpt, pid, p) == (s2, pt);
      assert pt.Some? <==> MissingBelow(s.mem, pdpt, p) <= |FreeFrames(s.bitmap)|;
    } else {
      assert MissingBelow(s.mem, pdpt, p) == 2;
      assert MakeBelow(s, pdpt, pid, p) == (s1, None);
    }
  }

  /** Making the tables succeeds exactly when enough frames are free, and changes no walk. */
  lemma MakeTablesKeeps(s: Machine, o: Owners, root: nat, pid: nat, p: Page) returns (o': Owners)
    requires WellFormed(s, o) && IsRoot(o, root)
    requires p.i4 != RECURSIVE && pid % 256 != 0
    ensures var (s', pt) := MakeTables(s, root, pid, p);
            && WellFormed(s', o') && Extends(o, o') && Fresh(s, s', o, o')
            && SameWalks(s, s', o) && SameWindows(s.mem, s'.mem, o)
            && (pt.Some? <==> Missing(s.mem, root, p) <= |FreeFrames(s.bitmap)|)
            && |FreeFrames(s'.bitmap)| ==
               (if pt.Some? then |FreeFrames(s.bitmap)| - Missing(s.mem, root, p) else 0)
            && (pt.Some? ==> pt.value in o' && o'[pt.value] == Pt(root, p.i4, p.i3, p.i2)
                             && Chain(s'.mem, root, p, pt.value))
  {
    hide WellFormed, Fresh;
    TableEntry(s, o, root, p.i4);
    o' := DescendKeeps(s, o, root, p.i4, pid);
    var (s1, pdpt) := Descend(s, root, p.i4, pid);
    if pdpt.Some? {
      var o1 := o';
      o' := MakeBelowKeeps(s1, o1, pdpt.value, pid, p);
      FreshChain(s, s1, MakeBelow(s1, pdpt.value, pid, p).0, o, o1, o');
    }
  }

  /**
   map_page succeeds exactly when the missing tables fit in the free frames.  Then the walk of p
   gives the entry asked for and every other page of every tree keeps its walk; otherwise no walk
   changes at all.
   */
  lemma MapPageCorrect(s: Machine, o: Owners, root: nat, pid: nat, p: Page, frame: nat, flags: nat)
    returns (o': Owners)
    requires WellFormed(s, o) && IsRoot(o, root)
    requires p.i4 != RECURSIVE && flags < 4096 && pid % 256 != 0
    ensures var (s', ok) := MapPage(s, root, pid, p, frame, flags);
            && WellFormed(s', o') && Extends(o, o') && Fresh(s, s', o, o') && SameWindows(s.mem, s'.mem, o)
            && (ok <==> Missing(s.mem, root, p) <= |FreeFrames(s.bitmap)|)
            && |FreeFrames(s'.bitmap)| == (if ok then |FreeFrames(s.bitmap)| - Missing(s.mem, root, p) else 0)
            && (ok ==> Walk(s'.mem, root, p) == if Present(flags) then Some(Entry(frame, flags)) else None)
            && (!ok ==> SameWalks(s, s', o))
            && (forall r: nat, q: Page :: IsRoot(o, r) && q.i4 != RECURSIVE && !(r == root && q == p) ==>
                 Walk(s'.mem, r, q) == Walk(s.mem, r, q))
  {
    hide WellFormed, Fresh;
    o' := MakeTablesKeeps(s, o, root, pid, p);
    var (s1, pt) := MakeTables(s, root, pid, p);
    if pt.Some? {
      EntryFields(frame, flags);
      StoreLeaf(s1, o', pt.value, p.i1, Entry(frame, flags));
      FreshChain(s, s1, s1.(mem := Store(s1.mem, pt.value, p.i1, Entry(frame, flags))), o, o', o');
      WalkPlaces(s1, o', root, p);
    }
  }

  /** unmap_page leaves p without a translation and every other page with its own. */
  lemma UnmapPageCorrect(s: Machine, o: Owners, root: nat, p: Page)
    requires WellFormed(s, o) && IsRoot(o, root) && p.i4 != RECURSIVE
    ensures WellFormed(UnmapPage(s, root, p), o) && SameWindows(s.mem, UnmapPage(s, root, p).mem, o)
    ensures Fresh(s, UnmapPage(s, root, p), o, o)
    ensures Walk(UnmapPage(s, root, p).mem, root, p) == None
    ensures forall r: nat, q: Page :: IsRoot(o, r) && q.i4 != RECURSIVE && !(r == root && q == p) ==>
              Walk(UnmapPage(s, root, p).mem, r, q) == Walk(s.mem, r, q)
  {
    hide WellFormed;
    WalkPlaces(s, o, root, p);
    if Walk(s.mem, root, p).Some? {
      var pdpt := Next(s.mem, root, p.i4).value;
      var pd := Next(s.mem, pdpt, p.i3).value;
      var pt := Next(s.mem, pd, p.i2).value;
      StoreLeaf(s, o, pt, p.i1, 0);
    }
  }

  /** is_page_mapped: follows the entries as pointers, looking at "present" bits only. */
  function IsPageMapped(m: Memory, root: nat, p: Page): Option<nat> {
    var e4 := Load(m, root, p.i4);
    if !Present(e4) then None
    else
      var e3 := Load(m, FrameOf(e4), p.i3);
      if !Present(e3) then None
      else
        var e2 := Load(m, FrameOf(e3), p.i2);
        if !Present(e2) then None
        else Leaf(m, FrameOf(e2), p.i1)
  }

  /** On a well-formed tree the software walk and the processor's walk agree. */
  lemma IsPageMappedIsWalk(s: Machine, o: Owners, root: nat, p: Page)
    requires WellFormed(s, o) && IsRoot(o, root) && p.i4 != RECURSIVE
    ensures IsPageMapped(s.mem, root, p) == Walk(s.mem, root, p)
  {
    assert GoodEntry(s.mem, o, root, p.i4);
    WalkPlaces(s, o, root, p);
    if Next(s.mem, root, p.i4).Some? {
      var pdpt := Next(s.mem, root, p.i4).value;
      assert GoodEntry(s.mem, o, pdpt, p.i3);
      if Next(s.mem, pdpt, p.i3).Some? {
        assert GoodEntry(s.mem, o, Next(s.mem, pdpt, p.i3).value, p.i2);
      }
    }
  }

  /**
   Two allocations in a row give different frames exactly when the first pid leaves a mark, that
   is, when its low byte is not 0.
   */
  lemma AllocateTwice(s: Machine, pid: nat, pid2: nat)
    requires FirstFree(s.bitmap, 0).Some?
    ensures var (s1, a) := Allocate(s, pid);
            Allocate(s1, pid2).1 != a <==> pid % 256 != 0
  {
    var f := FirstFree(s.bitmap, 0).value;
    var b := s.bitmap[f := pid % 256];
    var g := FirstFree(b, 0);
    if pid % 256 == 0 {
      assert g.Some? by { assert b[f] == 0; }
    }
  }

  /**
   Why the window is not for mapping: a page there is a table, and mapping (511, 511, 511, x)
   replaces entry x of the root, with all the pages below it.
   */
  lemma MapInWindow(s: Machine, o: Owners, root: nat, pid: nat, x: Index, frame: nat, flags: nat)
    requires WellFormed(s, o) && IsRoot(o, root) && Next(s.mem, root, RECURSIVE) == Some(root)
    ensures var (s', ok) := MapPage(s, root, pid, Page(511, 511, 511, x), frame, flags);
            ok && Load(s'.mem, root, x) == Entry(frame, flags) && s'.bitmap == s.bitmap
  {
    TableEntry(s, o, root, x);
    assert Descend(s, root, RECURSIVE, pid) == (s, Some(root));
  }
}
