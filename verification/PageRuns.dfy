/**
 Whole runs: several trees side by side, one root active, and any sequence of mapping,
 unmapping, marking, frame allocation, window redirection, root switching and process creation,
 against a map from roots and pages to entries.
 */
module PageRuns {
  import opened Common
  import opened Paging
  import opened RecursiveWindow
  import opened PageRange

  /** The machine and the active root. */
  datatype Sys = Sys(s: Machine, k: nat)

  datatype Op =
    | Map(pid: nat, p: Page, frame: nat, flags: nat)
    | Unmap(p: Page)
    | MarkCell(n: nat, pid: nat)   // map_memory_range: the byte map is marked at a virtual page number
    | Grab(pid: nat)               // allocate_page for any other use
    | Redirect(root: nat)          // alloc_proc: entry 511 of the active root is pointed elsewhere
    | Activate(root: nat)          // set_pml4_address
    | NewRoot(pid: nat)            // alloc_proc: a frame for a PML4, its entry 511 pointing to itself

  /** What a call returns: whether it found the frames it needed, and the frame it gives its caller. */
  datatype Outcome = Outcome(ok: bool, frame: Option<nat>)

  const DONE := Outcome(true, None)

  function SetWindow(m: Memory, r: nat, target: nat): Memory { Store(m, r, RECURSIVE, Entry(target, MAP_FLAGS)) }

  /** The tree that the window shows. */
  function ShownBy(y: Sys): nat { FrameOf(Load(y.s.mem, y.k, RECURSIVE)) }

  function Step(y: Sys, op: Op): (Sys, Outcome) {
    match op
    case Map(pid, p, frame, flags) =>
      var (s', ok) := MapPage(y.s, ShownBy(y), pid, p, frame, flags);
      (y.(s := s'), Outcome(ok, None))
    case Unmap(p) => (y.(s := UnmapPage(y.s, ShownBy(y), p)), DONE)
    case MarkCell(n, pid) => (y.(s := Mark(y.s, n, pid % 256)), DONE)
    case Grab(pid) =>
      var (s', f) := Allocate(y.s, pid);
      (y.(s := s'), Outcome(f.Some?, f))
    case Redirect(root) => (y.(s := y.s.(mem := SetWindow(y.s.mem, y.k, root))), DONE)
    case Activate(root) => (y.(k := root), DONE)
    case NewRoot(pid) =>
      match Allocate(y.s, pid)
      case (s', None) => (y.(s := s'), Outcome(false, None))
      case (s', Some(f)) => (y.(s := s'.(mem := SetWindow(s'.mem, f, f))), Outcome(true, Some(f)))
  }

  // ---------------------------------------------------------------- the plain model

  /**
   The active root, the root whose tree calls edit, all roots, the frames handed out for other
   uses, the cells marked as used, and the translations of every root.
   */
  datatype View =
    View(active: nat, shown: nat, roots: set<nat>, held: set<nat>, used: set<nat>, table: map<(nat, Page), nat>)

  function Lookup(v: View, r: nat, q: Page): Option<nat> {
    if (r, q) in v.table then Some(v.table[(r, q)]) else None
  }

  /** What an operation does, given only what it returned. */
  function After(v: View, op: Op, out: Outcome): View {
    match op
    case Map(pid, p, frame, flags) =>
      if !out.ok then v
      else if Present(flags) then v.(table := v.table[(v.shown, p) := Entry(frame, flags)])
      else v.(table := v.table - {(v.shown, p)})
    case Unmap(p) => v.(table := v.table - {(v.shown, p)})
    case MarkCell(n, _) => v.(used := v.used + {n})
    case Grab(_) => if out.frame.Some? then v.(held := v.held + {out.frame.value}) else v
    case Redirect(root) => v.(shown := root)
    case Activate(root) => v.(active := root, shown := root)
    case NewRoot(_) => if out.frame.Some? then v.(roots := v.roots + {out.frame.value}) else v
  }

  /** A frame without present entries, apart from entry 511. */
  predicate Blank(m: Memory, f: nat) {
    forall i: Index :: i != RECURSIVE ==> !Present(Load(m, f, i))
  }

  /** What callers must see to. */
  predicate Legal(y: Sys, v: View, op: Op) {
    match op
    case Map(pid, p, frame, flags) => pid % 256 != 0 && p.i4 != RECURSIVE && flags < 4096
    case Unmap(p) => p.i4 != RECURSIVE
    case MarkCell(_, pid) => pid % 256 != 0
    case Grab(pid) => pid % 256 != 0
    case Redirect(root) => root in v.roots
    case Activate(root) => root in v.roots && v.shown == v.active
    case NewRoot(pid) => pid % 256 != 0 && (FirstFree(y.s.bitmap, 0).Some? ==> Blank(y.s.mem, FirstFree(y.s.bitmap, 0).value))
  }

  /** Every root but the active one shows itself in its window; the active one shows v.shown. */
  ghost predicate Windows(y: Sys, v: View) {
    && v.active == y.k && v.active in v.roots && v.shown in v.roots
    && Next(y.s.mem, y.k, RECURSIVE) == Some(v.shown)
    && (forall r :: r in v.roots && r != y.k ==> Next(y.s.mem, r, RECURSIVE) == Some(r))
  }

  /** Frames handed out are in use and are no tables. */
  ghost predicate Holds(s: Machine, o: Owners, held: set<nat>) {
    forall f :: f in held ==> f < |s.bitmap| && s.bitmap[f] != 0 && f !in o
  }

  /** The processor translates every page of every root as the map does. */
  ghost predicate Agrees(m: Memory, v: View) {
    && (forall r: nat, q: Page :: r in v.roots && q.i4 != RECURSIVE ==> Walk(m, r, q) == Lookup(v, r, q))
    && (forall r: nat, q: Page :: (r, q) in v.table ==> r in v.roots)
  }

  /** Marked cells are not free. */
  ghost predicate InUse(s: Machine, used: set<nat>) {
    forall f :: f in used && f < |s.bitmap| ==> s.bitmap[f] != 0
  }

  ghost predicate RootsOf(o: Owners, roots: set<nat>) {
    forall r :: r in roots <==> IsRoot(o, r)
  }

  ghost predicate Inv(y: Sys, v: View, o: Owners) {
    && WellFormed(y.s, o) && RootsOf(o, v.roots) && Windows(y, v)
    && Holds(y.s, o, v.held) && InUse(y.s, v.used) && Agrees(y.s.mem, v)
  }

  // ---------------------------------------------------------------- one step at a time

  lemma ShownIs(y: Sys, v: View, o: Owners)
    requires Inv(y, v, o)
    ensures ShownBy(y) == v.shown && IsRoot(o, v.shown) && IsRoot(o, y.k) && Shows(y.s.mem, y.k, v.shown)
  {
    hide WellFormed, Walk;
  }

  /** A step that spares used frames keeps what was handed out. */
  lemma HoldsOn(s: Machine, s': Machine, o: Owners, o': Owners, held: set<nat>)
    requires Holds(s, o, held) && Spares(s, s', o, o')
    ensures Holds(s', o', held)
    ensures forall used :: InUse(s, used) ==> InUse(s', used)
  {
    hide Load;
  }

  /** Pointing a root's window at a root keeps the trees and every walk. */
  lemma SetWindowKeeps(s: Machine, o: Owners, r: nat, target: nat)
    requires WellFormed(s, o) && IsRoot(o, r) && IsRoot(o, target)
    ensures var s' := s.(mem := SetWindow(s.mem, r, target));
            && WellFormed(s', o) && SameWalks(s, s', o) && Spares(s, s', o, o)
            && Next(s'.mem, r, RECURSIVE) == Some(target)
            && forall g :: g in o && g != r ==> Load(s'.mem, g, RECURSIVE) == Load(s.mem, g, RECURSIVE)
  {
    hide WellFormed, Walk, Load, Store, Entry;
    TableEntry(s, o, r, RECURSIVE);
    EntryFields(target, MAP_FLAGS);
    var m := SetWindow(s.mem, r, target);
    WindowTrees(s, o, r, target);
    StoreLoaded(s.mem, r, RECURSIVE, Entry(target, MAP_FLAGS));
    forall g, j: Index | !(g == r && j == RECURSIVE) ensures Load(m, g, j) == Load(s.mem, g, j) {
      StoreLoad(s.mem, r, RECURSIVE, Entry(target, MAP_FLAGS), g, j);
    }
    forall x: nat, q: Page | IsRoot(o, x) && q.i4 != RECURSIVE ensures Walk(m, x, q) == Walk(s.mem, x, q) {
      StoreFrame(s, o, r, RECURSIVE, Entry(target, MAP_FLAGS), x, q);
    }
  }

  lemma StoreLoaded(m: Memory, f: nat, i: Index, e: nat)
    requires f in m && |m[f]| == 512
    ensures Load(Store(m, f, i, e), f, i) == e
  {}

  lemma WindowTrees(s: Machine, o: Owners, r: nat, target: nat)
    requires WellFormed(s, o) && IsRoot(o, r) && IsRoot(o, target)
    ensures WellFormed(s.(mem := SetWindow(s.mem, r, target)), o)
  {
    hide Reached;
    EntryFields(target, MAP_FLAGS);
    var m := SetWindow(s.mem, r, target);
    forall g, j: Index | g in o ensures GoodEntry(m, o, g, j) {
      assert GoodEntry(s.mem, o, g, j);
    }
    forall g | g in o ensures Reached(m, o, g) {
      ReachedKept(s, o, m, g);
    }
  }

  /** Marking a free frame keeps the trees, and hands out a frame that was free. */
  lemma GrabKeeps(s: Machine, o: Owners, pid: nat)
    requires WellFormed(s, o) && pid % 256 != 0
    ensures var (s', c) := Allocate(s, pid);
            && WellFormed(s', o) && s'.mem == s.mem && Spares(s, s', o, o)
            && (c.Some? ==>
                  && 0 < c.value < |s.bitmap| && s.bitmap[c.value] == 0 && s'.bitmap[c.value] != 0
                  && c.value !in o && c.value in s.mem && |s.mem[c.value]| == 512)
  {
    hide GoodEntry, Reached, Load;
    var s' := Allocate(s, pid).0;
    forall g, j: Index | g in o ensures GoodEntry(s'.mem, o, g, j) {
      assert GoodEntry(s.mem, o, g, j);
    }
    forall g | g in o ensures Reached(s'.mem, o, g) {
      assert Reached(s.mem, o, g);
    }
  }

  // ---------------------------------------------------------------- a new root

  /** The PML4 f is the only table that o' has and o does not; roots stay roots. */
  ghost predicate AddsRoot(o: Owners, o': Owners, f: nat) {
    o'.Keys == o.Keys + {f} && IsRoot(o', f) && forall r :: IsRoot(o, r) ==> IsRoot(o', r)
  }

  /**
   alloc_proc takes a frame for a PML4 and writes only its entry 511.  The frame is a new tree of
   one table, beside the trees there were, exactly when it came without present entries.
   */
  lemma NewRootWellFormed(s: Machine, o: Owners, f: nat)
    requires WellFormed(s, o) && f !in o && f < |s.bitmap| && s.bitmap[f] != 0
    ensures (exists o' :: AddsRoot(o, o', f) && WellFormed(s.(mem := SetWindow(s.mem, f, f)), o')) <==> Blank(s.mem, f)
    ensures Blank(s.mem, f) ==> WellFormed(s.(mem := SetWindow(s.mem, f, f)), o[f := Pml4(f)])
  {
    hide WellFormed, SetWindow;
    var s' := s.(mem := SetWindow(s.mem, f, f));
    if Blank(s.mem, f) {
      BlankTree(s, o, f);
      assert AddsRoot(o, o[f := Pml4(f)], f);
    } else {
      var i: Index :| i != RECURSIVE && Present(Load(s.mem, f, i));
      forall o' | AddsRoot(o, o', f) ensures !WellFormed(s', o') {
        if WellFormed(s', o') { StrayTable(s, o, f, o', i); }
      }
    }
  }

  lemma BlankTree(s: Machine, o: Owners, f: nat)
    requires WellFormed(s, o) && f !in o && f < |s.bitmap| && s.bitmap[f] != 0 && Blank(s.mem, f)
    ensures WellFormed(s.(mem := SetWindow(s.mem, f, f)), o[f := Pml4(f)])
  {
    hide Reached, GoodEntry, Blank, SetWindow;
    var m, o' := SetWindow(s.mem, f, f), o[f := Pml4(f)];
    NewRootLinks(s, o, f);
    forall g, j: Index | g in o' ensures GoodEntry(m, o', g, j) {
      NewRootEntry(s, o, f, g, j);
    }
    forall g | g in o' ensures Reached(m, o', g) {
      if g != f { ReachedKept(s, o, m, g); }
      NewRootReached(m, o, f, g);
    }
    StoreKeepsSize(s.mem, f, |s.bitmap|);
  }

  lemma StoreKeepsSize(m: Memory, f: nat, frames: nat)
    requires Complete(m, frames)
    ensures Complete(SetWindow(m, f, f), frames)
  {}

  lemma NewRootReached(m: Memory, o: Owners, f: nat, g: nat)
    requires f !in o && (g == f || (g in o && Reached(m, o, g)))
    ensures Reached(m, o[f := Pml4(f)], g)
  {}

  /** Writing to a frame that is no table keeps all links. */
  lemma NewRootLinks(s: Machine, o: Owners, f: nat)
    requires f !in o
    ensures KeepsLinks(s.mem, SetWindow(s.mem, f, f), o)
  {
    forall g, j: Index | g in o ensures Load(SetWindow(s.mem, f, f), g, j) == Load(s.mem, g, j) {
      StoreLoad(s.mem, f, RECURSIVE, Entry(f, MAP_FLAGS), g, j);
    }
  }

  lemma NewRootEntry(s: Machine, o: Owners, f: nat, g: nat, j: Index)
    requires WellFormed(s, o) && f !in o && f < |s.bitmap| && Blank(s.mem, f) && (g in o || g == f)
    ensures GoodEntry(SetWindow(s.mem, f, f), o[f := Pml4(f)], g, j)
  {
    EntryFields(f, MAP_FLAGS);
    StoreLoad(s.mem, f, RECURSIVE, Entry(f, MAP_FLAGS), g, j);
    if g != f {
      TableEntry(s, o, g, j);
    }
  }

  /** A present entry of the new root needs a table below it, and no frame of the other trees is that. */
  lemma StrayTable(s: Machine, o: Owners, f: nat, o': Owners, i: Index)
    requires WellFormed(s, o) && f !in o && AddsRoot(o, o', f)
    requires WellFormed(s.(mem := SetWindow(s.mem, f, f)), o')
    requires i != RECURSIVE
    ensures !Present(Load(s.mem, f, i))
  {
    hide WellFormed, SetWindow, Load;
    var s' := s.(mem := SetWindow(s.mem, f, f));
    StoreLoadWindow(s.mem, f, i);
    TableEntry(s', o', f, i);
    if Present(Load(s.mem, f, i)) {
      var g := FrameOf(Load(s.mem, f, i));
      assert g in o' && o'[g] == Pdpt(f, i);
      OldPlace(s, o, f, o', g);
    }
  }

  /**
   With a stale entry the frame can be a tree too, but not alone: a used frame nobody meant for a
   table becomes one.
   */
  lemma StaleEntryAdopts(s: Machine, o: Owners, f: nat, i: Index, g: nat)
    requires WellFormed(s, o) && f !in o && g !in o && f != g && i != RECURSIVE
    requires f < |s.bitmap| && g < |s.bitmap| && s.bitmap[f] != 0 && s.bitmap[g] != 0
    requires Load(s.mem, f, i) == Entry(g, MAP_FLAGS)
    requires forall j: Index :: j != i && j != RECURSIVE ==> !Present(Load(s.mem, f, j))
    requires forall j: Index :: !Present(Load(s.mem, g, j))
    ensures !Blank(s.mem, f)
    ensures WellFormed(s.(mem := SetWindow(s.mem, f, f)), o[f := Pml4(f)][g := Pdpt(f, i)])
  {
    hide Reached, GoodEntry, SetWindow, Entry;
    var m, o' := SetWindow(s.mem, f, f), o[f := Pml4(f)][g := Pdpt(f, i)];
    EntryFields(g, MAP_FLAGS);
    NewRootLinks(s, o, f);
    StoreKeepsSize(s.mem, f, |s.bitmap|);
    forall h, j: Index | h in o' ensures GoodEntry(m, o', h, j) {
      AdoptedEntry(s, o, f, i, g, h, j);
    }
    forall h | h in o' ensures Reached(m, o', h) {
      if h in o { ReachedKept(s, o, m, h); }
      AdoptedReached(s, o, f, i, g, h);
    }
  }

  lemma AdoptedEntry(s: Machine, o: Owners, f: nat, i: Index, g: nat, h: nat, j: Index)
    requires WellFormed(s, o) && f !in o && g !in o && f != g && i != RECURSIVE && f < |s.bitmap|
    requires Load(s.mem, f, i) == Entry(g, MAP_FLAGS)
    requires forall k: Index :: k != i && k != RECURSIVE ==> !Present(Load(s.mem, f, k))
    requires forall k: Index :: !Present(Load(s.mem, g, k))
    requires h in o || h == f || h == g
    ensures GoodEntry(SetWindow(s.mem, f, f), o[f := Pml4(f)][g := Pdpt(f, i)], h, j)
  {
    EntryFields(f, MAP_FLAGS);
    EntryFields(g, MAP_FLAGS);
    StoreLoad(s.mem, f, RECURSIVE, Entry(f, MAP_FLAGS), h, j);
    if h in o {
      TableEntry(s, o, h, j);
    }
  }

  lemma AdoptedReached(s: Machine, o: Owners, f: nat, i: Index, g: nat, h: nat)
    requires f !in o && g !in o && f != g && i != RECURSIVE && Load(s.mem, f, i) == Entry(g, MAP_FLAGS)
    requires h == f || h == g || (h in o && Reached(SetWindow(s.mem, f, f), o, h))
    ensures Reached(SetWindow(s.mem, f, f), o[f := Pml4(f)][g := Pdpt(f, i)], h)
  {
    hide SetWindow, Load, Entry, FrameOf;
    EntryFields(g, MAP_FLAGS);
    StoreLoadWindow(s.mem, f, i);
  }

  lemma StoreLoadWindow(m: Memory, f: nat, i: Index)
    requires i != RECURSIVE
    ensures Load(SetWindow(m, f, f), f, i) == Load(m, f, i)
  {
    StoreLoad(m, f, RECURSIVE, Entry(f, MAP_FLAGS), f, i);
  }

  /** The tables there were keep their places in any owner map. */
  lemma OldPlace(s: Machine, o: Owners, f: nat, o': Owners, g: nat)
    requires WellFormed(s, o) && f !in o && AddsRoot(o, o', f)
    requires WellFormed(s.(mem := SetWindow(s.mem, f, f)), o')
    ensures g in o ==> g in o' && o'[g] == o[g] && o[g].root != f
  {
    hide WellFormed, SetWindow, KeepsLinks;
    var s' := s.(mem := SetWindow(s.mem, f, f));
    if g in o {
      ReachedIn(s, o, g);
      NewRootLinks(s, o, f);
      TableAtIn(s, o, s'.mem, o[g]);
      LinksSame(s'.mem, o');
      TableAtIn(s', o', s'.mem, o[g]);
    }
  }

  lemma LinksSame(m: Memory, o: Owners)
    ensures KeepsLinks(m, m, o)
  {}

  lemma NewRootWalks(s: Machine, o: Owners, f: nat)
    requires WellFormed(s, o) && f !in o && f < |s.bitmap|
    ensures SameWalks(s, s.(mem := SetWindow(s.mem, f, f)), o)
    ensures forall g :: g in o ==> Load(SetWindow(s.mem, f, f), g, RECURSIVE) == Load(s.mem, g, RECURSIVE)
  {
    hide Reached, GoodEntry;
    forall r: nat, q: Page | IsRoot(o, r) && q.i4 != RECURSIVE
      ensures Walk(SetWindow(s.mem, f, f), r, q) == Walk(s.mem, r, q)
    {
      FillFrame(s, o, f, SetWindow(s.mem, f, f)[f], r, q);
    }
  }

  lemma NewRootShowsItself(s: Machine, f: nat)
    requires f in s.mem && |s.mem[f]| == 512
    ensures Next(SetWindow(s.mem, f, f), f, RECURSIVE) == Some(f)
  {
    EntryFields(f, MAP_FLAGS);
  }

  /** A new root translates nothing. */
  lemma BlankWalk(m: Memory, f: nat, q: Page)
    requires Blank(m, f) && q.i4 != RECURSIVE
    ensures Walk(SetWindow(m, f, f), f, q) == None
  {
    StoreLoad(m, f, RECURSIVE, Entry(f, MAP_FLAGS), f, q.i4);
  }

  /** Writing to a frame that was free spares the used ones. */
  lemma NewRootSpares(s: Machine, s1: Machine, o: Owners, f: nat)
    requires f < |s.bitmap| == |s1.bitmap| && s.bitmap[f] == 0
    requires s1.mem == s.mem && s1.bitmap == s.bitmap[f := s1.bitmap[f]]
    ensures Spares(s, s1.(mem := SetWindow(s1.mem, f, f)), o, o[f := Pml4(f)])
  {
    forall g, j: Index | g != f ensures Load(SetWindow(s.mem, f, f), g, j) == Load(s.mem, g, j) {
      StoreLoad(s.mem, f, RECURSIVE, Entry(f, MAP_FLAGS), g, j);
    }
  }

  // ---------------------------------------------------------------- every step

  /** Tables stay tables. */
  predicate Grows(o: Owners, o': Owners) { forall g :: g in o ==> g in o' }

  /** What a step promises beside the invariant: used frames are spared, and a frame handed out was free. */
  ghost predicate Careful(s: Machine, s': Machine, o: Owners, o': Owners, out: Outcome) {
    && Grows(o, o') && Spares(s, s', o, o')
    && (out.frame.Some? ==>
          && out.frame.value < |s.bitmap| == |s'.bitmap|
          && s.bitmap[out.frame.value] == 0 && s'.bitmap[out.frame.value] != 0)
  }

  lemma MapStep(y: Sys, v: View, o: Owners, pid: nat, p: Page, frame: nat, flags: nat) returns (o': Owners)
    requires Inv(y, v, o) && Legal(y, v, Map(pid, p, frame, flags))
    ensures var (y', out) := Step(y, Map(pid, p, frame, flags));
            Inv(y', After(v, Map(pid, p, frame, flags), out), o') && Careful(y.s, y'.s, o, o', out)
  {
    hide WellFormed, Walk, MapPage, Spares, Fresh, Holds, InUse;
    ShownIs(y, v, o);
    o' := MapPageCorrect(y.s, o, v.shown, pid, p, frame, flags);
    var (s', ok) := MapPage(y.s, v.shown, pid, p, frame, flags);
    FreshSpares(y.s, s', o, o');
    HoldsOn(y.s, s', o, o', v.held);
    var v' := After(v, Map(pid, p, frame, flags), Outcome(ok, None));
    forall r: nat, q: Page | r in v'.roots && q.i4 != RECURSIVE ensures Walk(s'.mem, r, q) == Lookup(v', r, q) {
      assert Walk(y.s.mem, r, q) == Lookup(v, r, q);
    }
  }

  lemma UnmapStep(y: Sys, v: View, o: Owners, p: Page)
    requires Inv(y, v, o) && Legal(y, v, Unmap(p))
    ensures var (y', out) := Step(y, Unmap(p)); Inv(y', After(v, Unmap(p), out), o) && Careful(y.s, y'.s, o, o, out)
  {
    hide WellFormed, Walk, UnmapPage, Spares, Fresh, Holds, InUse;
    ShownIs(y, v, o);
    UnmapPageCorrect(y.s, o, v.shown, p);
    var s' := UnmapPage(y.s, v.shown, p);
    FreshSpares(y.s, s', o, o);
    HoldsOn(y.s, s', o, o, v.held);
    var v' := After(v, Unmap(p), DONE);
    forall r: nat, q: Page | r in v'.roots && q.i4 != RECURSIVE ensures Walk(s'.mem, r, q) == Lookup(v', r, q) {
      assert Walk(y.s.mem, r, q) == Lookup(v, r, q);
    }
  }

  lemma MarkStep(y: Sys, v: View, o: Owners, n: nat, pid: nat)
    requires Inv(y, v, o) && Legal(y, v, MarkCell(n, pid))
    ensures var (y', out) := Step(y, MarkCell(n, pid));
            Inv(y', After(v, MarkCell(n, pid), out), o) && Careful(y.s, y'.s, o, o, out)
  {
    hide WellFormed, Walk, Spares, Holds;
    MarkKeeps(y.s, o, n, pid % 256);
    HoldsOn(y.s, Mark(y.s, n, pid % 256), o, o, v.held);
    assert n < |y.s.bitmap| ==> Mark(y.s, n, pid % 256).bitmap[n] == pid % 256;
  }

  lemma GrabStep(y: Sys, v: View, o: Owners, pid: nat)
    requires Inv(y, v, o) && Legal(y, v, Grab(pid))
    ensures var (y', out) := Step(y, Grab(pid));
            Inv(y', After(v, Grab(pid), out), o) && Careful(y.s, y'.s, o, o, out)
  {
    hide WellFormed, Walk, Spares, Allocate, Load;
    GrabKeeps(y.s, o, pid);
    HoldsOn(y.s, Allocate(y.s, pid).0, o, o, v.held);
    SparesLength(y.s, Allocate(y.s, pid).0, o, o);
  }

  lemma SparesLength(s: Machine, s': Machine, o: Owners, o': Owners)
    requires Spares(s, s', o, o')
    ensures |s'.bitmap| == |s.bitmap|
  {}

  lemma RedirectStep(y: Sys, v: View, o: Owners, root: nat)
    requires Inv(y, v, o) && Legal(y, v, Redirect(root))
    ensures var (y', out) := Step(y, Redirect(root));
            Inv(y', After(v, Redirect(root), out), o) && Careful(y.s, y'.s, o, o, out)
  {
    hide WellFormed, Walk, Spares, SetWindow, Load, Holds, InUse;
    ShownIs(y, v, o);
    SetWindowKeeps(y.s, o, y.k, root);
    HoldsOn(y.s, y.s.(mem := SetWindow(y.s.mem, y.k, root)), o, o, v.held);
  }

  lemma NewRootStep(y: Sys, v: View, o: Owners, pid: nat) returns (o': Owners)
    requires Inv(y, v, o) && Legal(y, v, NewRoot(pid))
    ensures var (y', out) := Step(y, NewRoot(pid));
            Inv(y', After(v, NewRoot(pid), out), o') && Careful(y.s, y'.s, o, o', out)
  {
    hide WellFormed, Walk, Spares, SetWindow, Load, Blank, Holds, InUse;
    o' := o;
    GrabKeeps(y.s, o, pid);
    var (s1, c) := Allocate(y.s, pid);
    SparesLength(y.s, s1, o, o);
    HoldsOn(y.s, s1, o, o, v.held);
    if c.Some? {
      var f := c.value;
      o' := o[f := Pml4(f)];
      var s' := s1.(mem := SetWindow(s1.mem, f, f));
      NewRootWellFormed(s1, o, f);
      NewRootShowsItself(s1, f);
      NewRootWalks(s1, o, f);
      NewRootSpares(y.s, s1, o, f);
      HoldsOn(y.s, s', o, o', v.held);
      forall q: Page | q.i4 != RECURSIVE ensures Walk(s'.mem, f, q) == None {
        BlankWalk(s1.mem, f, q);
      }
    }
  }

  /** Every legal step keeps the invariant, does what `After` says, and spares the frames in use. */
  lemma StepKeeps(y: Sys, v: View, o: Owners, op: Op) returns (o': Owners)
    requires Inv(y, v, o) && Legal(y, v, op)
    ensures var (y', out) := Step(y, op);
            Inv(y', After(v, op, out), o') && Careful(y.s, y'.s, o, o', out)
  {
    hide Inv, Careful, Step, After;
    o' := o;
    match op
    case Map(pid, p, frame, flags) => o' := MapStep(y, v, o, pid, p, frame, flags);
    case Unmap(p) => UnmapStep(y, v, o, p);
    case MarkCell(n, pid) => MarkStep(y, v, o, n, pid);
    case Grab(pid) => GrabStep(y, v, o, pid);
    case Redirect(root) => RedirectStep(y, v, o, root);
    case Activate(root) => ActivateStep(y, v, o, root);
    case NewRoot(pid) => o' := NewRootStep(y, v, o, pid);
  }

  lemma ActivateStep(y: Sys, v: View, o: Owners, root: nat)
    requires Inv(y, v, o) && Legal(y, v, Activate(root))
    ensures var (y', out) := Step(y, Activate(root));
            Inv(y', After(v, Activate(root), out), o) && Careful(y.s, y'.s, o, o, out)
  {
    hide WellFormed, Walk, Load;
  }

  // ---------------------------------------------------------------- runs

  function Run(y: Sys, ops: seq<Op>): Sys
    decreases |ops|
  {
    if ops == [] then y else Run(Step(y, ops[0]).0, ops[1..])
  }

  /** What the calls of a run return. */
  function Outcomes(y: Sys, ops: seq<Op>): (outs: seq<Outcome>)
    ensures |outs| == |ops|
    decreases |ops|
  {
    if ops == [] then [] else [Step(y, ops[0]).1] + Outcomes(Step(y, ops[0]).0, ops[1..])
  }

  /** The plain model's run: from the operations and what they returned. */
  function Play(v: View, ops: seq<Op>, outs: seq<Outcome>): View
    requires |outs| == |ops|
    decreases |ops|
  {
    if ops == [] then v else Play(After(v, ops[0], outs[0]), ops[1..], outs[1..])
  }

  predicate LegalRun(y: Sys, v: View, ops: seq<Op>)
    decreases |ops|
  {
    ops == [] ||
    (Legal(y, v, ops[0]) && var (y', out) := Step(y, ops[0]); LegalRun(y', After(v, ops[0], out), ops[1..]))
  }

  /**
   Over every legal run the trees stay well formed and apart, and the processor translates every
   page of every root, those made on the way included, as the plain map does; frames in use that
   are no tables are neither taken nor written.
   */
  lemma {:induction false} RunRefinesMap(y: Sys, v: View, o: Owners, ops: seq<Op>) returns (o': Owners)
    requires Inv(y, v, o) && LegalRun(y, v, ops)
    ensures Inv(Run(y, ops), Play(v, ops, Outcomes(y, ops)), o')
    ensures Grows(o, o') && Spares(y.s, Run(y, ops).s, o, o')
    decreases |ops|
  {
    hide Inv, Legal, Step, After, Spares;
    if ops == [] {
      o' := o;
      SparesSame(y.s, o);
    } else {
      var (y1, out) := Step(y, ops[0]);
      var o1 := StepKeeps(y, v, o, ops[0]);
      o' := RunRefinesMap(y1, After(v, ops[0], out), o1, ops[1..]);
      assert Outcomes(y, ops)[1..] == Outcomes(y1, ops[1..]);
      SparesChain(y.s, y1.s, Run(y1, ops[1..]).s, o, o1, o');
    }
  }

  /** A frame handed out before a run is in use after it, is no table, and has kept its words. */
  lemma HeldKept(y: Sys, v: View, o: Owners, ops: seq<Op>, f: nat, j: Index) returns (o': Owners)
    requires Inv(y, v, o) && LegalRun(y, v, ops) && f in v.held
    ensures var y' := Run(y, ops);
            && Inv(y', Play(v, ops, Outcomes(y, ops)), o')
            && f !in o' && f < |y'.s.bitmap| && y'.s.bitmap[f] != 0
            && Load(y'.s.mem, f, j) == Load(y.s.mem, f, j)
  {
    hide Run, Play, WellFormed, Windows, Agrees, Load, LegalRun;
    o' := RunRefinesMap(y, v, o, ops);
    SparesKeeps(y.s, Run(y, ops).s, o, o', f, j);
  }

  /** A frame in use is never handed out. */
  lemma {:induction false} UsedNotHanded(y: Sys, v: View, o: Owners, ops: seq<Op>, f: nat, j: nat)
    requires Inv(y, v, o) && LegalRun(y, v, ops) && f < |y.s.bitmap| && y.s.bitmap[f] != 0 && j < |ops|
    ensures Outcomes(y, ops)[j].frame != Some(f)
    decreases |ops|
  {
    hide Inv, Legal, Step, After;
    var (y1, out) := Step(y, ops[0]);
    var o1 := StepKeeps(y, v, o, ops[0]);
    if j > 0 {
      assert Outcomes(y, ops)[j] == Outcomes(y1, ops[1..])[j - 1];
      UsedNotHanded(y1, After(v, ops[0], out), o1, ops[1..], f, j - 1);
    }
  }

  /** A cell that was marked is never handed out. */
  lemma MarkedNotHanded(y: Sys, v: View, o: Owners, ops: seq<Op>, f: nat, j: nat)
    requires Inv(y, v, o) && LegalRun(y, v, ops) && f in v.used && f < |y.s.bitmap| && j < |ops|
    ensures Outcomes(y, ops)[j].frame != Some(f)
  {
    hide WellFormed, Windows, Agrees, LegalRun, Outcomes;
    UsedNotHanded(y, v, o, ops, f, j);
  }

  /** Over every run no frame is handed out twice, whether for a PML4 or for anything else. */
  lemma {:induction false} HandedOnce(y: Sys, v: View, o: Owners, ops: seq<Op>, i: nat, j: nat)
    requires Inv(y, v, o) && LegalRun(y, v, ops) && i < j < |ops|
    ensures var outs := Outcomes(y, ops);
            outs[i].frame.Some? ==> outs[i].frame != outs[j].frame
    decreases |ops|
  {
    hide Inv, Legal, Step, After;
    var (y1, out) := Step(y, ops[0]);
    var o1 := StepKeeps(y, v, o, ops[0]);
    assert Outcomes(y, ops)[j] == Outcomes(y1, ops[1..])[j - 1];
    if i > 0 {
      assert Outcomes(y, ops)[i] == Outcomes(y1, ops[1..])[i - 1];
      HandedOnce(y1, After(v, ops[0], out), o1, ops[1..], i - 1, j - 1);
    } else if out.frame.Some? {
      UsedNotHanded(y1, After(v, ops[0], out), o1, ops[1..], out.frame.value, j - 1);
    }
  }

  // ---------------------------------------------------------------- the first root

  /** init_kernel_paging: the kernel's PML4 is cleared and its entry 511 points to itself. */
  function Booted(s: Machine, k: nat): Sys {
    Sys(s.(mem := SetWindow(s.mem[k := Zeroes()], k, k)), k)
  }

  function BootView(k: nat): View { View(k, k, {k}, {}, {}, map[]) }

  /** The kernel's root starts a run: well formed, and translating nothing. */
  lemma BootStarts(s: Machine, k: nat)
    requires Complete(s.mem, |s.bitmap|) && 0 < k < |s.bitmap| && s.bitmap[k] != 0 && s.bitmap[0] != 0
    ensures Inv(Booted(s, k), BootView(k), map[k := Pml4(k)])
  {
    hide Walk;
    var m: Memory := s.mem[k := Zeroes()];
    var o := map[k := Pml4(k)];
    EntryFields(k, MAP_FLAGS);
    forall i: Index ensures GoodEntry(SetWindow(m, k, k), o, k, i) && (i != RECURSIVE ==> !Present(Load(m, k, i))) {
      StoreLoad(m, k, RECURSIVE, Entry(k, MAP_FLAGS), k, i);
    }
    NewRootShowsItself(s.(mem := m), k);
    forall q: Page | q.i4 != RECURSIVE ensures Walk(SetWindow(m, k, k), k, q) == None {
      BlankWalk(m, k, q);
    }
  }

  /** From boot on, every page of every root is translated as a map that starts empty says. */
  lemma RunFromBoot(s: Machine, k: nat, ops: seq<Op>, r: nat, q: Page)
    requires Complete(s.mem, |s.bitmap|) && 0 < k < |s.bitmap| && s.bitmap[k] != 0 && s.bitmap[0] != 0
    requires LegalRun(Booted(s, k), BootView(k), ops)
    ensures var y := Booted(s, k);
            var v := Play(BootView(k), ops, Outcomes(y, ops));
            r in v.roots && q.i4 != RECURSIVE ==> Walk(Run(y, ops).s.mem, r, q) == Lookup(v, r, q)
  {
    hide Walk, WellFormed, LegalRun, Booted, Run, Play, Outcomes;
    BootStarts(s, k);
    var o' := RunRefinesMap(Booted(s, k), BootView(k), map[k := Pml4(k)], ops);
  }
}
