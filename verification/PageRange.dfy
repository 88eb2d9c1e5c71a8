/**
 Mapping and unmapping ranges of pages.  Pages of a range are named by their page numbers,
 the virtual address divided by 4096.
 */
module PageRange {
  import opened Common
  import opened Paging
  import opened RecursiveWindow
  import Align

  function Mark(s: Machine, n: nat, value: nat): Machine {
    if n < |s.bitmap| then s.(bitmap := s.bitmap[n := value]) else s
  }

  /** One turn of the loop of map_memory_range_with_flags. */
  function MapOne(s: Machine, root: nat, pid: nat, p: Page, n: nat, frame: nat, flags: nat, mark: bool): Machine {
    var s1 := MapPage(s, root, pid, p, frame, flags).0;
    if mark then Mark(s1, n, pid % 256) else s1
  }

  /**
   The loop of map_memory_range_with_flags over the pages numbered n, n + 1, and so on.  The byte
   map is marked at the virtual page number.
   */
  function MapRange(s: Machine, root: nat, pid: nat, pages: seq<Page>, n: nat,
                    frame: nat, flags: nat, mark: bool): Machine
    decreases |pages|
  {
    if pages == [] then s
    else
      MapRange(MapOne(s, root, pid, pages[0], n, frame, flags, mark),
               root, pid, pages[1..], n + 1, frame + 1, flags, mark)
  }

  /** One turn of the loop of unmap_memory_range. */
  function UnmapOne(s: Machine, root: nat, p: Page, n: nat, mark: bool): Machine {
    var s1 := UnmapPage(s, root, p);
    if mark then Mark(s1, n, 0) else s1
  }

  /** The loop of unmap_memory_range. */
  function UnmapRange(s: Machine, root: nat, pages: seq<Page>, n: nat, mark: bool): Machine
    decreases |pages|
  {
    if pages == [] then s else UnmapRange(UnmapOne(s, root, pages[0], n, mark), root, pages[1..], n + 1, mark)
  }

  // ---------------------------------------------------------------- pages of a range

  /** No page of [n, e) lies in the recursive window. */
  ghost predicate ClearOfWindow(n: nat, e: nat) {
    forall k: nat :: n <= k < e ==> PageOfNumber(k).i4 != RECURSIVE
  }

  function PagesFrom(n: nat, count: nat): seq<Page> {
    seq(count, i requires 0 <= i => PageOfNumber(n + i))
  }

  const BIT_36 := 0x10_0000_0000   // pages the four indices can tell apart

  lemma NumberFromFields(n: nat)
    ensures var p := PageOfNumber(n);
            n % BIT_36 == ((p.i4 * 512 + p.i3) * 512 + p.i2) * 512 + p.i1
  {
    var n1, n2, n3 := n / 512, n / 512 / 512, n / 512 / 512 / 512;
    var low := (((n3 % 512) * 512 + n2 % 512) * 512 + n1 % 512) * 512 + n % 512;
    assert n == n1 * 512 + n % 512 && n1 == n2 * 512 + n1 % 512;
    assert n2 == n3 * 512 + n2 % 512 && n3 == (n3 / 512) * 512 + n3 % 512;
    Align.DivModUnique(n, BIT_36, n3 / 512, low);
  }

  lemma LastInWindow(k: nat)
    requires k % BIT_36 == BIT_36 - 1
    ensures PageOfNumber(k).i4 == RECURSIVE
  {
    NumberFromFields(k);
  }

  lemma WrapBetween(a: nat, b: nat) returns (k: nat)
    requires a < b && a % BIT_36 == b % BIT_36
    ensures a <= k < b && k % BIT_36 == BIT_36 - 1
  {
    k := a - a % BIT_36 + (BIT_36 - 1);
    assert b - a == (b / BIT_36 - a / BIT_36) * BIT_36;
    assert b / BIT_36 - a / BIT_36 >= 1;
    assert k == (a / BIT_36) * BIT_36 + (BIT_36 - 1);
  }

  /** Two pages of a range that is clear of the window are different pages. */
  lemma PagesDiffer(a: nat, b: nat)
    requires a < b && ClearOfWindow(a, b)
    ensures PageOfNumber(a) != PageOfNumber(b)
  {
    if PageOfNumber(a) == PageOfNumber(b) {
      NumberFromFields(a);
      NumberFromFields(b);
      var k := WrapBetween(a, b);
      LastInWindow(k);
    }
  }

  predicate Mappable(pages: seq<Page>) {
    && (forall i :: 0 <= i < |pages| ==> pages[i].i4 != RECURSIVE)
    && (forall i, j :: 0 <= i < j < |pages| ==> pages[i] != pages[j])
  }

  lemma PagesFromMappable(n: nat, count: nat)
    requires ClearOfWindow(n, n + count)
    ensures Mappable(PagesFrom(n, count))
  {
    var ps := PagesFrom(n, count);
    forall i, j | 0 <= i < j < |ps| ensures ps[i] != ps[j] {
      PagesDiffer(n + i, n + j);
    }
  }

  // ---------------------------------------------------------------- what a range call does

  function Wanted(frame: nat, flags: nat): Option<nat> {
    if Present(flags) then Some(Entry(frame, flags)) else None
  }

  /** Walks of pages that are not among `pages` of `root` are the same. */
  ghost predicate SameElsewhere(m: Memory, m': Memory, o: Owners, root: nat, pages: seq<Page>) {
    forall r: nat, q: Page :: IsRoot(o, r) && q.i4 != RECURSIVE && !(r == root && q in pages) ==>
      Walk(m', r, q) == Walk(m, r, q)
  }

  lemma SameElsewhereChain(m: Memory, m1: Memory, m2: Memory, o: Owners, o1: Owners, root: nat, pages: seq<Page>)
    requires pages != [] && Extends(o, o1)
    requires SameElsewhere(m, m1, o, root, [pages[0]])
    requires SameElsewhere(m1, m2, o1, root, pages[1..])
    ensures SameElsewhere(m, m2, o, root, pages)
  {
    assert forall q :: q in pages <==> q == pages[0] || q in pages[1..];
  }

  lemma MarkKeeps(s: Machine, o: Owners, n: nat, value: nat)
    requires WellFormed(s, o) && value != 0
    ensures WellFormed(Mark(s, n, value), o)
    ensures FreeFrames(Mark(s, n, value).bitmap) <= FreeFrames(s.bitmap)
    ensures Spares(s, Mark(s, n, value), o, o)
  {
    hide GoodEntry, Reached, Load;
    forall g, j: Index | g in o ensures GoodEntry(Mark(s, n, value).mem, o, g, j) {
      assert GoodEntry(s.mem, o, g, j);
    }
    forall g | g in o ensures Reached(Mark(s, n, value).mem, o, g) {
      assert Reached(s.mem, o, g);
    }
  }

  /** Page p has its new translation, or no frame was left and it has its old one. */
  predicate MappedOrFull(s: Machine, s': Machine, root: nat, p: Page, wanted: Option<nat>) {
    || Walk(s'.mem, root, p) == wanted
    || (FreeFrames(s'.bitmap) == {} && Walk(s'.mem, root, p) == Walk(s.mem, root, p))
  }

  predicate AllMappedOrFull(s: Machine, s': Machine, root: nat, pages: seq<Page>, frame: nat, flags: nat) {
    forall k: nat :: k < |pages| ==> MappedOrFull(s, s', root, pages[k], Wanted(frame + k, flags))
  }

  lemma AllMappedOrFullStep(s: Machine, s1: Machine, s2: Machine, o: Owners, o1: Owners, root: nat,
                            pages: seq<Page>, frame: nat, flags: nat)
    requires pages != [] && Mappable(pages) && IsRoot(o, root) && Extends(o, o1)
    requires MappedOrFull(s, s1, root, pages[0], Wanted(frame, flags))
    requires FreeFrames(s1.bitmap) == {} ==> FreeFrames(s2.bitmap) == {}
    requires SameElsewhere(s.mem, s1.mem, o, root, [pages[0]])
    requires SameElsewhere(s1.mem, s2.mem, o1, root, pages[1..])
    requires AllMappedOrFull(s1, s2, root, pages[1..], frame + 1, flags)
    ensures AllMappedOrFull(s, s2, root, pages, frame, flags)
  {
    var rest := pages[1..];
    forall k: nat | k < |pages| ensures MappedOrFull(s, s2, root, pages[k], Wanted(frame + k, flags)) {
      if k > 0 {
        var j: nat := k - 1;
        assert rest[j] == pages[k];
        assert MappedOrFull(s1, s2, root, rest[j], Wanted(frame + 1 + j, flags));
      }
    }
  }

  /** The cell is among those a marking call over count page numbers from n sets. */
  predicate Marked(mark: bool, n: nat, count: nat, k: nat) { mark && n <= k < n + count }

  /**
   The byte map after a range call: the cells of the range's page numbers hold the value, if it
   marks; every other used cell keeps its mark; and nothing else is taken but new tables.
   */
  ghost predicate Marks(s: Machine, s': Machine, o': Owners, n: nat, count: nat, mark: bool, value: nat) {
    && |s'.bitmap| == |s.bitmap|
    && (forall k: nat :: k < |s.bitmap| && Marked(mark, n, count, k) ==> s'.bitmap[k] == value)
    && (forall k: nat :: k < |s.bitmap| && !Marked(mark, n, count, k) && s.bitmap[k] != 0 ==> s'.bitmap[k] == s.bitmap[k])
    && (forall k: nat :: k < |s.bitmap| && !Marked(mark, n, count, k) && s.bitmap[k] == 0 && s'.bitmap[k] != 0 ==> k in o')
  }

  lemma MarksOne(s: Machine, s1: Machine, o: Owners, o': Owners, n: nat, mark: bool, value: nat)
    requires Fresh(s, s1, o, o')
    ensures Marks(s, if mark then Mark(s1, n, value) else s1, o', n, 1, mark, value)
  {
    hide Load;
  }

  lemma MarksChain(s: Machine, s1: Machine, s2: Machine, o1: Owners, o2: Owners, n: nat, count: nat, mark: bool, value: nat)
    requires Marks(s, s1, o1, n, 1, mark, value) && Marks(s1, s2, o2, n + 1, count, mark, value) && value != 0
    requires forall g :: g in o1 ==> g in o2
    ensures Marks(s, s2, o2, n, count + 1, mark, value)
  {
    forall k: nat | k < |s.bitmap| && Marked(mark, n, count + 1, k) ensures s2.bitmap[k] == value {
      assert Marked(mark, n, 1, k) || Marked(mark, n + 1, count, k);
    }
    forall k: nat | k < |s.bitmap| && !Marked(mark, n, count + 1, k)
      ensures s.bitmap[k] != 0 ==> s2.bitmap[k] == s.bitmap[k]
      ensures s.bitmap[k] == 0 && s2.bitmap[k] != 0 ==> k in o2
    {
      assert !Marked(mark, n, 1, k) && !Marked(mark, n + 1, count, k);
    }
  }

  lemma MarksNone(s: Machine, o: Owners, n: nat, mark: bool, value: nat)
    ensures Marks(s, s, o, n, 0, mark, value)
  {}

  lemma NoneFree(bitmap: seq<nat>)
    ensures FreeFrames(bitmap) == {} <==> |FreeFrames(bitmap)| == 0
  {}

  lemma MapOneCorrect(s: Machine, o: Owners, root: nat, pid: nat, p: Page, n: nat,
                      frame: nat, flags: nat, mark: bool) returns (o': Owners)
    requires WellFormed(s, o) && IsRoot(o, root) && p.i4 != RECURSIVE
    requires flags < 4096 && pid % 256 != 0
    ensures var s' := MapOne(s, root, pid, p, n, frame, flags, mark);
            && WellFormed(s', o') && Extends(o, o') && Spares(s, s', o, o') && SameWindows(s.mem, s'.mem, o)
            && (FreeFrames(s.bitmap) == {} ==> FreeFrames(s'.bitmap) == {})
            && SameElsewhere(s.mem, s'.mem, o, root, [p])
            && MappedOrFull(s, s', root, p, Wanted(frame, flags))
            && Marks(s, s', o', n, 1, mark, pid % 256)
  {
    hide WellFormed, Walk, MapPage, Fresh, Spares, Marks;
    var s1 := MapPage(s, root, pid, p, frame, flags).0;
    o' := MapPageCorrect(s, o, root, pid, p, frame, flags);
    FreshSpares(s, s1, o, o');
    MarksOne(s, s1, o, o', n, mark, pid % 256);
    MarkKeeps(s1, o', n, pid % 256);
    SparesChain(s, s1, Mark(s1, n, pid % 256), o, o', o');
    NoneFree(s.bitmap);
    NoneFree(s1.bitmap);
  }

  /**
   Mapping a range translates page k of it to frame + k, or leaves that page as it was when its
   tables could not be allocated; as long as one free frame is left at the end, every page was
   mapped.  Pages outside the range and other trees keep their walks.
   */
  lemma {:induction false} MapRangeCorrect(s: Machine, o: Owners, root: nat, pid: nat, pages: seq<Page>, n: nat,
                        frame: nat, flags: nat, mark: bool) returns (o': Owners)
    requires WellFormed(s, o) && IsRoot(o, root) && Mappable(pages)
    requires flags < 4096 && pid % 256 != 0
    ensures var s' := MapRange(s, root, pid, pages, n, frame, flags, mark);
            && WellFormed(s', o') && Extends(o, o') && Spares(s, s', o, o') && SameWindows(s.mem, s'.mem, o)
            && (FreeFrames(s.bitmap) == {} ==> FreeFrames(s'.bitmap) == {})
            && SameElsewhere(s.mem, s'.mem, o, root, pages)
            && AllMappedOrFull(s, s', root, pages, frame, flags)
            && Marks(s, s', o', n, |pages|, mark, pid % 256)
    decreases pages
  {
    hide WellFormed, Walk, MapOne, Spares, Mappable, Marks;
    if pages == [] {
      o' := o;
      SparesSame(s, o);
      MarksNone(s, o, n, mark, pid % 256);
    } else {
      MappableStep(pages);
      var s1 := MapOne(s, root, pid, pages[0], n, frame, flags, mark);
      var o1 := MapOneCorrect(s, o, root, pid, pages[0], n, frame, flags, mark);
      var rest := pages[1..];
      o' := MapRangeCorrect(s1, o1, root, pid, rest, n + 1, frame + 1, flags, mark);
      var s' := MapRange(s1, root, pid, rest, n + 1, frame + 1, flags, mark);
      assert s' == MapRange(s, root, pid, pages, n, frame, flags, mark);
      SameElsewhereChain(s.mem, s1.mem, s'.mem, o, o1, root, pages);
      AllMappedOrFullStep(s, s1, s', o, o1, root, pages, frame, flags);
      SparesChain(s, s1, s', o, o1, o');
      MarksChain(s, s1, s', o1, o', n, |rest|, mark, pid % 256);
    }
  }

  lemma SparesSame(s: Machine, o: Owners)
    ensures Spares(s, s, o, o)
  {}

  lemma MappableStep(pages: seq<Page>)
    requires Mappable(pages) && pages != []
    ensures pages[0].i4 != RECURSIVE && Mappable(pages[1..])
  {}

  // ---------------------------------------------------------------- unmapping

  predicate AllUnmapped(m: Memory, root: nat, pages: seq<Page>) {
    forall k: nat :: k < |pages| ==> Walk(m, root, pages[k]) == None
  }

  lemma AllUnmappedStep(m1: Memory, m2: Memory, o: Owners, root: nat, pages: seq<Page>)
    requires pages != [] && Mappable(pages) && IsRoot(o, root)
    requires Walk(m1, root, pages[0]) == None
    requires SameElsewhere(m1, m2, o, root, pages[1..])
    requires AllUnmapped(m2, root, pages[1..])
    ensures AllUnmapped(m2, root, pages)
  {
    forall k: nat | k < |pages| ensures Walk(m2, root, pages[k]) == None {
      if k > 0 {
        var j: nat := k - 1;
        assert pages[1..][j] == pages[k];
      }
    }
  }

  /** Without touching the byte map, unmapping a range removes exactly the walks of its pages. */
  lemma {:induction false} UnmapRangeCorrect(s: Machine, o: Owners, root: nat, pages: seq<Page>, n: nat)
    requires WellFormed(s, o) && IsRoot(o, root) && Mappable(pages)
    ensures var s' := UnmapRange(s, root, pages, n, false);
            && WellFormed(s', o) && SameWindows(s.mem, s'.mem, o)
            && SameElsewhere(s.mem, s'.mem, o, root, pages)
            && AllUnmapped(s'.mem, root, pages)
    decreases pages
  {
    if pages != [] {
      var s1 := UnmapPage(s, root, pages[0]);
      UnmapPageCorrect(s, o, root, pages[0]);
      UnmapRangeCorrect(s1, o, root, pages[1..], n + 1);
      var s' := UnmapRange(s1, root, pages[1..], n + 1, false);
      SameElsewhereChain(s.mem, s1.mem, s'.mem, o, o, root, pages);
      AllUnmappedStep(s1.mem, s'.mem, o, root, pages);
    }
  }

  /**
   Mapping a range that had no translation and unmapping it again restores every walk of every
   tree, although the tables made on the way stay.
   */
  lemma MapThenUnmap(s: Machine, o: Owners, root: nat, pid: nat, pages: seq<Page>, n: nat,
                     frame: nat, flags: nat, mark: bool) returns (o': Owners)
    requires WellFormed(s, o) && IsRoot(o, root) && Mappable(pages)
    requires flags < 4096 && pid % 256 != 0
    requires AllUnmapped(s.mem, root, pages)
    ensures var s' := UnmapRange(MapRange(s, root, pid, pages, n, frame, flags, mark), root, pages, n, false);
            WellFormed(s', o') && Extends(o, o') && SameWalks(s, s', o)
  {
    var s1 := MapRange(s, root, pid, pages, n, frame, flags, mark);
    o' := MapRangeCorrect(s, o, root, pid, pages, n, frame, flags, mark);
    UnmapRangeCorrect(s1, o', root, pages, n);
    var s' := UnmapRange(s1, root, pages, n, false);
    forall r: nat, q: Page | IsRoot(o, r) && q.i4 != RECURSIVE ensures Walk(s'.mem, r, q) == Walk(s.mem, r, q) {
      if r == root && q in pages {
        var k: nat :| k < |pages| && pages[k] == q;
        assert Walk(s.mem, root, pages[k]) == None && Walk(s'.mem, root, pages[k]) == None;
      }
    }
  }

  // ---------------------------------------------------------------- unmapping with set_in_allocator

  function Cleared(bitmap: seq<nat>, n: nat, count: nat): (r: seq<nat>)
    ensures |r| == |bitmap|
    ensures forall f :: 0 <= f < |r| ==> r[f] == if n <= f < n + count then 0 else bitmap[f]
  {
    seq(|bitmap|, f requires 0 <= f < |bitmap| => if n <= f < n + count then 0 else bitmap[f])
  }

  lemma {:induction false} UnmapRangeMarked(s: Machine, root: nat, pages: seq<Page>, n: nat)
    ensures UnmapRange(s, root, pages, n, true).mem == UnmapRange(s, root, pages, n, false).mem
    ensures UnmapRange(s, root, pages, n, true).bitmap == Cleared(s.bitmap, n, |pages|)
    ensures UnmapRange(s, root, pages, n, false).bitmap == s.bitmap
    decreases |pages|
  {
    if pages != [] {
      var s1 := UnmapPage(s, root, pages[0]);
      UnmapRangeMarked(s1, root, pages[1..], n + 1);
      UnmapRangeMarked(Mark(s1, n, 0), root, pages[1..], n + 1);
      BitmapIrrelevant(s1, Mark(s1, n, 0), root, pages[1..], n + 1);
      assert Cleared(Mark(s1, n, 0).bitmap, n + 1, |pages| - 1) == Cleared(s.bitmap, n, |pages|);
    }
  }

  lemma {:induction false} BitmapIrrelevant(s: Machine, t: Machine, root: nat, pages: seq<Page>, n: nat)
    requires s.mem == t.mem
    ensures UnmapRange(s, root, pages, n, false).mem == UnmapRange(t, root, pages, n, false).mem
    decreases |pages|
  {
    if pages != [] {
      BitmapIrrelevant(UnmapPage(s, root, pages[0]), UnmapPage(t, root, pages[0]), root, pages[1..], n + 1);
    }
  }

  ghost predicate SameRootSet(o: Owners, o': Owners) {
    (forall r :: IsRoot(o, r) ==> IsRoot(o', r)) && (forall r :: IsRoot(o', r) ==> IsRoot(o, r))
  }

  /** The range avoids frame 0 and every table. */
  ghost predicate AvoidsTables(o: Owners, n: nat, count: nat) {
    (n > 0 || count == 0) && forall k: nat :: n <= k < n + count ==> k !in o
  }

  /**
   With set_in_allocator, unmap_memory_range frees the byte-map cells of the *virtual* page
   numbers.  The trees of the same roots stay safe exactly when none of those numbers is a table
   frame, nor frame 0.  Which frames are tables the entries alone decide.
   */
  lemma UnmapRangeFreesTables(s: Machine, o: Owners, root: nat, pages: seq<Page>, n: nat)
    requires WellFormed(s, o) && IsRoot(o, root) && Mappable(pages)
    ensures (exists o' :: SameRootSet(o, o') && WellFormed(UnmapRange(s, root, pages, n, true), o')) <==>
            AvoidsTables(o, n, |pages|)
    ensures AvoidsTables(o, n, |pages|) ==> WellFormed(UnmapRange(s, root, pages, n, true), o)
  {
    hide UnmapRange, WellFormed;
    UnmapRangeMarked(s, root, pages, n);
    UnmapRangeCorrect(s, o, root, pages, n);
    var s', t := UnmapRange(s, root, pages, n, true), UnmapRange(s, root, pages, n, false);
    if AvoidsTables(o, n, |pages|) {
      ClearedKeeps(t, o, n, |pages|);
      assert SameRootSet(o, o);
    } else {
      forall o' | SameRootSet(o, o') ensures !WellFormed(s', o') {
        if WellFormed(s', o') { FreedTable(t, o, s', o', n, |pages|); }
      }
    }
  }

  lemma FreedTable(t: Machine, o: Owners, s': Machine, o': Owners, n: nat, count: nat)
    requires WellFormed(t, o) && WellFormed(s', o') && SameRootSet(o, o') && s'.mem == t.mem
    requires s'.bitmap == Cleared(t.bitmap, n, count)
    ensures AvoidsTables(o, n, count)
  {
    hide GoodEntry, Reached;
    forall k: nat | n <= k < n + count ensures k !in o {
      if k in o { OwnersUnique(t, o, s', o', k); }
    }
  }

  lemma ClearedKeeps(t: Machine, o: Owners, n: nat, count: nat)
    requires WellFormed(t, o) && AvoidsTables(o, n, count)
    ensures WellFormed(t.(bitmap := Cleared(t.bitmap, n, count)), o)
  {
    hide GoodEntry, Reached;
    forall g, j: Index | g in o ensures GoodEntry(t.mem, o, g, j) {
      TableEntry(t, o, g, j);
    }
    forall g | g in o ensures Reached(t.mem, o, g) {
      ReachedIn(t, o, g);
    }
  }

  // ---------------------------------------------------------------- the calls themselves

  /** Page numbers [First(start), Past(end)) are those a range call visits. */
  function First(start: nat): nat { Align.Down(start, 4096) / 4096 }

  function Past(end: nat): nat { Align.Up(end, 4096) / 4096 }

  /**
   Callers give the last address of a range.  All addresses up to it are on visited pages exactly
   when it is not itself a multiple of the page size.
   */
  lemma InclusiveEnd(start: nat, end: nat)
    requires start <= end && end + 4096 <= WORD_64
    ensures (forall a: nat :: start <= a <= end ==> First(start) <= a / 4096 < Past(end)) <==> end % 4096 != 0
  {
    Align.UpIsLeast(end, 4096);
    assert First(start) == start / 4096;
    if end % 4096 == 0 {
      assert !(end / 4096 < Past(end));
    } else {
      assert Past(end) == end / 4096 + 1;
    }
  }

  // ---------------------------------------------------------------- what addresses translate to

  /** The physical address an address leads to. */
  function Translate(m: Memory, root: nat, va: nat): Option<nat> {
    match Walk(m, root, PageOf(va))
    case None => None
    case Some(e) => Some(FrameOf(e) * 4096 + va % 4096)
  }

  function Count(start: nat, end: nat): nat { if First(start) <= Past(end) then Past(end) - First(start) else 0 }

  /** The pages a range call visits. */
  function RangePages(start: nat, end: nat): seq<Page> { PagesFrom(First(start), Count(start, end)) }

  /** The address has the page bits of a visited page. */
  ghost predicate OnRange(start: nat, end: nat, a: nat) { PageOf(a) in RangePages(start, end) }

  /** Where the call sends an address of a visited page: as far from the physical base as from the start. */
  function Target(start: nat, physical: nat, flags: nat, a: nat): Option<nat>
    requires First(start) <= a / 4096
  {
    DownIs(start);
    if Present(flags) then Some(Align.Down(physical, 4096) + (a - Align.Down(start, 4096))) else None
  }

  lemma DownIs(a: nat)
    ensures Align.Down(a, 4096) == a / 4096 * 4096 && First(a) == a / 4096
  {}

  /** Addresses off the range, and those of other roots, lead where they did. */
  ghost predicate SameOffRange(m: Memory, m': Memory, o: Owners, root: nat, start: nat, end: nat) {
    forall r: nat, a: nat :: IsRoot(o, r) && PageOf(a).i4 != RECURSIVE && !(r == root && OnRange(start, end, a)) ==>
      Translate(m', r, a) == Translate(m, r, a)
  }

  /** An address of a visited page has its new translation, or frames ran out and it has its old one. */
  ghost predicate SentOrFull(s: Machine, s': Machine, root: nat, start: nat, physical: nat, flags: nat, a: nat)
    requires First(start) <= a / 4096
  {
    || Translate(s'.mem, root, a) == Target(start, physical, flags, a)
    || (FreeFrames(s'.bitmap) == {} && Translate(s'.mem, root, a) == Translate(s.mem, root, a))
  }

  ghost predicate RangeMapped(s: Machine, s': Machine, o: Owners, root: nat, start: nat, end: nat, physical: nat, flags: nat) {
    && (forall a: nat :: First(start) <= a / 4096 < Past(end) ==> SentOrFull(s, s', root, start, physical, flags, a))
    && SameOffRange(s.mem, s'.mem, o, root, start, end)
  }

  lemma VisitedPage(start: nat, end: nat, a: nat)
    requires First(start) <= a / 4096 < Past(end)
    ensures var k := a / 4096 - First(start);
            k < |RangePages(start, end)| && RangePages(start, end)[k] == PageOf(a) && OnRange(start, end, a)
  {
    PageOfIsPageOfNumber(a);
    assert RangePages(start, end)[a / 4096 - First(start)] == PageOf(a);
  }

  lemma SentTo(start: nat, physical: nat, flags: nat, a: nat)
    requires First(start) <= a / 4096 && flags < 4096
    ensures var frame := physical / 4096 + (a / 4096 - First(start));
            Target(start, physical, flags, a) ==
            if Present(flags) then Some(FrameOf(Entry(frame, flags)) * 4096 + a % 4096) else None
  {
    hide Align.Down, Entry, FrameOf, First;
    DownIs(start);
    DownIs(physical);
    EntryFields(physical / 4096 + (a / 4096 - First(start)), flags);
  }

  lemma OffRange(m: Memory, m': Memory, o: Owners, root: nat, start: nat, end: nat)
    requires SameElsewhere(m, m', o, root, RangePages(start, end))
    ensures SameOffRange(m, m', o, root, start, end)
  {
    hide Walk, PageOf, RangePages;
  }

  lemma RangeClear(start: nat, end: nat)
    requires ClearOfWindow(First(start), Past(end))
    ensures Mappable(RangePages(start, end))
  {
    PagesFromMappable(First(start), Count(start, end));
  }

  /**
   A range call sends every address of a visited page to the physical base plus its distance from
   the aligned start, unless frames ran out, and leaves every other address of every root alone.
   */
  lemma RangeTranslates(s: Machine, o: Owners, root: nat, pid: nat, start: nat, end: nat,
                        physical: nat, flags: nat, mark: bool) returns (o': Owners)
    requires WellFormed(s, o) && IsRoot(o, root) && ClearOfWindow(First(start), Past(end))
    requires flags < 4096 && pid % 256 != 0
    ensures var s' := MapRange(s, root, pid, RangePages(start, end), First(start), physical / 4096, flags, mark);
            && WellFormed(s', o') && Extends(o, o') && Spares(s, s', o, o')
            && RangeMapped(s, s', o, root, start, end, physical, flags)
            && Marks(s, s', o', First(start), Count(start, end), mark, pid % 256)
  {
    hide WellFormed, Walk, MapRange, Spares, PageOf, First, Past, RangePages, Target, Entry, FrameOf, SameElsewhere, Marks;
    var pages := RangePages(start, end);
    RangeClear(start, end);
    PagesLong(First(start), Count(start, end));
    RangePagesIs(start, end);
    o' := MapRangeCorrect(s, o, root, pid, pages, First(start), physical / 4096, flags, mark);
    var s' := MapRange(s, root, pid, pages, First(start), physical / 4096, flags, mark);
    forall a: nat | First(start) <= a / 4096 < Past(end) ensures SentOrFull(s, s', root, start, physical, flags, a) {
      VisitedPage(start, end, a);
      SentTo(start, physical, flags, a);
      var k: nat := a / 4096 - First(start);
      assert MappedOrFull(s, s', root, pages[k], Wanted(physical / 4096 + k, flags));
    }
    OffRange(s.mem, s'.mem, o, root, start, end);
  }

  ghost predicate RangeUnmapped(m: Memory, m': Memory, o: Owners, root: nat, start: nat, end: nat) {
    && (forall a: nat :: First(start) <= a / 4096 < Past(end) ==> Translate(m', root, a) == None)
    && SameOffRange(m, m', o, root, start, end)
  }

  /** Unmapping a range leaves its addresses without translation and every other one with its own. */
  lemma RangeUntranslates(s: Machine, o: Owners, root: nat, start: nat, end: nat)
    requires WellFormed(s, o) && IsRoot(o, root) && ClearOfWindow(First(start), Past(end))
    ensures var s' := UnmapRange(s, root, RangePages(start, end), First(start), false);
            WellFormed(s', o) && RangeUnmapped(s.mem, s'.mem, o, root, start, end)
  {
    hide WellFormed, Walk, UnmapRange, PageOf, First, Past, RangePages, SameElsewhere;
    var pages := RangePages(start, end);
    RangeClear(start, end);
    UnmapRangeCorrect(s, o, root, pages, First(start));
    var s' := UnmapRange(s, root, pages, First(start), false);
    forall a: nat | First(start) <= a / 4096 < Past(end) ensures Translate(s'.mem, root, a) == None {
      VisitedPage(start, end, a);
      var k: nat := a / 4096 - First(start);
      assert Walk(s'.mem, root, pages[k]) == None;
    }
    OffRange(s.mem, s'.mem, o, root, start, end);
  }

  /** Mapping a range without translations and unmapping it restores where every address of every root leads. */
  lemma RangeRestored(s: Machine, o: Owners, root: nat, pid: nat, start: nat, end: nat,
                      physical: nat, flags: nat, mark: bool, r: nat, a: nat)
    requires WellFormed(s, o) && IsRoot(o, root) && ClearOfWindow(First(start), Past(end))
    requires flags < 4096 && pid % 256 != 0
    requires forall b: nat :: First(start) <= b / 4096 < Past(end) ==> Translate(s.mem, root, b) == None
    requires IsRoot(o, r) && PageOf(a).i4 != RECURSIVE
    ensures var pages := RangePages(start, end);
            var s1 := MapRange(s, root, pid, pages, First(start), physical / 4096, flags, mark);
            Translate(UnmapRange(s1, root, pages, First(start), false).mem, r, a) == Translate(s.mem, r, a)
  {
    hide WellFormed, Walk, MapRange, UnmapRange, PageOf, First, Past;
    var pages := RangePages(start, end);
    RangeClear(start, end);
    forall k: nat | k < |pages| ensures Walk(s.mem, root, pages[k]) == None {
      NoneAtPage(s.mem, root, start, end, k);
    }
    var o' := MapThenUnmap(s, o, root, pid, pages, First(start), physical / 4096, flags, mark);
  }

  lemma NoneAtPage(m: Memory, root: nat, start: nat, end: nat, k: nat)
    requires k < |RangePages(start, end)|
    requires forall b: nat :: First(start) <= b / 4096 < Past(end) ==> Translate(m, root, b) == None
    ensures Walk(m, root, RangePages(start, end)[k]) == None
  {
    hide Walk, PageOf;
    var b := (First(start) + k) * 4096;
    PageMultiple(b, First(start) + k);
    VisitedPage(start, end, b);
    assert Translate(m, root, b) == None;
  }

  /** For canonical addresses, having the bits of a visited page is being on one. */
  lemma OnRangeIff(start: nat, end: nat, a: nat)
    requires Canonical(a) && forall k: nat :: First(start) <= k < Past(end) ==> Canonical(k * 4096)
    ensures OnRange(start, end, a) <==> First(start) <= a / 4096 < Past(end)
  {
    hide PageOf, Canonical, First, Past;
    if OnRange(start, end, a) {
      var i :| 0 <= i < |RangePages(start, end)| && RangePages(start, end)[i] == PageOf(a);
      var k := First(start) + i;
      assert RangePages(start, end)[i] == PageOfNumber(k);
      assert Canonical(k * 4096);
      CanonicalPages(k, a);
    }
    if First(start) <= a / 4096 < Past(end) {
      VisitedPage(start, end, a);
    }
  }

  lemma CanonicalPages(k: nat, a: nat)
    requires Canonical(k * 4096) && Canonical(a) && PageOfNumber(k) == PageOf(a)
    ensures k == a / 4096
  {
    hide PageOf, PageOfNumber;
    PageOfIsPageOfNumber(a);
    NumberFromFields(k);
    NumberFromFields(a / 4096);
    LowPart(k);
    LowPart(a / 4096);
  }

  /** The low 36 bits of a canonical page number tell it. */
  lemma LowPart(n: nat)
    ensures n < 0x8_0000_0000 ==> n % BIT_36 == n
    ensures 0x10_0000_0000_0000 - 0x8_0000_0000 <= n < 0x10_0000_0000_0000 ==>
              n % BIT_36 == n - (0x10_0000_0000_0000 - BIT_36)
  {}

  lemma PageAt(n: nat, count: nat, i: nat, addr: nat)
    requires i < count && ClearOfWindow(n, n + count) && addr == (n + i) * 4096
    ensures PagesFrom(n, count)[i] == PageOf(addr) && PageOf(addr).i4 != RECURSIVE
    ensures addr / 4096 == n + i
  {
    PageOfIsPageOfNumber(addr);
  }

  lemma PageMultiple(addr: nat, k: nat)
    requires addr == k * 4096
    ensures addr % 4096 == 0 && addr / 4096 == k
  {}

  lemma MapRangeDone(s: Machine, root: nat, pid: nat, n: nat, frame: nat, flags: nat, mark: bool)
    ensures MapRange(s, root, pid, [], n, frame, flags, mark) == s
  {}

  lemma MapRangeUnfolds(s: Machine, s1: Machine, root: nat, pid: nat, pages: seq<Page>, i: nat, n: nat,
                        frame: nat, flags: nat, mark: bool)
    requires i < |pages| && s1 == MapOne(s, root, pid, pages[i], n + i, frame + i, flags, mark)
    ensures MapRange(s, root, pid, pages[i..], n + i, frame + i, flags, mark) ==
            MapRange(s1, root, pid, pages[i + 1..], n + (i + 1), frame + (i + 1), flags, mark)
  {
    assert pages[i..][1..] == pages[i + 1..];
  }

  method MarkUsed(mmu: Mmu, n: nat, pid: nat)
    requires mmu.Valid() && pid % 256 != 0 && n < |mmu.bitmap|
    modifies mmu`bitmap
    ensures mmu.Valid() && |mmu.bitmap| == |old(mmu.bitmap)|
    ensures mmu.State() == Mark(old(mmu.State()), n, pid % 256)
  {
    MarkKeeps(mmu.State(), mmu.owners, n, pid % 256);
    mmu.bitmap := mmu.bitmap[n := pid % 256];
  }

  /** One turn of the mapping loop. */
  method MapTurn(mmu: Mmu, pid: nat, addr: nat, target: nat, flags: nat, setInAllocator: bool,
                 ghost n: nat, ghost count: nat, ghost i: nat, ghost frame: nat)
    requires mmu.Valid() && pid % 256 != 0 && flags < 4096
    requires i < count && ClearOfWindow(n, n + count)
    requires addr == (n + i) * 4096 && target == (frame + i) * 4096
    requires setInAllocator ==> n + count <= |mmu.bitmap|
    modifies mmu`mem, mmu`bitmap, mmu`owners
    ensures mmu.Valid() && mmu.Shown() == old(mmu.Shown()) && Extends(old(mmu.owners), mmu.owners)
    ensures |mmu.bitmap| == |old(mmu.bitmap)|
    ensures mmu.State() == MapOne(old(mmu.State()), old(mmu.Shown()), pid, PagesFrom(n, count)[i],
                                  n + i, frame + i, flags, setInAllocator)
  {
    hide WellFormed;
    PageAt(n, count, i, addr);
    PageMultiple(target, frame + i);
    var ok := mmu.MapPage(pid, addr, target, flags);
    if setInAllocator {
      MarkUsed(mmu, addr / 4096, pid);
    }
  }

  /** The loop of map_memory_range_with_flags over [n, n + count) page numbers. */
  method MapLoop(mmu: Mmu, pid: nat, start: nat, stop: nat, physical: nat, flags: nat, setInAllocator: bool,
                 ghost n: nat, ghost count: nat, ghost frame: nat)
    requires mmu.Valid() && pid % 256 != 0 && flags < 4096
    requires start == n * 4096 && stop == (n + count) * 4096 && physical == frame * 4096
    requires ClearOfWindow(n, n + count)
    requires setInAllocator ==> n + count <= |mmu.bitmap|
    modifies mmu`mem, mmu`bitmap, mmu`owners
    ensures mmu.Valid() && mmu.Shown() == old(mmu.Shown()) && Extends(old(mmu.owners), mmu.owners)
    ensures mmu.State() == MapRange(old(mmu.State()), old(mmu.Shown()), pid, PagesFrom(n, count), n,
                                    frame, flags, setInAllocator)
  {
    hide WellFormed, MapRange, MapOne, ClearOfWindow;
    ghost var pages, root := PagesFrom(n, count), mmu.Shown();
    ghost var goal := MapRange(mmu.State(), root, pid, pages, n, frame, flags, setInAllocator);
    ghost var i: nat := 0;
    var addr, target := start, physical;
    assert pages[0..] == pages;
    while addr < stop
      invariant i <= count && addr == (n + i) * 4096 && target == (frame + i) * 4096
      invariant mmu.Valid() && mmu.Shown() == root && Extends(old(mmu.owners), mmu.owners)
      invariant |mmu.bitmap| == |old(mmu.bitmap)|
      invariant goal ==
                MapRange(mmu.State(), root, pid, pages[i..], n + i, frame + i, flags, setInAllocator)
      decreases stop - addr
    {
      ghost var s := mmu.State();
      MapTurn(mmu, pid, addr, target, flags, setInAllocator, n, count, i, frame);
      MapRangeUnfolds(s, mmu.State(), root, pid, pages, i, n, frame, flags, setInAllocator);
      addr := addr + 4096;
      target := target + 4096;
      i := i + 1;
    }
    MapRangeDone(mmu.State(), root, pid, n + i, frame + i, flags, setInAllocator);
    assert pages[i..] == [];
  }

  /** map_memory_range_with_flags */
  method MapMemoryRange(mmu: Mmu, pid: nat, start: nat, end: nat, physical: nat, flags: nat, setInAllocator: bool)
    requires mmu.Valid() && pid % 256 != 0 && flags < 4096
    requires end + 4096 <= WORD_64 && ClearOfWindow(First(start), Past(end))
    requires setInAllocator ==> Past(end) <= |mmu.bitmap|
    modifies mmu`mem, mmu`bitmap, mmu`owners
    ensures mmu.Valid() && mmu.Shown() == old(mmu.Shown()) && Extends(old(mmu.owners), mmu.owners)
    ensures mmu.State() == MapRange(old(mmu.State()), old(mmu.Shown()), pid, RangePages(start, end),
                                    First(start), physical / 4096, flags, setInAllocator)
    ensures RangeMapped(old(mmu.State()), mmu.State(), old(mmu.owners), old(mmu.Shown()), start, end, physical, flags)
    ensures Spares(old(mmu.State()), mmu.State(), old(mmu.owners), mmu.owners)
    ensures Marks(old(mmu.State()), mmu.State(), mmu.owners, First(start), Count(start, end), setInAllocator, pid % 256)
  {
    hide WellFormed, MapRange, ClearOfWindow, RangeMapped, PagesFrom, Spares, Marks;
    ghost var s, o, root := mmu.State(), mmu.owners, mmu.Shown();
    AllUsedKeeps(s, o);
    ShownRoot(mmu);
    Bounds(start, end);
    var from, stop := Align.Down(start, 4096), Align.Up(end, 4096);
    ghost var o' := RangeTranslates(s, o, root, pid, start, end, physical, flags, setInAllocator);
    if from < stop {
      DownIs(physical);
      MapLoop(mmu, pid, from, stop, Align.Down(physical, 4096), flags, setInAllocator,
              First(start), Past(end) - First(start), physical / 4096);
    } else {
      NoPages(First(start));
      MapRangeDone(s, root, pid, First(start), physical / 4096, flags, setInAllocator);
    }
    mmu.owners := o';
  }

  lemma ShownRoot(mmu: Mmu)
    requires mmu.Standing()
    ensures IsRoot(mmu.owners, mmu.Shown())
  {
    TableEntry(Machine(mmu.mem, AllUsed(|mmu.bitmap|)), mmu.owners, mmu.cr3, RECURSIVE);
  }

  lemma NoPages(n: nat)
    ensures PagesFrom(n, 0) == []
  {}

  /** The aligned ends of a range, and its page numbers. */
  lemma Bounds(start: nat, end: nat)
    requires end + 4096 <= WORD_64
    ensures Align.Down(start, 4096) == First(start) * 4096 && Align.Up(end, 4096) == Past(end) * 4096
    ensures Align.Down(start, 4096) < Align.Up(end, 4096) <==> First(start) < Past(end)
  {
    Align.UpIsLeast(end, 4096);
  }

  lemma UnmapRangeUnfolds(s: Machine, s1: Machine, root: nat, pages: seq<Page>, i: nat, n: nat, mark: bool)
    requires i < |pages|
    requires s1 == UnmapOne(s, root, pages[i], n + i, mark)
    ensures UnmapRange(s, root, pages[i..], n + i, mark) == UnmapRange(s1, root, pages[i + 1..], n + (i + 1), mark)
  {
    assert pages[i..][1..] == pages[i + 1..];
  }

  /** One turn of the unmapping loop. */
  method UnmapTurn(mmu: Mmu, addr: nat, setInAllocator: bool, ghost n: nat, ghost count: nat, ghost i: nat)
    requires mmu.Standing() && i < count && ClearOfWindow(n, n + count) && addr == (n + i) * 4096
    requires setInAllocator ==> n + count <= |mmu.bitmap|
    modifies mmu`mem, mmu`bitmap
    ensures mmu.Standing() && mmu.Shown() == old(mmu.Shown()) && |mmu.bitmap| == |old(mmu.bitmap)|
    ensures mmu.State() == UnmapOne(old(mmu.State()), old(mmu.Shown()), PagesFrom(n, count)[i], n + i, setInAllocator)
  {
    hide WellFormed, AllUsed, UnmapPage;
    PageAt(n, count, i, addr);
    mmu.UnmapPage(addr);
    if setInAllocator {
      mmu.bitmap := mmu.bitmap[addr / 4096 := 0];
    }
  }

  /** The loop of unmap_memory_range. */
  method UnmapLoop(mmu: Mmu, start: nat, stop: nat, setInAllocator: bool, ghost n: nat, ghost count: nat)
    requires mmu.Standing() && start == n * 4096 && stop == (n + count) * 4096 && ClearOfWindow(n, n + count)
    requires setInAllocator ==> n + count <= |mmu.bitmap|
    modifies mmu`mem, mmu`bitmap
    ensures mmu.Standing() && mmu.Shown() == old(mmu.Shown())
    ensures mmu.State() == UnmapRange(old(mmu.State()), old(mmu.Shown()), PagesFrom(n, count), n, setInAllocator)
  {
    hide WellFormed, UnmapRange, UnmapOne, AllUsed, ClearOfWindow;
    ghost var pages, root := PagesFrom(n, count), mmu.Shown();
    ghost var goal := UnmapRange(mmu.State(), root, pages, n, setInAllocator);
    ghost var i: nat := 0;
    var addr := start;
    assert pages[0..] == pages;
    while addr < stop
      invariant i <= count && addr == (n + i) * 4096
      invariant mmu.Standing() && mmu.Shown() == root && |mmu.bitmap| == |old(mmu.bitmap)|
      invariant goal == UnmapRange(mmu.State(), root, pages[i..], n + i, setInAllocator)
      decreases stop - addr
    {
      ghost var s := mmu.State();
      UnmapTurn(mmu, addr, setInAllocator, n, count, i);
      UnmapRangeUnfolds(s, mmu.State(), root, pages, i, n, setInAllocator);
      addr := addr + 4096;
      i := i + 1;
    }
    UnmapRangeDone(mmu.State(), root, n + i, setInAllocator);
    assert pages[i..] == [];
  }

  lemma UnmapRangeDone(s: Machine, root: nat, n: nat, mark: bool)
    ensures UnmapRange(s, root, [], n, mark) == s
  {}

  /**
   unmap_memory_range.  With set_in_allocator the machine stays valid exactly when the range
   avoids frame 0 and every table.
   */
  method UnmapMemoryRange(mmu: Mmu, start: nat, end: nat, setInAllocator: bool)
    requires mmu.Valid()
    requires end + 4096 <= WORD_64 && ClearOfWindow(First(start), Past(end))
    requires setInAllocator ==> Past(end) <= |mmu.bitmap|
    modifies mmu`mem, mmu`bitmap
    ensures mmu.Standing() && mmu.Shown() == old(mmu.Shown())
    ensures mmu.State() == UnmapRange(old(mmu.State()), old(mmu.Shown()), RangePages(start, end),
                                      First(start), setInAllocator)
    ensures RangeUnmapped(old(mmu.mem), mmu.mem, mmu.owners, mmu.Shown(), start, end)
    ensures mmu.Valid() <==> !setInAllocator || AvoidsTables(mmu.owners, First(start), Count(start, end))
  {
    hide WellFormed, UnmapRange, ClearOfWindow, AllUsed, RangeUnmapped, AvoidsTables, PagesFrom;
    AllUsedKeeps(mmu.State(), mmu.owners);
    ghost var s, o, root := mmu.State(), mmu.owners, mmu.Shown();
    ShownRoot(mmu);
    Bounds(start, end);
    UnmapSafe(s, o, root, start, end);
    var from, stop := Align.Down(start, 4096), Align.Up(end, 4096);
    if from < stop {
      UnmapLoop(mmu, from, stop, setInAllocator, First(start), Past(end) - First(start));
    } else {
      NoPages(First(start));
      UnmapRangeDone(s, root, First(start), setInAllocator);
    }
  }

  lemma UnmapSafe(s: Machine, o: Owners, root: nat, start: nat, end: nat)
    requires WellFormed(s, o) && IsRoot(o, root) && ClearOfWindow(First(start), Past(end))
    ensures var pages, n := RangePages(start, end), First(start);
            && WellFormed(UnmapRange(s, root, pages, n, false), o)
            && (WellFormed(UnmapRange(s, root, pages, n, true), o) <==> AvoidsTables(o, n, Count(start, end)))
            && UnmapRange(s, root, pages, n, true).mem == UnmapRange(s, root, pages, n, false).mem
            && RangeUnmapped(s.mem, UnmapRange(s, root, pages, n, false).mem, o, root, start, end)
  {
    hide WellFormed, UnmapRange, PagesFrom, First, Past, AvoidsTables, RangeUnmapped;
    var pages, n := RangePages(start, end), First(start);
    RangeClear(start, end);
    PagesLong(n, Count(start, end));
    RangeUntranslates(s, o, root, start, end);
    UnmapRangeMarked(s, root, pages, n);
    UnmapRangeFreesTables(s, o, root, pages, n);
    assert SameRootSet(o, o);
  }

  lemma RangePagesIs(start: nat, end: nat)
    ensures RangePages(start, end) == PagesFrom(First(start), Count(start, end))
  {}

  lemma PagesLong(n: nat, count: nat)
    ensures |PagesFrom(n, count)| == count
  {}
}
