/**
 The kernel heap: chunks carved from one growing address range, each on one of two
 intrusive doubly linked lists, the allocated list and the free list ("unsorted bin").

 Memory is a map from addresses to the value of the field or byte that starts there; an
 address without a value reads as 0.  A chunk at c keeps its size at c + 4, its links fd and
 bk at c + 8 and c + 16, its data pointer at c + 24 and its data from c + 32 on.
 */
module Heap {
  import opened Common
  import Align

  const HEADER := 32          // sizeof(malloc_chunk)
  const MIN_CHUNK := 64       // HEAP_CHUNK_MIN_SIZE_BYTES

  type Mem = map<nat, nat>

  function Get(m: Mem, a: nat): nat { if a in m then m[a] else 0 }

  function Size(m: Mem, c: nat): nat { Get(m, c + 4) }
  function Fd(m: Mem, c: nat): nat { Get(m, c + 8) }
  function Bk(m: Mem, c: nat): nat { Get(m, c + 16) }
  function Data(m: Mem, c: nat): nat { Get(m, c + 24) }

  /** memset(lo, 0, len) */
  function Zeroed(m: Mem, lo: nat, len: nat): Mem {
    map a | a in m && !(lo <= a < lo + len) :: m[a]
  }

  /** malloc_state; `base` is the address of the state itself, 64 bytes long. */
  datatype State = State(base: nat, end: nat, mchunk: nat, bin: nat, mem: Mem)

  // ---------------------------------------------------------------- link surgery

  /** Takes c out of its list: the neighbours' links. */
  function Unlinked(m: Mem, c: nat): Mem {
    var m1 := if Bk(m, c) != 0 then m[Bk(m, c) + 8 := Fd(m, c)] else m;
    if Fd(m1, c) != 0 then m1[Fd(m1, c) + 16 := Bk(m1, c)] else m1
  }

  /** Takes c out of its list: the head. */
  function UnlinkedHead(m: Mem, head: nat, c: nat): nat {
    if Bk(m, c) != 0 then head else Fd(m, c)
  }

  // ---------------------------------------------------------------- malloc

  /** Index of the first chunk of the list that holds `need` bytes, or the list's length. */
  function FirstFit(m: Mem, l: seq<nat>, need: nat): (i: nat)
    ensures i <= |l|
    ensures i < |l| ==> Size(m, l[i]) >= need
    ensures forall j :: 0 <= j < i ==> Size(m, l[j]) < need
  {
    if l == [] then 0 else if Size(m, l[0]) >= need then 0 else 1 + FirstFit(m, l[1..], need)
  }

  /** malloc when chunk c of the bin fits.  Only fd is stored back: bk keeps its old value. */
  function Reuse(h: State, c: nat): State {
    var bin := UnlinkedHead(h.mem, h.bin, c);
    var m0 := Unlinked(h.mem, c);
    var m1 := if h.mchunk != 0 then m0[h.mchunk + 16 := c] else m0;
    var m2 := Zeroed(m1, Data(h.mem, c), (Size(h.mem, c) - HEADER) % WORD_64);
    h.(mchunk := c, bin := bin, mem := m2[c + 8 := h.mchunk])
  }

  /** Size field of a new chunk: 32 bits. */
  function NewSize(size: nat): nat { (HEADER + (if 32 < size then size else 32)) % WORD_32 }

  /** malloc when nothing fits: a chunk at the end of the heap. */
  function Expand(h: State, size: nat): State {
    var c := h.end;
    var total := NewSize(size);
    var m1 := if h.mchunk != 0 then h.mem[h.mchunk + 16 := c] else h.mem;
    var m2: Mem := m1[c := 0][c + 4 := total][c + 8 := h.mchunk][c + 16 := 0][c + 24 := c + HEADER];
    var m3 := Zeroed(m2, c + HEADER, (total - HEADER) % WORD_64);
    h.(mchunk := c, end := h.end + Align.Up(total, MIN_CHUNK), mem := m3[c + 8 := h.mchunk])
  }

  // ---------------------------------------------------------------- free

  /** Index of the first chunk of the list whose data pointer is p, or the list's length. */
  function FindData(m: Mem, l: seq<nat>, p: nat): (i: nat)
    ensures i <= |l|
    ensures i < |l| ==> Data(m, l[i]) == p
    ensures forall j :: 0 <= j < i ==> Data(m, l[j]) != p
  {
    if l == [] then 0 else if Data(m, l[0]) == p then 0 else 1 + FindData(m, l[1..], p)
  }

  /** Puts c in front of the list that starts at head. */
  function Pushed(m: Mem, head: nat, c: nat): Mem {
    var m1 := m[c + 16 := 0][c + 8 := head];
    if head != 0 then m1[head + 16 := c] else m1
  }

  /** free of the allocated chunk c. */
  function Release(h: State, c: nat): State {
    var mchunk := UnlinkedHead(h.mem, h.mchunk, c);
    var m0 := Unlinked(h.mem, c);
    var m2 := Pushed(m0, h.bin, c);
    h.(mchunk := mchunk, bin := c, mem := Zeroed(m2, Data(m2, c), (Size(m2, c) - HEADER) % WORD_64))
  }

  // ---------------------------------------------------------------- lists in memory

  /** The links of chunk i of the list, except for the bk of the first. */
  predicate LinkAt(m: Mem, l: seq<nat>, i: nat)
    requires i < |l|
  {
    && Fd(m, l[i]) == (if i + 1 < |l| then l[i + 1] else 0)
    && (i > 0 ==> Bk(m, l[i]) == l[i - 1])
  }

  /** The chunks of l are chained forward, and backward except for the first one's bk. */
  predicate Linked(m: Mem, l: seq<nat>, head: nat) {
    && head == (if l == [] then 0 else l[0])
    && (forall i: nat :: i < |l| ==> LinkAt(m, l, i))
  }

  /** Chunk addresses are not NULL and at least a smallest chunk apart. */
  predicate Spaced(s: set<nat>) {
    && (forall c :: c in s ==> c > 0)
    && (forall c, d :: c in s && d in s && c != d ==> c + MIN_CHUNK <= d || d + MIN_CHUNK <= c)
  }

  predicate Inside(l: seq<nat>, s: set<nat>) {
    forall i :: 0 <= i < |l| ==> l[i] in s
  }

  /** The links of every chunk of s outside t are the same. */
  predicate SameLinks(m: Mem, m': Mem, s: set<nat>) {
    forall c :: c in s ==> Fd(m', c) == Fd(m, c) && Bk(m', c) == Bk(m, c)
  }

  function Without(l: seq<nat>, i: nat): seq<nat>
    requires i < |l|
  {
    l[..i] + l[i + 1..]
  }

  /** A list whose chunks' links did not change is still linked. */
  lemma LinkedFrame(m: Mem, m': Mem, l: seq<nat>, head: nat, s: set<nat>)
    requires Linked(m, l, head) && Inside(l, s) && SameLinks(m, m', s)
    ensures Linked(m', l, head)
  {
    forall i: nat | i < |l| ensures LinkAt(m', l, i) {
      assert LinkAt(m, l, i);
    }
  }

  /** What unlinking c does to the links of any chunk d. */
  lemma UnlinkedLinks(m: Mem, c: nat, s: set<nat>, d: nat)
    requires Spaced(s) && c in s && d in s
    requires Bk(m, c) == 0 || Bk(m, c) in s
    requires Fd(m, c) == 0 || Fd(m, c) in s
    requires Bk(m, c) != c
    ensures Fd(Unlinked(m, c), d) == if d == Bk(m, c) then Fd(m, c) else Fd(m, d)
    ensures Bk(Unlinked(m, c), d) == if d == Fd(m, c) then Bk(m, c) else Bk(m, d)
  {}

  /** Unlinking chunk i, whose bk is right, leaves a linked list without it. */
  lemma UnlinkList(m: Mem, l: seq<nat>, head: nat, i: nat, s: set<nat>)
    requires Linked(m, l, head) && Distinct(l) && Spaced(s) && Inside(l, s) && i < |l|
    requires i == 0 ==> Bk(m, l[0]) == 0
    ensures Linked(Unlinked(m, l[i]), Without(l, i), UnlinkedHead(m, head, l[i]))
    ensures Without(l, i) != [] ==> Bk(Unlinked(m, l[i]), Without(l, i)[0]) == Bk(m, l[0])
  {
    hide Unlinked, Get, Bk, Fd;
    var c, m', l' := l[i], Unlinked(m, l[i]), Without(l, i);
    assert LinkAt(m, l, i);
    LinksInList(m, l, head, i, s);
    forall j: nat | j < |l'| ensures LinkAt(m', l', j) && (j == 0 ==> Bk(m', l'[0]) == Bk(m, l[0])) {
      var k := if j < i then j else j + 1;
      assert l'[j] == l[k] && LinkAt(m, l, k);
      UnlinkedLinks(m, c, s, l'[j]);
    }
    assert l' != [] ==> LinkAt(m', l', 0);
  }

  /** Putting c in front of a linked list. */
  lemma PushList(m: Mem, m': Mem, l: seq<nat>, head: nat, c: nat)
    requires Linked(m, l, head) && Distinct(l) && c !in l
    requires Fd(m', c) == head
    requires forall d :: d in l ==> Fd(m', d) == Fd(m, d)
    requires forall d :: d in l ==> Bk(m', d) == if d == head then c else Bk(m, d)
    ensures Linked(m', [c] + l, c)
  {
    var l' := [c] + l;
    forall j: nat | j < |l'| ensures LinkAt(m', l', j) {
      if j > 0 {
        assert l'[j] == l[j - 1] && LinkAt(m, l, j - 1);
      }
    }
  }

  // ---------------------------------------------------------------- the heap invariant

  /** The chunks on the allocated list, on the free list, and all of them in address order. */
  datatype Lists = Lists(alloc: seq<nat>, free: seq<nat>, chunks: seq<nat>)

  /** The room chunk c takes: its size rounded up to 64 bytes. */
  function Span(m: Mem, c: nat): nat { Align.Up(Size(m, c), MIN_CHUNK) }

  predicate GoodChunk(m: Mem, c: nat) {
    && MIN_CHUNK <= Size(m, c) < WORD_32
    && Data(m, c) == c + HEADER
  }

  /** Chunk i starts where the one before it ends. */
  predicate TileAt(m: Mem, chunks: seq<nat>, start: nat, i: nat)
    requires i < |chunks|
  {
    && GoodChunk(m, chunks[i])
    && chunks[i] == (if i == 0 then start else chunks[i - 1] + Span(m, chunks[i - 1]))
  }

  /** The chunks, rounded up to 64 bytes, fill [start, end) without gap or overlap. */
  predicate Tiles(m: Mem, chunks: seq<nat>, start: nat, end: nat) {
    && (forall i: nat :: i < |chunks| ==> TileAt(m, chunks, start, i))
    && end == (if chunks == [] then start else chunks[|chunks| - 1] + Span(m, chunks[|chunks| - 1]))
  }

  predicate Partition(x: Lists) {
    && Distinct(x.alloc) && Distinct(x.free)
    && (forall c :: c in x.chunks ==> c in x.alloc || c in x.free)
    && (forall c :: c in x.alloc ==> c in x.chunks && c !in x.free)
    && (forall c :: c in x.free ==> c in x.chunks)
  }

  predicate Valid(h: State, x: Lists) {
    && Tiles(h.mem, x.chunks, h.base + MIN_CHUNK, h.end)
    && Partition(x)
    && Linked(h.mem, x.alloc, h.mchunk)
    && Linked(h.mem, x.free, h.bin)
    && (x.free != [] ==> Bk(h.mem, x.free[0]) == 0)
  }

  /** The bk of the first allocated chunk is right. */
  predicate Clean(h: State) { h.mchunk != 0 ==> Bk(h.mem, h.mchunk) == 0 }

  lemma SpanBound(m: Mem, c: nat)
    requires GoodChunk(m, c)
    ensures Size(m, c) <= Span(m, c)
  {
    Align.UpIsLeast(Size(m, c), MIN_CHUNK);
  }

  /** Chunks in address order lie one after the other, from start to end. */
  lemma {:induction false} TilesOrdered(m: Mem, chunks: seq<nat>, start: nat, end: nat, i: nat, j: nat)
    requires Tiles(m, chunks, start, end) && i < j < |chunks|
    ensures chunks[i] + Size(m, chunks[i]) <= chunks[j]
    decreases j
  {
    assert TileAt(m, chunks, start, j) && TileAt(m, chunks, start, j - 1);
    SpanBound(m, chunks[j - 1]);
    if i < j - 1 {
      TilesOrdered(m, chunks, start, end, i, j - 1);
    }
  }

  lemma TilesBounded(m: Mem, chunks: seq<nat>, start: nat, end: nat, i: nat)
    requires Tiles(m, chunks, start, end) && i < |chunks|
    ensures GoodChunk(m, chunks[i]) && start <= chunks[i] && chunks[i] + Size(m, chunks[i]) <= end
  {
    var last := |chunks| - 1;
    assert TileAt(m, chunks, start, i) && TileAt(m, chunks, start, 0) && TileAt(m, chunks, start, last);
    SpanBound(m, chunks[last]);
    if i > 0 { TilesOrdered(m, chunks, start, end, 0, i); }
    if i < last { TilesOrdered(m, chunks, start, end, i, last); }
  }

  ghost function ChunkSet(x: Lists): set<nat> { set c | c in x.chunks }

  /** Two chunks share no byte. */
  predicate Apart(m: Mem, c: nat, d: nat) {
    c + Size(m, c) <= d || d + Size(m, d) <= c
  }

  /** Every chunk is good and lies in the heap, and no two share a byte. */
  predicate Layout(h: State, s: set<nat>) {
    && (forall c :: c in s ==> GoodChunk(h.mem, c) && h.base + MIN_CHUNK <= c && c + Size(h.mem, c) <= h.end)
    && (forall c, d :: c in s && d in s && c != d ==> Apart(h.mem, c, d))
  }

  lemma ValidLayout(h: State, x: Lists)
    requires Tiles(h.mem, x.chunks, h.base + MIN_CHUNK, h.end)
    ensures Layout(h, ChunkSet(x)) && Spaced(ChunkSet(x))
  {
    var s, l := ChunkSet(x), x.chunks;
    forall c | c in s
      ensures GoodChunk(h.mem, c) && h.base + MIN_CHUNK <= c && c + Size(h.mem, c) <= h.end
    {
      var i: nat :| i < |l| && l[i] == c;
      TilesBounded(h.mem, l, h.base + MIN_CHUNK, h.end, i);
    }
    forall c, d | c in s && d in s && c != d ensures Apart(h.mem, c, d) {
      var i: nat :| i < |l| && l[i] == c;
      var j: nat :| j < |l| && l[j] == d;
      if i < j {
        TilesOrdered(h.mem, l, h.base + MIN_CHUNK, h.end, i, j);
      } else {
        TilesOrdered(h.mem, l, h.base + MIN_CHUNK, h.end, j, i);
      }
    }
  }

  // ---------------------------------------------------------------- cell by cell

  lemma ZeroedGet(m: Mem, lo: nat, len: nat, a: nat)
    ensures Get(Zeroed(m, lo, len), a) == if lo <= a < lo + len then 0 else Get(m, a)
  {}

  /** The links of c lead to other chunks of s. */
  predicate LinksIn(m: Mem, c: nat, s: set<nat>) {
    && (Bk(m, c) == 0 || Bk(m, c) in s) && Bk(m, c) != c
    && (Fd(m, c) == 0 || Fd(m, c) in s)
  }

  lemma UnlinkedGet(m: Mem, c: nat, s: set<nat>, a: nat)
    requires Spaced(s) && c in s && LinksIn(m, c, s)
    ensures Get(Unlinked(m, c), a) ==
            if Fd(m, c) != 0 && a == Fd(m, c) + 16 then Bk(m, c)
            else if Bk(m, c) != 0 && a == Bk(m, c) + 8 then Fd(m, c)
            else Get(m, a)
  {}

  lemma ReuseGet(h: State, c: nat, a: nat)
    requires GoodChunk(h.mem, c)
    ensures Get(Reuse(h, c).mem, a) ==
            if a == c + 8 then h.mchunk
            else if c + HEADER <= a < c + Size(h.mem, c) then 0
            else if h.mchunk != 0 && a == h.mchunk + 16 then c
            else Get(Unlinked(h.mem, c), a)
  {
    hide Unlinked;
    var m0 := Unlinked(h.mem, c);
    var m1 := if h.mchunk != 0 then m0[h.mchunk + 16 := c] else m0;
    ZeroedGet(m1, Data(h.mem, c), Size(h.mem, c) - HEADER, a);
  }

  /** What malloc from the bin does to the header of any chunk d. */
  lemma ReuseHeader(h: State, s: set<nat>, c: nat, d: nat)
    requires Spaced(s) && Layout(h, s) && c in s && d in s && LinksIn(h.mem, c, s)
    requires h.mchunk == 0 || h.mchunk in s
    ensures var m := Reuse(h, c).mem;
            && Size(m, d) == Size(h.mem, d) && Data(m, d) == Data(h.mem, d)
            && Fd(m, d) == (if d == c then h.mchunk else if d == Bk(h.mem, c) then Fd(h.mem, c) else Fd(h.mem, d))
            && Bk(m, d) == (if d == h.mchunk then c else if d == Fd(h.mem, c) then Bk(h.mem, c) else Bk(h.mem, d))
  {
    hide Reuse, Unlinked, Get, Layout, Spaced;
    TwoChunks(h, s, c, d);
    ClearOfLinks(h.mem, s, c, d, h.mchunk);
    ReuseGet(h, c, d + 4); UnlinkedGet(h.mem, c, s, d + 4);
    ReuseGet(h, c, d + 8); UnlinkedGet(h.mem, c, s, d + 8);
    ReuseGet(h, c, d + 16); UnlinkedGet(h.mem, c, s, d + 16);
    ReuseGet(h, c, d + 24); UnlinkedGet(h.mem, c, s, d + 24);
  }

  lemma PushedGet(m: Mem, head: nat, c: nat, a: nat)
    ensures Get(Pushed(m, head, c), a) ==
            if head != 0 && a == head + 16 then c
            else if a == c + 8 then head
            else if a == c + 16 then 0
            else Get(m, a)
  {}

  /** d and e are the same chunk, or their headers do not touch. */
  predicate Clear(d: nat, e: nat) { d == e || d + MIN_CHUNK <= e || e + MIN_CHUNK <= d }

  lemma TwoChunks(h: State, s: set<nat>, c: nat, d: nat)
    requires Spaced(s) && Layout(h, s) && c in s && d in s
    ensures GoodChunk(h.mem, c) && GoodChunk(h.mem, d) && c > 0 && d > 0
    ensures c != d ==> Apart(h.mem, c, d)
  {}

  /** The chunk addresses that unlinking and relinking c writes to. */
  lemma ClearOfLinks(m: Mem, s: set<nat>, c: nat, d: nat, head: nat)
    requires Spaced(s) && c in s && d in s && LinksIn(m, c, s) && (head == 0 || head in s)
    ensures Clear(d, c) && d > 0 && (head != 0 ==> Clear(d, head))
    ensures (Fd(m, c) != 0 ==> Clear(d, Fd(m, c))) && (Bk(m, c) != 0 ==> Clear(d, Bk(m, c)))
  {}

  lemma ReleaseMem(h: State, c: nat, s: set<nat>)
    requires Spaced(s) && c in s && GoodChunk(h.mem, c) && LinksIn(h.mem, c, s)
    requires h.bin == 0 || h.bin in s
    ensures Release(h, c).mem ==
            Zeroed(Pushed(Unlinked(h.mem, c), h.bin, c), c + HEADER, Size(h.mem, c) - HEADER)
  {
    hide Get, Unlinked, Spaced, Pushed, Zeroed, UnlinkedHead;
    var m2 := Pushed(Unlinked(h.mem, c), h.bin, c);
    ClearOfLinks(h.mem, s, c, c, h.bin);
    UnlinkedGet(h.mem, c, s, c + 4);
    UnlinkedGet(h.mem, c, s, c + 24);
    PushedGet(Unlinked(h.mem, c), h.bin, c, c + 4);
    PushedGet(Unlinked(h.mem, c), h.bin, c, c + 24);
    assert Size(m2, c) == Size(h.mem, c) && Data(m2, c) == c + HEADER;
    assert (Size(m2, c) - HEADER) % WORD_64 == Size(h.mem, c) - HEADER;
    assert Release(h, c).mem == Zeroed(m2, Data(m2, c), (Size(m2, c) - HEADER) % WORD_64);
  }

  lemma ReleaseGet(h: State, c: nat, s: set<nat>, a: nat)
    requires Spaced(s) && c in s && GoodChunk(h.mem, c) && LinksIn(h.mem, c, s)
    requires h.bin == 0 || h.bin in s
    ensures Get(Release(h, c).mem, a) ==
            if c + HEADER <= a < c + Size(h.mem, c) then 0
            else if h.bin != 0 && a == h.bin + 16 then c
            else if a == c + 8 then h.bin
            else if a == c + 16 then 0
            else Get(Unlinked(h.mem, c), a)
  {
    hide Release, Unlinked, Zeroed, Pushed, Get, Spaced;
    var m2 := Pushed(Unlinked(h.mem, c), h.bin, c);
    ReleaseMem(h, c, s);
    ZeroedGet(m2, c + HEADER, Size(h.mem, c) - HEADER, a);
    PushedGet(Unlinked(h.mem, c), h.bin, c, a);
  }

  /** What free does to the header of any chunk d. */
  lemma ReleaseHeader(h: State, s: set<nat>, c: nat, d: nat)
    requires Spaced(s) && Layout(h, s) && c in s && d in s && LinksIn(h.mem, c, s)
    requires h.bin == 0 || h.bin in s
    ensures var m := Release(h, c).mem;
            && Size(m, d) == Size(h.mem, d) && Data(m, d) == Data(h.mem, d)
            && Fd(m, d) == (if d == c then h.bin else if d == Bk(h.mem, c) then Fd(h.mem, c) else Fd(h.mem, d))
            && Bk(m, d) == (if d == h.bin then c else if d == c then 0
                            else if d == Fd(h.mem, c) then Bk(h.mem, c) else Bk(h.mem, d))
  {
    hide Release, Unlinked, Layout, Spaced, Get;
    TwoChunks(h, s, c, d);
    ReleaseCell(h, s, c, d, 4);
    ReleaseCell(h, s, c, d, 8);
    ReleaseCell(h, s, c, d, 16);
    ReleaseCell(h, s, c, d, 24);
  }

  /** The cell at offset k of the header of d, after free of c. */
  lemma ReleaseCell(h: State, s: set<nat>, c: nat, d: nat, k: nat)
    requires Spaced(s) && c in s && d in s && LinksIn(h.mem, c, s) && GoodChunk(h.mem, c)
    requires h.bin == 0 || h.bin in s
    requires k < HEADER && (c != d ==> Apart(h.mem, c, d)) && GoodChunk(h.mem, d)
    ensures Get(Release(h, c).mem, d + k) ==
            if k == 16 && d == h.bin then c
            else if k == 8 && d == c then h.bin
            else if k == 16 && d == c then 0
            else if k == 16 && d == Fd(h.mem, c) then Bk(h.mem, c)
            else if k == 8 && d == Bk(h.mem, c) then Fd(h.mem, c)
            else Get(h.mem, d + k)
  {
    hide Release, Unlinked, Spaced, Get;
    ClearOfLinks(h.mem, s, c, d, h.bin);
    ReleaseGet(h, c, s, d + k);
    UnlinkedGet(h.mem, c, s, d + k);
  }

  lemma NewSizeFits(size: nat)
    requires HEADER + size < WORD_32
    ensures HEADER + size <= NewSize(size) < WORD_32 && MIN_CHUNK <= NewSize(size)
  {}

  lemma ExpandGet(h: State, size: nat, a: nat)
    requires HEADER + size < WORD_32
    ensures var c := h.end;
            Get(Expand(h, size).mem, a) ==
            if a == c + 8 then h.mchunk
            else if c + HEADER <= a < c + NewSize(size) then 0
            else if a == c || a == c + 16 then 0
            else if a == c + 4 then NewSize(size)
            else if a == c + 24 then c + HEADER
            else if h.mchunk != 0 && a == h.mchunk + 16 then c
            else Get(h.mem, a)
  {
    hide NewSize, Zeroed, Align.Up;
    NewSizeFits(size);
    var c := h.end;
    var m1 := if h.mchunk != 0 then h.mem[h.mchunk + 16 := c] else h.mem;
    var m2: Mem := m1[c := 0][c + 4 := NewSize(size)][c + 8 := h.mchunk][c + 16 := 0][c + 24 := c + HEADER];
    ZeroedGet(m2, c + HEADER, NewSize(size) - HEADER, a);
  }

  /** What malloc at the end of the heap does to the header of any chunk d. */
  lemma ExpandHeader(h: State, s: set<nat>, size: nat, d: nat)
    requires Layout(h, s) && d in s && HEADER + size < WORD_32
    requires h.mchunk == 0 || h.mchunk in s
    ensures var m := Expand(h, size).mem;
            && Size(m, d) == Size(h.mem, d) && Data(m, d) == Data(h.mem, d)
            && Fd(m, d) == Fd(h.mem, d)
            && Bk(m, d) == (if d == h.mchunk then h.end else Bk(h.mem, d))
  {
    hide Expand;
    assert h.mchunk != 0 && h.mchunk != d ==> Apart(h.mem, h.mchunk, d);
    ExpandGet(h, size, d + 4);
    ExpandGet(h, size, d + 8);
    ExpandGet(h, size, d + 16);
    ExpandGet(h, size, d + 24);
  }

  // ---------------------------------------------------------------- malloc and free keep the heap

  lemma WithoutMembers(l: seq<nat>, i: nat)
    requires i < |l| && Distinct(l)
    ensures Distinct(Without(l, i))
    ensures forall d :: d in Without(l, i) <==> d in l && d != l[i]
  {
    forall d ensures d in Without(l, i) <==> d in l && d != l[i] {
      if d in l && d != l[i] {
        var k :| 0 <= k < |l| && l[k] == d;
        assert Without(l, i)[if k < i then k else k - 1] == d;
      }
    }
  }

  lemma TilesFrame(m: Mem, m': Mem, chunks: seq<nat>, start: nat, end: nat)
    requires Tiles(m, chunks, start, end)
    requires forall c :: c in chunks ==> Size(m', c) == Size(m, c) && Data(m', c) == Data(m, c)
    ensures Tiles(m', chunks, start, end)
  {
    forall i: nat | i < |chunks| ensures TileAt(m', chunks, start, i) {
      assert TileAt(m, chunks, start, i);
      assert i > 0 ==> chunks[i - 1] in chunks;
    }
  }

  /** The links of chunk i of a linked list lead to chunks of that list. */
  lemma LinksInList(m: Mem, l: seq<nat>, head: nat, i: nat, s: set<nat>)
    requires Linked(m, l, head) && Distinct(l) && Inside(l, s) && i < |l|
    requires i == 0 ==> Bk(m, l[0]) == 0
    requires Spaced(s)
    ensures LinksIn(m, l[i], s)
    ensures Bk(m, l[i]) == 0 || Bk(m, l[i]) in l
    ensures Fd(m, l[i]) == 0 || Fd(m, l[i]) in l
    ensures Bk(m, l[i]) == 0 <==> i == 0
  {
    assert LinkAt(m, l, i);
  }

  lemma PushDistinct(l: seq<nat>, c: nat)
    requires Distinct(l) && c !in l
    ensures Distinct([c] + l)
    ensures forall d :: d in [c] + l <==> d == c || d in l
  {
    var l' := [c] + l;
    forall i, j | 0 <= i < j < |l'| ensures l'[i] != l'[j] {
      assert l'[j] == l[j - 1];
    }
  }

  /** Moving c = from[i] to the front of another list changes the links like this. */
  ghost predicate MovedLinks(m: Mem, m': Mem, c: nat, head: nat, s: set<nat>) {
    forall d :: d in s && d != c ==>
      && Fd(m', d) == (if d == Bk(m, c) then Fd(m, c) else Fd(m, d))
      && Bk(m', d) == (if d == head then c else if d == Fd(m, c) then Bk(m, c) else Bk(m, d))
  }

  lemma HeadOutside(m: Mem, to: seq<nat>, toHead: nat, from: seq<nat>, s: set<nat>)
    requires Linked(m, to, toHead) && (forall d :: d in to ==> d !in from) && Spaced(s) && Inside(from, s)
    ensures toHead !in from
  {
    assert to != [] ==> to[0] in to;
  }

  /** The list c was taken from. */
  lemma MovedFrom(m: Mem, m': Mem, from: seq<nat>, fromHead: nat, to: seq<nat>, toHead: nat, i: nat, s: set<nat>)
    requires Linked(m, from, fromHead) && Distinct(from) && Spaced(s) && Inside(from, s) && i < |from|
    requires i == 0 ==> Bk(m, from[0]) == 0
    requires Linked(m, to, toHead) && (forall d :: d in to ==> d !in from)
    requires MovedLinks(m, m', from[i], toHead, s)
    ensures Linked(m', Without(from, i), UnlinkedHead(m, fromHead, from[i]))
    ensures Without(from, i) != [] ==> Bk(m', Without(from, i)[0]) == Bk(m, from[0])
  {
    hide Unlinked, Linked, Get;
    var c, t := from[i], set d | d in from && d != from[i];
    UnlinkList(m, from, fromHead, i, s);
    LinksInList(m, from, fromHead, i, s);
    HeadOutside(m, to, toHead, from, s);
    WithoutMembers(from, i);
    forall d | d in t
      ensures Fd(m', d) == Fd(Unlinked(m, c), d) && Bk(m', d) == Bk(Unlinked(m, c), d)
    {
      UnlinkedLinks(m, c, s, d);
    }
    LinkedFrame(Unlinked(m, c), m', Without(from, i), UnlinkedHead(m, fromHead, c), t);
  }

  /** The list c was put on. */
  lemma MovedTo(m: Mem, m': Mem, from: seq<nat>, fromHead: nat, to: seq<nat>, toHead: nat, i: nat, s: set<nat>)
    requires Linked(m, from, fromHead) && Distinct(from) && Spaced(s) && Inside(from, s) && i < |from|
    requires i == 0 ==> Bk(m, from[0]) == 0
    requires Linked(m, to, toHead) && Distinct(to) && Inside(to, s) && (forall d :: d in to ==> d !in from)
    requires MovedLinks(m, m', from[i], toHead, s) && Fd(m', from[i]) == toHead
    ensures Linked(m', [from[i]] + to, from[i])
  {
    LinksInList(m, from, fromHead, i, s);
    PushList(m, m', to, toHead, from[i]);
  }

  function ReuseLists(x: Lists, i: nat): Lists
    requires i < |x.free|
  {
    Lists([x.free[i]] + x.alloc, Without(x.free, i), x.chunks)
  }

  lemma PartitionInside(x: Lists)
    requires Partition(x)
    ensures Inside(x.free, ChunkSet(x)) && Inside(x.alloc, ChunkSet(x))
    ensures Distinct(x.alloc) && Distinct(x.free) && (forall d :: d in x.alloc ==> d !in x.free)
  {}

  lemma ReusePartition(x: Lists, i: nat)
    requires Partition(x) && i < |x.free|
    ensures Partition(ReuseLists(x, i))
  {
    WithoutMembers(x.free, i);
    PushDistinct(x.alloc, x.free[i]);
  }

  /** Sizes and data pointers of all chunks are the same. */
  ghost predicate SameShape(m: Mem, m': Mem, s: set<nat>) {
    forall d :: d in s ==> Size(m', d) == Size(m, d) && Data(m', d) == Data(m, d)
  }

  lemma ReuseMoves(h: State, x: Lists, i: nat)
    requires Valid(h, x) && i < |x.free|
    ensures var c, s, h' := x.free[i], ChunkSet(x), Reuse(h, x.free[i]);
            && h' == State(h.base, h.end, c, UnlinkedHead(h.mem, h.bin, c), h'.mem)
            && SameShape(h.mem, h'.mem, s) && MovedLinks(h.mem, h'.mem, c, h.mchunk, s)
            && Fd(h'.mem, c) == h.mchunk && Bk(h'.mem, c) == Bk(h.mem, c)
  {
    var c, s, h' := x.free[i], ChunkSet(x), Reuse(h, x.free[i]);
    ValidLayout(h, x);
    LinksInList(h.mem, x.free, h.bin, i, s);
    forall d | d in s
      ensures Size(h'.mem, d) == Size(h.mem, d) && Data(h'.mem, d) == Data(h.mem, d)
      ensures Fd(h'.mem, d) == (if d == c then h.mchunk else if d == Bk(h.mem, c) then Fd(h.mem, c) else Fd(h.mem, d))
      ensures Bk(h'.mem, d) == (if d == h.mchunk then c else if d == Fd(h.mem, c) then Bk(h.mem, c) else Bk(h.mem, d))
    {
      ReuseHeader(h, s, c, d);
    }
    assert LinkAt(h.mem, x.free, i);
  }

  lemma ReuseLinked(h: State, x: Lists, i: nat)
    requires Valid(h, x) && i < |x.free|
    ensures var c, h' := x.free[i], Reuse(h, x.free[i]);
            && Linked(h'.mem, [c] + x.alloc, h'.mchunk)
            && Linked(h'.mem, Without(x.free, i), h'.bin)
            && (Without(x.free, i) != [] ==> Bk(h'.mem, Without(x.free, i)[0]) == 0)
  {
    hide Reuse, Tiles, Linked, Partition, Layout, Spaced, MovedLinks, Get;
    var s, h' := ChunkSet(x), Reuse(h, x.free[i]);
    ReuseMoves(h, x, i);
    PartitionInside(x);
    ValidLayout(h, x);
    MovedFrom(h.mem, h'.mem, x.free, h.bin, x.alloc, h.mchunk, i, s);
    MovedTo(h.mem, h'.mem, x.free, h.bin, x.alloc, h.mchunk, i, s);
  }

  lemma MallocReuse(h: State, x: Lists, i: nat)
    requires Valid(h, x) && i < |x.free|
    ensures Valid(Reuse(h, x.free[i]), ReuseLists(x, i))
  {
    hide Reuse, Tiles, Linked, Partition, Get, MovedLinks;
    var h' := Reuse(h, x.free[i]);
    ReuseMoves(h, x, i);
    TilesFrame(h.mem, h'.mem, x.chunks, h.base + MIN_CHUNK, h.end);
    ReusePartition(x, i);
    ReuseLinked(h, x, i);
  }

  function ReleaseLists(x: Lists, i: nat): Lists
    requires i < |x.alloc|
  {
    Lists(Without(x.alloc, i), [x.alloc[i]] + x.free, x.chunks)
  }

  lemma ReleasePartition(x: Lists, i: nat)
    requires Partition(x) && i < |x.alloc|
    ensures Partition(ReleaseLists(x, i))
  {
    WithoutMembers(x.alloc, i);
    PushDistinct(x.free, x.alloc[i]);
  }

  lemma ReleaseMoves(h: State, x: Lists, i: nat)
    requires Valid(h, x) && i < |x.alloc| && (i == 0 ==> Bk(h.mem, x.alloc[0]) == 0)
    ensures var c, s, h' := x.alloc[i], ChunkSet(x), Release(h, x.alloc[i]);
            && h' == State(h.base, h.end, UnlinkedHead(h.mem, h.mchunk, c), c, h'.mem)
            && SameShape(h.mem, h'.mem, s) && MovedLinks(h.mem, h'.mem, c, h.bin, s)
            && Fd(h'.mem, c) == h.bin && Bk(h'.mem, c) == 0
  {
    var c, s, h' := x.alloc[i], ChunkSet(x), Release(h, x.alloc[i]);
    ValidLayout(h, x);
    LinksInList(h.mem, x.alloc, h.mchunk, i, s);
    forall d | d in s
      ensures Size(h'.mem, d) == Size(h.mem, d) && Data(h'.mem, d) == Data(h.mem, d)
      ensures Fd(h'.mem, d) == (if d == c then h.bin else if d == Bk(h.mem, c) then Fd(h.mem, c) else Fd(h.mem, d))
      ensures Bk(h'.mem, d) == (if d == h.bin then c else if d == c then 0
                                else if d == Fd(h.mem, c) then Bk(h.mem, c) else Bk(h.mem, d))
    {
      ReleaseHeader(h, s, c, d);
    }
  }

  lemma ReleaseLinked(h: State, x: Lists, i: nat)
    requires Valid(h, x) && i < |x.alloc| && (i == 0 ==> Bk(h.mem, x.alloc[0]) == 0)
    ensures var c, h' := x.alloc[i], Release(h, x.alloc[i]);
            && Linked(h'.mem, Without(x.alloc, i), h'.mchunk)
            && Linked(h'.mem, [c] + x.free, h'.bin) && Bk(h'.mem, c) == 0
            && (Without(x.alloc, i) != [] ==> Bk(h'.mem, Without(x.alloc, i)[0]) == Bk(h.mem, x.alloc[0]))
  {
    hide Release, Tiles, Linked, Partition, Layout, Spaced, MovedLinks, Get;
    var s, h' := ChunkSet(x), Release(h, x.alloc[i]);
    ReleaseMoves(h, x, i);
    PartitionInside(x);
    ValidLayout(h, x);
    MovedFrom(h.mem, h'.mem, x.alloc, h.mchunk, x.free, h.bin, i, s);
    MovedTo(h.mem, h'.mem, x.alloc, h.mchunk, x.free, h.bin, i, s);
  }

  lemma FreeRelease(h: State, x: Lists, i: nat)
    requires Valid(h, x) && i < |x.alloc| && (i == 0 ==> Bk(h.mem, x.alloc[0]) == 0)
    ensures Valid(Release(h, x.alloc[i]), ReleaseLists(x, i))
  {
    hide Release, Tiles, Linked, Partition, Get, MovedLinks;
    var h' := Release(h, x.alloc[i]);
    ReleaseMoves(h, x, i);
    TilesFrame(h.mem, h'.mem, x.chunks, h.base + MIN_CHUNK, h.end);
    ReleasePartition(x, i);
    ReleaseLinked(h, x, i);
  }

  function ExpandLists(x: Lists, c: nat): Lists {
    Lists([c] + x.alloc, x.free, x.chunks + [c])
  }

  lemma ExpandPartition(x: Lists, c: nat)
    requires Partition(x) && c !in x.chunks
    ensures Partition(ExpandLists(x, c))
  {
    PushDistinct(x.alloc, c);
  }

  lemma EndIsNew(h: State, x: Lists)
    requires Valid(h, x)
    ensures h.end !in x.chunks && h.base + MIN_CHUNK <= h.end
  {
    ValidLayout(h, x);
    if x.chunks != [] {
      assert x.chunks[0] in ChunkSet(x);
    }
    assert h.end in x.chunks <==> h.end in ChunkSet(x);
  }

  lemma ExpandFields(h: State, size: nat)
    requires HEADER + size < WORD_32
    ensures var c, h' := h.end, Expand(h, size);
            && h'.base == h.base && h'.mchunk == c && h'.bin == h.bin
            && Size(h'.mem, c) == NewSize(size) && Data(h'.mem, c) == c + HEADER
            && Fd(h'.mem, c) == h.mchunk && Bk(h'.mem, c) == 0
            && h'.end == c + Span(h'.mem, c)
  {
    var c := h.end;
    ExpandGet(h, size, c + 4);
    ExpandGet(h, size, c + 8);
    ExpandGet(h, size, c + 16);
    ExpandGet(h, size, c + 24);
  }

  /** A new head c changes the old head's bk only. */
  ghost predicate NewHeadLinks(m: Mem, m': Mem, c: nat, head: nat, s: set<nat>) {
    forall d :: d in s ==> Fd(m', d) == Fd(m, d) && Bk(m', d) == (if d == head then c else Bk(m, d))
  }

  lemma ExpandMoves(h: State, x: Lists, size: nat)
    requires Valid(h, x) && HEADER + size < WORD_32
    ensures SameShape(h.mem, Expand(h, size).mem, ChunkSet(x))
    ensures NewHeadLinks(h.mem, Expand(h, size).mem, h.end, h.mchunk, ChunkSet(x))
  {
    var s, m', c := ChunkSet(x), Expand(h, size).mem, h.end;
    ValidLayout(h, x);
    forall d | d in s
      ensures Size(m', d) == Size(h.mem, d) && Data(m', d) == Data(h.mem, d)
      ensures Fd(m', d) == Fd(h.mem, d) && Bk(m', d) == (if d == h.mchunk then c else Bk(h.mem, d))
    {
      ExpandHeader(h, s, size, d);
    }
  }

  lemma ExpandTiles(m: Mem, m': Mem, chunks: seq<nat>, start: nat, c: nat)
    requires Tiles(m, chunks, start, c)
    requires forall d :: d in chunks ==> Size(m', d) == Size(m, d) && Data(m', d) == Data(m, d)
    requires GoodChunk(m', c)
    ensures Tiles(m', chunks + [c], start, c + Span(m', c))
  {
    TilesFrame(m, m', chunks, start, c);
    var l := chunks + [c];
    forall i: nat | i < |l| ensures TileAt(m', l, start, i) {
      if i < |chunks| {
        assert TileAt(m', chunks, start, i);
      }
    }
  }

  lemma ExpandTilesValid(h: State, x: Lists, size: nat)
    requires Valid(h, x) && HEADER + size < WORD_32
    ensures Tiles(Expand(h, size).mem, x.chunks + [h.end], h.base + MIN_CHUNK, Expand(h, size).end)
  {
    hide Expand, Tiles, Linked, Partition, Span, Get, NewHeadLinks;
    NewSizeFits(size);
    var m' := Expand(h, size).mem;
    ExpandFields(h, size);
    ExpandMoves(h, x, size);
    forall d | d in x.chunks ensures Size(m', d) == Size(h.mem, d) && Data(m', d) == Data(h.mem, d) {
      assert d in ChunkSet(x);
    }
    ExpandTiles(h.mem, m', x.chunks, h.base + MIN_CHUNK, h.end);
  }

  lemma ExpandLinked(h: State, m': Mem, x: Lists)
    requires Valid(h, x) && h.end !in x.chunks
    requires NewHeadLinks(h.mem, m', h.end, h.mchunk, ChunkSet(x))
    requires Fd(m', h.end) == h.mchunk
    ensures Linked(m', [h.end] + x.alloc, h.end) && Linked(m', x.free, h.bin)
    ensures x.free != [] ==> Bk(m', x.free[0]) == 0
  {
    assert forall d :: d in x.alloc ==> d in ChunkSet(x);
    PushList(h.mem, m', x.alloc, h.mchunk, h.end);
    ValidLayout(h, x);
    forall d | d in x.free ensures d != h.mchunk && d in ChunkSet(x) {
      assert d in ChunkSet(x);
      assert x.alloc != [] ==> x.alloc[0] in x.alloc;
    }
    LinkedFrame(h.mem, m', x.free, h.bin, set d | d in x.free);
    assert x.free != [] ==> x.free[0] in x.free;
  }

  lemma MallocExpand(h: State, x: Lists, size: nat)
    requires Valid(h, x) && HEADER + size < WORD_32
    ensures Valid(Expand(h, size), ExpandLists(x, h.end))
  {
    hide Expand, Tiles, Linked, Partition, Span, NewSize, SameShape, NewHeadLinks, Get;
    ExpandFields(h, size);
    ExpandMoves(h, x, size);
    ExpandTilesValid(h, x, size);
    EndIsNew(h, x);
    ExpandPartition(x, h.end);
    ExpandLinked(h, Expand(h, size).mem, x);
  }

  // ---------------------------------------------------------------- whole calls

  /** The chunk for a request of this size has a size field that fits its 32 bits. */
  predicate Fits(size: nat) { size < WORD_32 && HEADER + Align.Up(size, 16) < WORD_32 }

  /** The size field of a new chunk covers the (rounded) request exactly when it fits. */
  lemma NewSizeIff(size: nat)
    requires size < WORD_32
    ensures NewSize(Align.Up(size, 16)) >= HEADER + Align.Up(size, 16) <==> Fits(size)
  {
    Align.UpIsLeast(size, 16);
  }

  /** malloc; x.free is the list that starts at h.bin. */
  function Malloc(h: State, x: Lists, size: nat): (State, nat) {
    var need := Align.Up(size, 16);
    var i := FirstFit(h.mem, x.free, need + HEADER);
    if i < |x.free| then (Reuse(h, x.free[i]), Data(h.mem, x.free[i]))
    else (Expand(h, need), h.end + HEADER)
  }

  function MallocLists(h: State, x: Lists, size: nat): Lists {
    var i := FirstFit(h.mem, x.free, Align.Up(size, 16) + HEADER);
    if i < |x.free| then ReuseLists(x, i) else ExpandLists(x, h.end)
  }

  /** free; x.alloc is the list that starts at h.mchunk. */
  function Free(h: State, x: Lists, p: nat): State {
    var i := FindData(h.mem, x.alloc, p);
    if i < |x.alloc| then Release(h, x.alloc[i]) else h
  }

  function FreeLists(h: State, x: Lists, p: nat): Lists {
    var i := FindData(h.mem, x.alloc, p);
    if i < |x.alloc| then ReleaseLists(x, i) else x
  }

  /** Byte a belongs to the data of chunk d. */
  predicate InData(m: Mem, d: nat, a: nat) { d + HEADER <= a < d + Size(m, d) }

  /** The data of every chunk of l is the same, and so is its length. */
  ghost predicate SameData(m: Mem, m': Mem, l: seq<nat>) {
    && (forall d :: d in l ==> Size(m', d) == Size(m, d))
    && (forall d, a: nat :: d in l && InData(m, d, a) ==> Get(m', a) == Get(m, a))
  }

  lemma ReuseData(h: State, x: Lists, i: nat, d: nat, a: nat)
    requires Valid(h, x) && i < |x.free| && d in x.alloc && InData(h.mem, d, a)
    ensures Get(Reuse(h, x.free[i]).mem, a) == Get(h.mem, a)
  {
    hide Reuse, Unlinked, Tiles, Linked, Get, Layout, Spaced;
    var c, s := x.free[i], ChunkSet(x);
    ValidLayout(h, x);
    LinksInList(h.mem, x.free, h.bin, i, s);
    TwoChunks(h, s, c, d);
    ReuseGet(h, c, a);
    UnlinkedGet(h.mem, c, s, a);
    HeadersElsewhere(h, s, d, a);
    HeadInChunks(h, x);
  }

  /** Data bytes are in no chunk's header. */
  lemma HeadersElsewhere(h: State, s: set<nat>, d: nat, a: nat)
    requires Layout(h, s) && d in s && InData(h.mem, d, a)
    ensures forall e :: e in s ==> a < e || e + HEADER <= a
  {
    forall e | e in s ensures a < e || e + HEADER <= a {
      assert e != d ==> Apart(h.mem, e, d);
    }
  }

  lemma InsideHeap(h: State, s: set<nat>, d: nat)
    requires Layout(h, s) && d in s
    ensures h.base + MIN_CHUNK <= d && d + Size(h.mem, d) <= h.end
  {}

  lemma HeadInChunks(h: State, x: Lists)
    requires Valid(h, x)
    ensures h.mchunk == 0 || h.mchunk in ChunkSet(x)
    ensures h.bin == 0 || h.bin in ChunkSet(x)
  {}

  lemma ExpandData(h: State, x: Lists, size: nat, d: nat, a: nat)
    requires Valid(h, x) && HEADER + size < WORD_32 && d in x.alloc && InData(h.mem, d, a)
    ensures Get(Expand(h, size).mem, a) == Get(h.mem, a)
  {
    hide Expand, Tiles, Linked, Get, Layout, Spaced;
    ValidLayout(h, x);
    HeadInChunks(h, x);
    assert d in ChunkSet(x);
    TwoChunks(h, ChunkSet(x), d, d);
    InsideHeap(h, ChunkSet(x), d);
    ExpandGet(h, size, a);
    HeadersElsewhere(h, ChunkSet(x), d, a);
  }

  lemma ReleaseData(h: State, x: Lists, i: nat, d: nat, a: nat)
    requires Valid(h, x) && i < |x.alloc| && (i == 0 ==> Bk(h.mem, x.alloc[0]) == 0)
    requires d in x.alloc && d != x.alloc[i] && InData(h.mem, d, a)
    ensures Get(Release(h, x.alloc[i]).mem, a) == Get(h.mem, a)
  {
    hide Release, Unlinked, Tiles, Linked, Get, Layout, Spaced;
    var c, s := x.alloc[i], ChunkSet(x);
    ValidLayout(h, x);
    HeadInChunks(h, x);
    LinksInList(h.mem, x.alloc, h.mchunk, i, s);
    TwoChunks(h, s, c, d);
    ReleaseGet(h, c, s, a);
    UnlinkedGet(h.mem, c, s, a);
    HeadersElsewhere(h, s, d, a);
  }

  lemma ReuseFresh(h: State, x: Lists, i: nat)
    requires Valid(h, x) && i < |x.free|
    ensures var c := x.free[i];
            && c !in x.alloc && Data(h.mem, c) == c + HEADER
            && forall a :: InData(h.mem, c, a) ==> Get(Reuse(h, c).mem, a) == 0
  {
    var c := x.free[i];
    ValidLayout(h, x);
    assert c in x.free && c in ChunkSet(x);
    forall a | InData(h.mem, c, a) ensures Get(Reuse(h, c).mem, a) == 0 {
      ReuseGet(h, c, a);
    }
  }

  lemma ExpandFresh(h: State, x: Lists, size: nat)
    requires Valid(h, x) && HEADER + size < WORD_32
    ensures h.end !in x.alloc
    ensures forall a :: h.end + HEADER <= a < h.end + NewSize(size) ==> Get(Expand(h, size).mem, a) == 0
  {
    EndIsNew(h, x);
    forall a | h.end + HEADER <= a < h.end + NewSize(size) ensures Get(Expand(h, size).mem, a) == 0 {
      ExpandGet(h, size, a);
    }
  }

  /** The block at p is new, has room for `size` bytes, is all zero, and disturbs no other. */
  ghost predicate FreshBlock(h: State, h': State, x: Lists, x': Lists, p: nat, size: nat) {
    && p >= HEADER && p - HEADER !in x.alloc && x'.alloc == [p - HEADER] + x.alloc
    && Size(h'.mem, p - HEADER) >= HEADER + size
    && (forall a: nat :: InData(h'.mem, p - HEADER, a) ==> Get(h'.mem, a) == 0)
    && SameData(h.mem, h'.mem, x.alloc)
  }

  lemma MallocReuseFresh(h: State, x: Lists, i: nat, size: nat)
    requires Valid(h, x) && i < |x.free| && Size(h.mem, x.free[i]) >= size + HEADER
    ensures FreshBlock(h, Reuse(h, x.free[i]), x, ReuseLists(x, i), x.free[i] + HEADER, size)
  {
    var h' := Reuse(h, x.free[i]);
    ReuseMoves(h, x, i);
    ReuseFresh(h, x, i);
    assert forall d :: d in x.alloc ==> d in ChunkSet(x);
    assert x.free[i] in ChunkSet(x);
    forall d, a: nat | d in x.alloc && InData(h.mem, d, a) ensures Get(h'.mem, a) == Get(h.mem, a) {
      ReuseData(h, x, i, d, a);
    }
  }

  lemma MallocExpandFresh(h: State, x: Lists, size: nat)
    requires Valid(h, x) && HEADER + size < WORD_32
    ensures FreshBlock(h, Expand(h, size), x, ExpandLists(x, h.end), h.end + HEADER, size)
  {
    hide Expand, Tiles, Linked, Span, NewHeadLinks, NewSize, Get;
    var h' := Expand(h, size);
    ExpandFields(h, size);
    ExpandMoves(h, x, size);
    ExpandFresh(h, x, size);
    NewSizeFits(size);
    assert forall d :: d in x.alloc ==> d in ChunkSet(x);
    forall d, a: nat | d in x.alloc && InData(h.mem, d, a) ensures Get(h'.mem, a) == Get(h.mem, a) {
      ExpandData(h, x, size, d, a);
    }
  }

  lemma FreshBlockSmaller(h: State, h': State, x: Lists, x': Lists, p: nat, size: nat, less: nat)
    requires FreshBlock(h, h', x, x', p, size) && less <= size
    ensures FreshBlock(h, h', x, x', p, less)
  {}

  lemma MallocFromBin(h: State, x: Lists, i: nat, need: nat, size: nat)
    requires Valid(h, x) && i < |x.free| && Size(h.mem, x.free[i]) >= need + HEADER && size <= need
    ensures Valid(Reuse(h, x.free[i]), ReuseLists(x, i))
    ensures FreshBlock(h, Reuse(h, x.free[i]), x, ReuseLists(x, i), Data(h.mem, x.free[i]), size)
  {
    hide Valid, Reuse, FreshBlock, ReuseLists, Get;
    MallocReuse(h, x, i);
    MallocReuseFresh(h, x, i, need);
    ReuseFresh(h, x, i);
    FreshBlockSmaller(h, Reuse(h, x.free[i]), x, ReuseLists(x, i), x.free[i] + HEADER, need, size);
  }

  lemma MallocFromEnd(h: State, x: Lists, need: nat, size: nat)
    requires Valid(h, x) && HEADER + need < WORD_32 && size <= need
    ensures Valid(Expand(h, need), ExpandLists(x, h.end))
    ensures FreshBlock(h, Expand(h, need), x, ExpandLists(x, h.end), h.end + HEADER, size)
  {
    hide Valid, Expand, FreshBlock, ExpandLists;
    MallocExpand(h, x, need);
    MallocExpandFresh(h, x, need);
    FreshBlockSmaller(h, Expand(h, need), x, ExpandLists(x, h.end), h.end + HEADER, need, size);
  }

  /**
   malloc gives a block of its own: a chunk that was not allocated, with room for the request,
   all zero, now first on the allocated list; every other live block keeps its bytes.
   */
  lemma MallocCorrect(h: State, x: Lists, size: nat)
    requires Valid(h, x) && Fits(size)
    ensures Valid(Malloc(h, x, size).0, MallocLists(h, x, size))
    ensures FreshBlock(h, Malloc(h, x, size).0, x, MallocLists(h, x, size), Malloc(h, x, size).1, size)
  {
    hide Valid, FreshBlock, Reuse, Expand, ReuseLists, ExpandLists, Align.Up, Get;
    var need := Align.Up(size, 16);
    Align.UpIsLeast(size, 16);
    var i := FirstFit(h.mem, x.free, need + HEADER);
    if i < |x.free| {
      MallocFromBin(h, x, i, need, size);
    } else {
      MallocFromEnd(h, x, need, size);
    }
  }

  /**
   malloc leaves the bk of the new head wrong exactly when it reused a chunk that was not the
   first of the bin: the old bk is never overwritten.
   */
  lemma MallocCleanIff(h: State, x: Lists, size: nat)
    requires Valid(h, x) && Fits(size)
    ensures var i := FirstFit(h.mem, x.free, Align.Up(size, 16) + HEADER);
            Clean(Malloc(h, x, size).0) <==> i == 0 || i == |x.free|
  {
    Align.UpIsLeast(size, 16);
    var i := FirstFit(h.mem, x.free, Align.Up(size, 16) + HEADER);
    ValidLayout(h, x);
    if i < |x.free| {
      ReuseMoves(h, x, i);
      LinksInList(h.mem, x.free, h.bin, i, ChunkSet(x));
      assert x.free[i] in ChunkSet(x);
    } else {
      ExpandFields(h, Align.Up(size, 16));
    }
  }

  /**
   malloc takes the first chunk of the bin that has room for the header and the request, rounded up
   to 16 bytes; the heap does not grow.
   */
  lemma MallocReuses(h: State, x: Lists, size: nat, i: nat)
    requires Valid(h, x) && i < |x.free| && Size(h.mem, x.free[i]) >= 32 + Align.Up(size, 16)
    requires forall j :: 0 <= j < i ==> Size(h.mem, x.free[j]) < 32 + Align.Up(size, 16)
    ensures var (h', p) := Malloc(h, x, size);
            && p == x.free[i] + 32 && h'.end == h.end && Size(h'.mem, x.free[i]) == Size(h.mem, x.free[i])
            && MallocLists(h, x, size) == Lists([x.free[i]] + x.alloc, x.free[..i] + x.free[i + 1..], x.chunks)
  {
    hide Align.Up, Unlinked, Zeroed, Tiles, Linked, Partition, SameShape;
    assert FirstFit(h.mem, x.free, 32 + Align.Up(size, 16)) == i;
    ReuseFresh(h, x, i);
    ReuseMoves(h, x, i);
    FreeInChunks(h, x, i);
  }

  lemma FreeInChunks(h: State, x: Lists, i: nat)
    requires Valid(h, x) && i < |x.free|
    ensures x.free[i] in ChunkSet(x)
  {}

  /**
   malloc grows the heap exactly when no chunk of the bin has room, by a chunk at the old end with
   room for the header and at least 32 bytes, rounded up to 64 bytes.
   */
  lemma MallocGrowsIff(h: State, x: Lists, size: nat)
    requires Valid(h, x) && Fits(size)
    ensures var (h', p) := Malloc(h, x, size);
            var total := 32 + if Align.Up(size, 16) > 32 then Align.Up(size, 16) else 32;
            && (h'.end != h.end <==> forall i :: 0 <= i < |x.free| ==> Size(h.mem, x.free[i]) < 32 + Align.Up(size, 16))
            && (h'.end != h.end ==>
                  && p == h.end + 32 && Size(h'.mem, h.end) == total && h'.end == h.end + Align.Up(total, 64)
                  && MallocLists(h, x, size) == Lists([h.end] + x.alloc, x.free, x.chunks + [h.end]))
  {
    hide Align.Up, Reuse, Expand, Get, Valid;
    var need := Align.Up(size, 16);
    var i := FirstFit(h.mem, x.free, 32 + need);
    if i < |x.free| {
      MallocReuses(h, x, size, i);
    } else {
      ExpandFields(h, need);
      Align.UpIsLeast(NewSize(need), 64);
      NewSizeFits(need);
    }
  }

  /** free of a pointer that is no live block changes nothing. */
  lemma FreeUnknown(h: State, x: Lists, p: nat)
    requires Valid(h, x) && (p < HEADER || p - HEADER !in x.alloc)
    ensures Free(h, x, p) == h
  {
    ValidLayout(h, x);
    forall d | d in x.alloc ensures Data(h.mem, d) == d + HEADER {
      assert d in ChunkSet(x);
    }
  }

  /** free finds the chunk of a live block. */
  lemma FreeFinds(h: State, x: Lists, p: nat)
    requires Valid(h, x) && p >= HEADER && p - HEADER in x.alloc
    ensures var i := FindData(h.mem, x.alloc, p);
            i < |x.alloc| && x.alloc[i] == p - HEADER
  {
    ValidLayout(h, x);
    var k :| 0 <= k < |x.alloc| && x.alloc[k] == p - HEADER;
    var i := FindData(h.mem, x.alloc, p);
    assert x.alloc[k] in ChunkSet(x);
    assert i < |x.alloc| ==> x.alloc[i] in ChunkSet(x);
  }

  lemma HeadsDiffer(h: State, x: Lists)
    ensures Valid(h, x) ==> h.mchunk == 0 || h.mchunk != h.bin
  {
    assert x.alloc != [] ==> x.alloc[0] in x.alloc;
    assert x.free != [] ==> x.free[0] in x.free;
  }

  /**
   free of a live block keeps the heap valid exactly when the block is not the first on the
   allocated list or the first one's bk is right.  Otherwise one chunk heads both lists.
   */
  lemma FreeKeepsIff(h: State, x: Lists, p: nat)
    requires Valid(h, x) && p >= HEADER && p - HEADER in x.alloc
    ensures (exists y :: Valid(Free(h, x, p), y)) <==> p - HEADER != h.mchunk || Clean(h)
    ensures p - HEADER != h.mchunk || Clean(h) ==>
              && Valid(Free(h, x, p), FreeLists(h, x, p))
              && SameData(h.mem, Free(h, x, p).mem, FreeLists(h, x, p).alloc)
    ensures !(p - HEADER != h.mchunk || Clean(h)) ==>
              Free(h, x, p).mchunk == Free(h, x, p).bin == p - HEADER
  {
    FreeFinds(h, x, p);
    var i := FindData(h.mem, x.alloc, p);
    var c, h' := x.alloc[i], Free(h, x, p);
    ValidLayout(h, x);
    assert c in ChunkSet(x);
    if p - HEADER != h.mchunk || Clean(h) {
      FreeRelease(h, x, i);
      ReleaseSameData(h, x, i);
    } else {
      forall y ensures !Valid(h', y) {
        HeadsDiffer(h', y);
      }
    }
  }

  /** A freed block is erased and put in front of the bin, where the next malloc looks first. */
  lemma FreeErases(h: State, x: Lists, p: nat, a: nat)
    requires Valid(h, x) && p >= 32 && p - 32 in x.alloc && (p - 32 != h.mchunk || Clean(h))
    ensures p <= a < p - 32 + Size(h.mem, p - 32) ==> Get(Free(h, x, p).mem, a) == 0
    ensures Free(h, x, p).end == h.end && Size(Free(h, x, p).mem, p - 32) == Size(h.mem, p - 32)
    ensures FreeLists(h, x, p).free == [p - 32] + x.free && FreeLists(h, x, p).chunks == x.chunks
  {
    hide Unlinked, Pushed, Zeroed, Tiles, Linked, Layout, Spaced, Get;
    FreeFinds(h, x, p);
    var i, s := FindData(h.mem, x.alloc, p), ChunkSet(x);
    ValidLayout(h, x);
    HeadInChunks(h, x);
    HeadOfAlloc(h, x);
    LinksInList(h.mem, x.alloc, h.mchunk, i, s);
    TwoChunks(h, s, p - 32, p - 32);
    ReleaseGet(h, p - 32, s, a);
    ReleaseHeader(h, s, p - 32, p - 32);
  }

  lemma HeadOfAlloc(h: State, x: Lists)
    requires Valid(h, x)
    ensures x.alloc != [] ==> h.mchunk == x.alloc[0] && x.alloc[0] > 0
  {
    ValidLayout(h, x);
    if x.alloc != [] { assert x.alloc[0] in ChunkSet(x); }
  }

  lemma ReleaseSameData(h: State, x: Lists, i: nat)
    requires Valid(h, x) && i < |x.alloc| && (i == 0 ==> Bk(h.mem, x.alloc[0]) == 0)
    ensures SameData(h.mem, Release(h, x.alloc[i]).mem, ReleaseLists(x, i).alloc)
  {
    var h', l := Release(h, x.alloc[i]), ReleaseLists(x, i).alloc;
    ReleaseMoves(h, x, i);
    WithoutMembers(x.alloc, i);
    assert forall d :: d in l ==> d in ChunkSet(x);
    forall d, a: nat | d in l && InData(h.mem, d, a) ensures Get(h'.mem, a) == Get(h.mem, a) {
      ReleaseData(h, x, i, d, a);
    }
  }
}
