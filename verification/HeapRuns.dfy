/**
 Whole runs of the heap: any sequence of malloc, free and stores into live blocks.
 */
module HeapRuns {
  import opened Common
  import opened Heap
  import Align

  datatype Op =
    | Alloc(size: nat)
    | Drop(p: nat)             // free(p)
    | Poke(a: nat, v: nat)     // the program stores v at a

  /** The heap together with the lists it holds in memory. */
  datatype Sys = Sys(h: State, x: Lists)

  function Step(y: Sys, op: Op): Sys {
    match op
    case Alloc(size) => Sys(Malloc(y.h, y.x, size).0, MallocLists(y.h, y.x, size))
    case Drop(p) => Sys(Free(y.h, y.x, p), FreeLists(y.h, y.x, p))
    case Poke(a, v) => y.(h := y.h.(mem := y.h.mem[a := v]))
  }

  /** Byte a belongs to a live block. */
  predicate Live(y: Sys, a: nat) {
    exists d :: d in y.x.alloc && InData(y.h.mem, d, a)
  }

  /** free(p) hits the first allocated chunk while that chunk's bk is wrong. */
  predicate HitsStaleHead(h: State, p: nat) {
    p >= HEADER && p - HEADER == h.mchunk && !Clean(h)
  }

  predicate Legal(y: Sys, op: Op) {
    match op
    case Alloc(size) => Fits(size)
    case Drop(p) => !HitsStaleHead(y.h, p)
    case Poke(a, _) => Live(y, a)
  }

  /** The value at a after the step, were the heap a plain map from bytes of live blocks to values. */
  function After(y: Sys, op: Op, a: nat, before: nat): nat {
    match op
    case Alloc(size) => if InData(Step(y, op).h.mem, Malloc(y.h, y.x, size).0.mchunk, a) then 0 else before
    case Drop(_) => before
    case Poke(b, v) => if a == b then v else before
  }

  lemma PokeShape(h: State, x: Lists, a: nat, v: nat, d: nat)
    requires Valid(h, x) && d in x.alloc && InData(h.mem, d, a)
    ensures var m := h.mem[a := v];
            forall e :: e in x.chunks ==> Size(m, e) == Size(h.mem, e) && Data(m, e) == Data(h.mem, e)
                                          && Fd(m, e) == Fd(h.mem, e) && Bk(m, e) == Bk(h.mem, e)
  {
    hide Tiles, Linked;
    ValidLayout(h, x);
    HeadersElsewhere(h, ChunkSet(x), d, a);
    assert forall e :: e in x.chunks ==> e in ChunkSet(x);
  }

  /** A store into a live block disturbs no header. */
  lemma PokeKeeps(h: State, x: Lists, a: nat, v: nat, d: nat)
    requires Valid(h, x) && d in x.alloc && InData(h.mem, d, a)
    ensures Valid(h.(mem := h.mem[a := v]), x)
  {
    hide Tiles, Linked, Get;
    var m := h.mem[a := v];
    PokeShape(h, x, a, v, d);
    TilesFrame(h.mem, m, x.chunks, h.base + MIN_CHUNK, h.end);
    LinkedFrame(h.mem, m, x.alloc, h.mchunk, set e | e in x.alloc);
    LinkedFrame(h.mem, m, x.free, h.bin, set e | e in x.free);
    assert x.free != [] ==> x.free[0] in x.free && x.free[0] in x.chunks;
  }

  /** What one step does to the byte at a, if it is live before and after. */
  lemma AllocRefines(y: Sys, size: nat, a: nat, v: nat)
    requires Valid(y.h, y.x) && Fits(size) && (Live(y, a) ==> v == Get(y.h.mem, a))
    ensures Live(Step(y, Alloc(size)), a) ==> After(y, Alloc(size), a, v) == Get(Step(y, Alloc(size)).h.mem, a)
  {
    hide Valid, Malloc, MallocLists, Get, Size;
    var (h', p) := Malloc(y.h, y.x, size);
    var x' := MallocLists(y.h, y.x, size);
    MallocCorrect(y.h, y.x, size);
    NewHead(h', x');
    if Live(Step(y, Alloc(size)), a) {
      var d :| d in x'.alloc && InData(h'.mem, d, a);
      if d != h'.mchunk {
        assert d in y.x.alloc && InData(y.h.mem, d, a);
        OneOwner(h', x', a, h'.mchunk, d);
      }
    }
  }

  lemma NewHead(h: State, x: Lists)
    requires Valid(h, x) && x.alloc != []
    ensures h.mchunk == x.alloc[0]
  {}

  /** A byte is in the data of one chunk at most. */
  lemma OneOwner(h: State, x: Lists, a: nat, c: nat, d: nat)
    requires Valid(h, x) && c in x.alloc && d in x.alloc && c != d && InData(h.mem, d, a)
    ensures !InData(h.mem, c, a)
  {
    hide Tiles, Linked, Get;
    ValidLayout(h, x);
    assert Apart(h.mem, c, d);
  }

  lemma DropRefines(y: Sys, p: nat, a: nat)
    requires Valid(y.h, y.x) && !HitsStaleHead(y.h, p)
    ensures Valid(Step(y, Drop(p)).h, Step(y, Drop(p)).x)
    ensures Live(Step(y, Drop(p)), a) ==> Live(y, a) && Get(Step(y, Drop(p)).h.mem, a) == Get(y.h.mem, a)
  {
    hide Valid, Free, Get, Size, Clean;
    if p >= HEADER && p - HEADER in y.x.alloc {
      FreeKeepsIff(y.h, y.x, p);
      FreeShrinks(y.h, y.x, p);
    } else {
      FreeUnknown(y.h, y.x, p);
      FreeListsUnknown(y.h, y.x, p);
    }
  }

  lemma FreeShrinks(h: State, x: Lists, p: nat)
    requires Valid(h, x)
    ensures forall d :: d in FreeLists(h, x, p).alloc ==> d in x.alloc
  {
    var i := FindData(h.mem, x.alloc, p);
    if i < |x.alloc| {
      WithoutMembers(x.alloc, i);
    }
  }

  lemma FreeListsUnknown(h: State, x: Lists, p: nat)
    requires Valid(h, x) && (p < HEADER || p - HEADER !in x.alloc)
    ensures FreeLists(h, x, p) == x
  {
    hide Tiles, Linked;
    ValidLayout(h, x);
    forall d | d in x.alloc ensures Data(h.mem, d) == d + HEADER {
      assert d in ChunkSet(x);
    }
  }

  lemma StepKeeps(y: Sys, op: Op)
    requires Valid(y.h, y.x) && Legal(y, op)
    ensures Valid(Step(y, op).h, Step(y, op).x) && y.x.chunks <= Step(y, op).x.chunks
  {
    hide Valid, Malloc, Free, Clean, FirstFit, FindData;
    match op
    case Alloc(size) => MallocCorrect(y.h, y.x, size);
    case Drop(p) => DropRefines(y, p, 0);
    case Poke(a, v) =>
      var d :| d in y.x.alloc && InData(y.h.mem, d, a);
      PokeKeeps(y.h, y.x, a, v, d);
  }

  lemma StepRefines(y: Sys, op: Op, a: nat, v: nat)
    requires Valid(y.h, y.x) && Legal(y, op) && (Live(y, a) ==> v == Get(y.h.mem, a))
    ensures Live(Step(y, op), a) ==> After(y, op, a, v) == Get(Step(y, op).h.mem, a)
  {
    match op
    case Alloc(size) => AllocRefines(y, size, a, v);
    case Drop(p) => DropRefines(y, p, a);
    case Poke(b, w) => PokeRefines(y, b, w, a, v);
  }

  lemma PokeRefines(y: Sys, b: nat, w: nat, a: nat, v: nat)
    requires Valid(y.h, y.x) && Live(y, b) && (Live(y, a) ==> v == Get(y.h.mem, a))
    ensures Live(Step(y, Poke(b, w)), a) ==> After(y, Poke(b, w), a, v) == Get(Step(y, Poke(b, w)).h.mem, a)
  {
    hide Tiles, Linked;
    var d :| d in y.x.alloc && InData(y.h.mem, d, b);
    PokeShape(y.h, y.x, b, w, d);
    assert forall e :: e in y.x.alloc ==> e in y.x.chunks;
  }

  // ---------------------------------------------------------------- runs

  function Final(y: Sys, ops: seq<Op>): Sys
    decreases |ops|
  {
    if ops == [] then y else Final(Step(y, ops[0]), ops[1..])
  }

  predicate LegalRun(y: Sys, ops: seq<Op>)
    decreases |ops|
  {
    ops == [] || (Legal(y, ops[0]) && LegalRun(Step(y, ops[0]), ops[1..]))
  }

  function Expected(y: Sys, ops: seq<Op>, a: nat, before: nat): nat
    decreases |ops|
  {
    if ops == [] then before else Expected(Step(y, ops[0]), ops[1..], a, After(y, ops[0], a, before))
  }

  /**
   Over every run in which no free hits a stale head, both lists stay linked, apart and complete,
   the chunks tile the heap, none is ever lost, and every byte of a live block holds what was last
   stored there since its malloc, or 0.
   */
  lemma {:induction false} RunRefines(y: Sys, ops: seq<Op>, a: nat, v: nat)
    requires Valid(y.h, y.x) && LegalRun(y, ops) && (Live(y, a) ==> v == Get(y.h.mem, a))
    ensures Valid(Final(y, ops).h, Final(y, ops).x) && y.x.chunks <= Final(y, ops).x.chunks
    ensures Live(Final(y, ops), a) ==> Expected(y, ops, a, v) == Get(Final(y, ops).h.mem, a)
    decreases |ops|
  {
    hide Valid, Legal, Step, After, Live;
    if ops != [] {
      StepKeeps(y, ops[0]);
      StepRefines(y, ops[0], a, v);
      RunRefines(Step(y, ops[0]), ops[1..], a, After(y, ops[0], a, v));
    }
  }

  /** Live blocks lie inside the heap and share no byte. */
  lemma LiveBlocksApart(h: State, x: Lists, c: nat, d: nat)
    requires Valid(h, x) && c in x.alloc && d in x.alloc
    ensures h.base + MIN_CHUNK + HEADER <= Data(h.mem, c) && c + Size(h.mem, c) <= h.end
    ensures c != d ==> Data(h.mem, c) + (Size(h.mem, c) - HEADER) <= d || Data(h.mem, d) + (Size(h.mem, d) - HEADER) <= c
  {
    hide Tiles, Linked, Get;
    ValidLayout(h, x);
    assert c in ChunkSet(x) && d in ChunkSet(x);
    assert c != d ==> Apart(h.mem, c, d);
  }

  // ---------------------------------------------------------------- with bk stored as intended

  /** The store malloc leaves out: the new head of the allocated list gets bk NULL. */
  function Mended(h: State): State {
    if h.mchunk == 0 then h else h.(mem := h.mem[h.mchunk + 16 := 0])
  }

  /** A step when malloc makes that store. */
  function MendedStep(y: Sys, op: Op): Sys {
    var y' := Step(y, op);
    if op.Alloc? then y'.(h := Mended(y'.h)) else y'
  }

  /** No condition on what is freed. */
  predicate Sensible(y: Sys, op: Op) {
    match op
    case Alloc(size) => Fits(size)
    case Drop(_) => true
    case Poke(a, _) => Live(y, a)
  }

  /** The store touches no header field but that bk, and no data. */
  lemma MendedCells(h: State, x: Lists)
    requires Valid(h, x)
    ensures var m := Mended(h).mem;
            && (forall e :: e in x.chunks ==> Size(m, e) == Size(h.mem, e) && Data(m, e) == Data(h.mem, e)
                                              && Fd(m, e) == Fd(h.mem, e) && (e != h.mchunk ==> Bk(m, e) == Bk(h.mem, e)))
            && (forall d, a: nat :: d in x.chunks && InData(h.mem, d, a) ==> Get(m, a) == Get(h.mem, a))
  {
    hide Tiles, Linked;
    ValidLayout(h, x);
    HeadInChunks(h, x);
    var s := ChunkSet(x);
    assert forall e :: e in x.chunks ==> e in s;
    forall d, a: nat | d in x.chunks && InData(h.mem, d, a) ensures h.mchunk != 0 ==> a != h.mchunk + 16 {
      HeadersElsewhere(h, s, d, a);
    }
  }

  lemma MendedKeeps(h: State, x: Lists)
    requires Valid(h, x)
    ensures Valid(Mended(h), x) && Clean(Mended(h)) && SameData(h.mem, Mended(h).mem, x.alloc)
  {
    hide Tiles, Get, InData, Partition;
    var m := Mended(h).mem;
    MendedCells(h, x);
    TilesFrame(h.mem, m, x.chunks, h.base + MIN_CHUNK, h.end);
    PartitionInside(x);
    assert forall e :: e in x.alloc ==> e in ChunkSet(x);
    assert forall e :: e in x.free ==> e in ChunkSet(x);
    forall i: nat | i < |x.alloc| ensures LinkAt(m, x.alloc, i) {
      assert LinkAt(h.mem, x.alloc, i);
    }
    MendedBin(h, x);
    MendedClean(h);
  }

  lemma MendedClean(h: State)
    ensures Clean(Mended(h))
  {}

  lemma MendedBin(h: State, x: Lists)
    requires Valid(h, x)
    ensures Linked(Mended(h).mem, x.free, h.bin) && (x.free != [] ==> Bk(Mended(h).mem, x.free[0]) == 0)
  {
    hide Tiles, Get, InData, Partition;
    MendedCells(h, x);
    PartitionInside(x);
    ValidLayout(h, x);
    assert x.alloc != [] ==> x.alloc[0] in x.alloc;
    forall e | e in x.free ensures e in ChunkSet(x) && e != h.mchunk {
      assert e in ChunkSet(x);
    }
    LinkedFrame(h.mem, Mended(h).mem, x.free, h.bin, set e | e in x.free);
    assert x.free != [] ==> x.free[0] in x.free;
  }

  /** free keeps a right bk at the head. */
  lemma FreeClean(h: State, x: Lists, p: nat)
    requires Valid(h, x) && Clean(h)
    ensures Clean(Free(h, x, p))
  {
    hide Tiles, Linked, Get, Partition, Release;
    var i := FindData(h.mem, x.alloc, p);
    if i < |x.alloc| {
      HeadIsChunk(h, x);
      ReleaseLinked(h, x, i);
      HeadOf(Release(h, x.alloc[i]).mem, Without(x.alloc, i), Release(h, x.alloc[i]).mchunk);
    }
  }

  lemma PokeClean(h: State, x: Lists, a: nat, v: nat, d: nat)
    requires Valid(h, x) && Clean(h) && d in x.alloc && InData(h.mem, d, a)
    ensures Clean(h.(mem := h.mem[a := v]))
  {
    hide Tiles, Linked, Get;
    PokeShape(h, x, a, v, d);
    HeadInChunks(h, x);
  }

  lemma MendedStepKeeps(y: Sys, op: Op, a: nat, v: nat)
    requires Valid(y.h, y.x) && Clean(y.h) && Sensible(y, op) && (Live(y, a) ==> v == Get(y.h.mem, a))
    ensures var y' := MendedStep(y, op);
            && Valid(y'.h, y'.x) && Clean(y'.h) && y.x.chunks <= y'.x.chunks
            && (Live(y', a) ==> After(y, op, a, v) == Get(y'.h.mem, a))
  {
    hide Valid, Clean, Malloc, MallocLists, Free, FreeLists, Get, Size, After, Mended;
    StepKeeps(y, op);
    StepRefines(y, op, a, v);
    match op
    case Alloc(size) =>
      MendedKeeps(Step(y, op).h, Step(y, op).x);
      MendedLive(Step(y, op), a);
    case Drop(p) => FreeClean(y.h, y.x, p);
    case Poke(b, w) =>
      var d :| d in y.x.alloc && InData(y.h.mem, d, b);
      PokeClean(y.h, y.x, b, w, d);
  }

  lemma MendedLive(y: Sys, a: nat)
    requires Valid(y.h, y.x)
    ensures var y' := y.(h := Mended(y.h));
            Live(y', a) ==> Live(y, a) && Get(y'.h.mem, a) == Get(y.h.mem, a)
  {
    hide Valid, Get, Size, Mended;
    MendedKeeps(y.h, y.x);
  }

  function MendedFinal(y: Sys, ops: seq<Op>): Sys
    decreases |ops|
  {
    if ops == [] then y else MendedFinal(MendedStep(y, ops[0]), ops[1..])
  }

  predicate SensibleRun(y: Sys, ops: seq<Op>)
    decreases |ops|
  {
    ops == [] || (Sensible(y, ops[0]) && SensibleRun(MendedStep(y, ops[0]), ops[1..]))
  }

  function MendedExpected(y: Sys, ops: seq<Op>, a: nat, before: nat): nat
    decreases |ops|
  {
    if ops == [] then before else MendedExpected(MendedStep(y, ops[0]), ops[1..], a, After(y, ops[0], a, before))
  }

  /**
   With bk stored as intended, every run of malloc, free of any pointer and stores into live blocks
   keeps the lists valid and the head's bk right, loses no chunk, and every live byte holds what
   was last stored there since its malloc, or 0.
   */
  lemma {:induction false} MendedRunRefines(y: Sys, ops: seq<Op>, a: nat, v: nat)
    requires Valid(y.h, y.x) && Clean(y.h) && SensibleRun(y, ops) && (Live(y, a) ==> v == Get(y.h.mem, a))
    ensures var y' := MendedFinal(y, ops);
            && Valid(y'.h, y'.x) && Clean(y'.h) && y.x.chunks <= y'.x.chunks
            && (Live(y', a) ==> MendedExpected(y, ops, a, v) == Get(y'.h.mem, a))
    decreases |ops|
  {
    hide Valid, Clean, Sensible, MendedStep, After, Live, Get;
    if ops != [] {
      MendedStepKeeps(y, ops[0], a, v);
      MendedRunRefines(MendedStep(y, ops[0]), ops[1..], a, After(y, ops[0], a, v));
    }
  }

  // ---------------------------------------------------------------- the run that fails

  lemma AllocAtEnd(y: Sys, size: nat)
    requires Valid(y.h, y.x) && Fits(size) && y.x.free == []
    ensures var y', c, need := Step(y, Alloc(size)), y.h.end, Align.Up(size, 16);
            && Valid(y'.h, y'.x) && y'.x == ExpandLists(y.x, c) && y'.h.end == c + Align.Up(NewSize(need), MIN_CHUNK)
            && Size(y'.h.mem, c) == NewSize(need) && Clean(y'.h)
            && forall d :: d in y.x.chunks ==> Size(y'.h.mem, d) == Size(y.h.mem, d)
  {
    MallocCorrect(y.h, y.x, size);
    ExpandFields(y.h, Align.Up(size, 16));
    ExpandMoves(y.h, y.x, Align.Up(size, 16));
    assert forall d :: d in y.x.chunks ==> d in ChunkSet(y.x);
  }

  lemma DropHead(y: Sys)
    requires Valid(y.h, y.x) && y.x.alloc != [] && Clean(y.h)
    ensures var y' := Step(y, Drop(y.x.alloc[0] + HEADER));
            && Valid(y'.h, y'.x) && y'.x == ReleaseLists(y.x, 0) && Clean(y'.h)
            && (forall d :: d in y.x.chunks ==> Size(y'.h.mem, d) == Size(y.h.mem, d))
  {
    hide Tiles, Linked, Get, Partition, Release, MovedLinks, FindData;
    var c := y.x.alloc[0];
    HeadIsChunk(y.h, y.x);
    FindHead(y.h, y.x);
    FreeRelease(y.h, y.x, 0);
    ReleaseMoves(y.h, y.x, 0);
    ReleaseLinked(y.h, y.x, 0);
    HeadOf(Release(y.h, c).mem, Without(y.x.alloc, 0), Release(y.h, c).mchunk);
    assert forall d :: d in y.x.chunks ==> d in ChunkSet(y.x);
  }

  lemma HeadOf(m: Mem, l: seq<nat>, head: nat)
    requires Linked(m, l, head)
    ensures head == if l == [] then 0 else l[0]
  {}

  lemma HeadIsChunk(h: State, x: Lists)
    requires Valid(h, x) && x.alloc != []
    ensures h.mchunk == x.alloc[0] && h.mchunk > 0
  {
    ValidLayout(h, x);
    assert x.alloc[0] in ChunkSet(x);
  }

  lemma FindHead(h: State, x: Lists)
    requires Valid(h, x) && x.alloc != []
    ensures FindData(h.mem, x.alloc, x.alloc[0] + HEADER) == 0
  {
    ValidLayout(h, x);
    assert x.alloc[0] in ChunkSet(x);
  }

  lemma EmptyValid(base: nat)
    ensures Valid(State(base, base + MIN_CHUNK, 0, 0, map[]), Lists([], [], []))
  {}

  const START := Sys(State(64, 128, 0, 0, map[]), Lists([], [], []))
  const BAD_RUN := [Alloc(16), Alloc(100), Drop(224), Drop(160), Alloc(100)]

  lemma FinalOfFive(y: Sys, a: Op, b: Op, c: Op, d: Op, e: Op)
    ensures Final(y, [a, b, c, d, e]) == Step(Step(Step(Step(Step(y, a), b), c), d), e)
    ensures Legal(y, a) && Legal(Step(y, a), b) && Legal(Step(Step(y, a), b), c)
            && Legal(Step(Step(Step(y, a), b), c), d) && Legal(Step(Step(Step(Step(y, a), b), c), d), e)
            ==> LegalRun(y, [a, b, c, d, e])
  {
    hide Step, Legal, Final, LegalRun;
    var y1, y2, y3 := Step(y, a), Step(Step(y, a), b), Step(Step(Step(y, a), b), c);
    FinalCons(y, a, [b, c, d, e]);
    FinalCons(y1, b, [c, d, e]);
    FinalCons(y2, c, [d, e]);
    FinalCons(y3, d, [e]);
    FinalCons(Step(y3, d), e, []);
    FinalNil(Step(Step(y3, d), e));
    assert [a] + [b, c, d, e] == [a, b, c, d, e] && [b] + [c, d, e] == [b, c, d, e];
    assert [c] + [d, e] == [c, d, e] && [d] + [e] == [d, e] && [e] + [] == [e];
  }

  lemma FinalCons(y: Sys, op: Op, rest: seq<Op>)
    ensures Final(y, [op] + rest) == Final(Step(y, op), rest)
    ensures LegalRun(y, [op] + rest) <==> Legal(y, op) && LegalRun(Step(y, op), rest)
  {
    assert ([op] + rest)[1..] == rest;
  }

  lemma FinalNil(y: Sys)
    ensures Final(y, []) == y && LegalRun(y, [])
  {}

  lemma BadStart()
    ensures var y2 := Step(Step(START, Alloc(16)), Alloc(100));
            && Valid(y2.h, y2.x) && Clean(y2.h) && y2.x == Lists([192, 128], [], [128, 192])
            && Size(y2.h.mem, 192) == 144 && Size(y2.h.mem, 128) == 64
  {
    hide Get, Step, Valid, Clean;
    EmptyValid(64);
    var y1 := Step(START, Alloc(16));
    AllocAtEnd(START, 16);
    assert y1.x == Lists([128], [], [128]) && y1.h.end == 192 && Size(y1.h.mem, 128) == 64;
    AllocAtEnd(y1, 100);
  }

  lemma BadRunLists()
    ensures LegalRun(START, BAD_RUN)
    ensures var z := Final(START, BAD_RUN);
            Valid(z.h, z.x) && z.x.alloc == [192] && !Clean(z.h)
  {
    hide Get, Step, Legal, Valid, Clean, Final, LegalRun, Size;
    BadStart();
    var y2 := Step(Step(START, Alloc(16)), Alloc(100));
    var y3 := Step(y2, Drop(224));
    DropHead(y2);
    assert y3.x == Lists([128], [192], [128, 192]);
    var y4 := Step(y3, Drop(160));
    DropHead(y3);
    assert y4.x == Lists([], [128, 192], [128, 192]);
    BadLastStep(y4);
    FinalOfFive(START, Alloc(16), Alloc(100), Drop(224), Drop(160), Alloc(100));
    LegalSteps(y2, y3);
  }

  lemma LegalSteps(y2: Sys, y3: Sys)
    requires Clean(y2.h) && Clean(y3.h)
    ensures forall y :: Legal(y, Alloc(16)) && Legal(y, Alloc(100))
    ensures Legal(y2, Drop(224)) && Legal(y3, Drop(160))
  {}

  lemma BadLastStep(y: Sys)
    requires Valid(y.h, y.x) && y.x == Lists([], [128, 192], [128, 192])
    requires Size(y.h.mem, 128) == 64 && Size(y.h.mem, 192) == 144
    ensures var z := Step(y, Alloc(100));
            Valid(z.h, z.x) && z.x.alloc == [192] && !Clean(z.h)
  {
    hide Valid, Get, Clean, Reuse, Expand;
    var l := y.x.free;
    assert l[1..] == [192];
    assert FirstFit(y.h.mem, l, 144) == 1;
    MallocCorrect(y.h, y.x, 100);
    MallocCleanIff(y.h, y.x, 100);
  }

  /**
   A run of legal calls after which free of the newest block ruins the heap: two blocks, 16 and
   100 bytes, are freed, and 100 bytes are asked for again.  The second chunk of the bin is taken
   and keeps its bk.
   */
  lemma StaleHeadReachable()
    ensures LegalRun(START, BAD_RUN)
    ensures var z := Final(START, BAD_RUN);
            var h := Free(z.h, z.x, 224);
            Valid(z.h, z.x) && 224 - HEADER in z.x.alloc && forall x :: !Valid(h, x)
  {
    hide Valid, Final, LegalRun, Get, Free;
    BadRunLists();
    var z := Final(START, BAD_RUN);
    HeadIsChunk(z.h, z.x);
    FreeKeepsIff(z.h, z.x, 224);
  }
}
