/**
 The heap as the kernel runs it: fields updated in place, list walks that follow the links in
 memory.  Each call is proved to do what its function in `Heap` does.
 */
module KernelHeap {
  import opened Common
  import opened Heap
  import Align

  /** Memory after chunk `addr` was put in front of the allocated list. */
  function Installed(m: Mem, head: nat, reused: bool, addr: nat, size: nat, data: nat): Mem {
    var m1 := if head != 0 then m[head + 16 := addr] else m;
    var m2: Mem := if reused then m1 else m1[addr := 0][addr + 4 := size][addr + 8 := head][addr + 16 := 0][addr + 24 := data];
    Zeroed(m2, data, (size - HEADER) % WORD_64)[addr + 8 := head]
  }

  lemma ReuseInstalls(h: State, c: nat)
    ensures Reuse(h, c) ==
            h.(mchunk := c, bin := UnlinkedHead(h.mem, h.bin, c),
               mem := Installed(Unlinked(h.mem, c), h.mchunk, true, c, Size(h.mem, c), Data(h.mem, c)))
  {
    hide Zeroed, Unlinked, UnlinkedHead;
  }

  lemma ExpandInstalls(h: State, need: nat)
    ensures var total := NewSize(need);
            Expand(h, need) ==
            h.(mchunk := h.end, end := h.end + Align.Up(total, MIN_CHUNK),
               mem := Installed(h.mem, h.mchunk, false, h.end, total, h.end + HEADER))
  {
    hide Zeroed;
  }

  class Allocator {
    var base: nat
    var end: nat
    var mchunk: nat
    var bin: nat
    var mem: Mem
    ghost var lists: Lists

    ghost function St(): State reads this { State(base, end, mchunk, bin, mem) }

    ghost predicate Ok() reads this { Valid(St(), lists) }

    /** init_heap, on memory with any contents. */
    constructor (baseAddr: nat, memory: Mem)
      requires baseAddr + MIN_CHUNK <= WORD_64
      ensures Ok() && lists == Lists([], [], [])
      ensures base % 64 == 0 && baseAddr <= base < baseAddr + 64 && end == base + 64
    {
      Align.UpIsLeast(baseAddr, MIN_CHUNK);
      base := Align.Up(baseAddr, MIN_CHUNK);
      mchunk, bin, mem := 0, 0, memory;
      end := Align.Up(baseAddr, MIN_CHUNK) + MIN_CHUNK;
      lists := Lists([], [], []);
    }

    /** sbrk */
    method Sbrk(increment: nat) returns (oldBreak: nat)
      modifies this`end
      ensures oldBreak == old(end) && end == old(end) + Align.Up(increment, 64)
    {
      oldBreak := end;
      end := end + Align.Up(increment, MIN_CHUNK);
    }

    /** The search loop of malloc: the first chunk of the bin that fits, or NULL. */
    method Search(need: nat) returns (cur: nat)
      requires Ok()
      ensures var i := FirstFit(mem, lists.free, need);
              cur == if i < |lists.free| then lists.free[i] else 0
    {
      cur := bin;
      ghost var j: nat := 0;
      NextInList(mem, lists.free, bin, 0);
      while cur != 0
        invariant j <= |lists.free| && cur == NodeAt(lists.free, j)
        invariant FirstFit(mem, lists.free, need) == j + FirstFit(mem, lists.free[j..], need)
        decreases |lists.free| - j
      {
        NonNullInList(St(), lists, j);
        if Size(mem, cur) >= need {
          return;
        }
        NextInList(mem, lists.free, bin, j);
        FirstFitStep(mem, lists.free, j, need);
        cur := Fd(mem, cur);
        j := j + 1;
      }
      NonNullInList(St(), lists, j);
    }

    /** The search loop of free: the allocated chunk whose data pointer is p, or NULL. */
    method Find(p: nat) returns (cur: nat)
      requires Ok()
      ensures var i := FindData(mem, lists.alloc, p);
              cur == if i < |lists.alloc| then lists.alloc[i] else 0
    {
      cur := mchunk;
      ghost var j: nat := 0;
      NextInList(mem, lists.alloc, mchunk, 0);
      while cur != 0
        invariant j <= |lists.alloc| && cur == NodeAt(lists.alloc, j)
        invariant FindData(mem, lists.alloc, p) == j + FindData(mem, lists.alloc[j..], p)
        decreases |lists.alloc| - j
      {
        NonNullInList(St(), lists, j);
        if Data(mem, cur) == p {
          return;
        }
        NextInList(mem, lists.alloc, mchunk, j);
        FindDataStep(mem, lists.alloc, j, p);
        cur := Fd(mem, cur);
        j := j + 1;
      }
      NonNullInList(St(), lists, j);
    }

    /** The unlinking code that malloc and free share. */
    method Unlink(cur: nat, head: nat) returns (newHead: nat)
      modifies this`mem
      ensures mem == Unlinked(old(mem), cur) && newHead == UnlinkedHead(old(mem), head, cur)
    {
      newHead := head;
      if Bk(mem, cur) != 0 {
        mem := mem[Bk(mem, cur) + 8 := Fd(mem, cur)];
      } else {
        newHead := Fd(mem, cur);
      }
      if Fd(mem, cur) != 0 {
        mem := mem[Fd(mem, cur) + 16 := Bk(mem, cur)];
      }
    }

    /** The end of malloc: the chunk goes in front of the allocated list, and its data is cleared. */
    method Install(reused: bool, newAddr: nat, newSize: nat, newData: nat)
      modifies this`mem, this`mchunk
      ensures mchunk == newAddr
      ensures mem == Installed(old(mem), old(mchunk), reused, newAddr, newSize, newData)
    {
      hide Zeroed;
      var newFd := mchunk;
      if newFd != 0 {
        mem := mem[newFd + 16 := newAddr];
      }
      mchunk := newAddr;
      if !reused {
        mem := mem[newAddr := 0][newAddr + 4 := newSize][newAddr + 8 := newFd][newAddr + 16 := 0][newAddr + 24 := newData];
      }
      mem := Zeroed(mem, newData, (newSize - HEADER) % WORD_64);
      mem := mem[newAddr + 8 := newFd];
    }

    /** malloc */
    method Malloc(size: nat) returns (data: nat)
      requires Ok() && Fits(size)
      modifies this
      ensures Ok()
      ensures (St(), data) == Heap.Malloc(old(St()), old(lists), size)
      ensures lists == MallocLists(old(St()), old(lists), size)
    {
      hide Valid, Get, Zeroed, FirstFit, Unlinked, UnlinkedHead, Align.Up, ReuseLists, ExpandLists, Reuse, Expand, Installed;
      var need := Align.Up(size, 16);
      MallocCorrect(St(), lists, size);
      ghost var i := FirstFit(mem, lists.free, need + HEADER);
      NonNullInList(St(), lists, i);
      var cur := Search(need + HEADER);
      ReuseInstalls(St(), cur);
      ExpandInstalls(St(), need);
      var newAddr, newSize, newData;
      if cur != 0 {
        newAddr, newSize, newData := cur, Size(mem, cur), Data(mem, cur);
        bin := Unlink(cur, bin);
      } else {
        newSize := (HEADER + (if 32 < need then need else 32)) % WORD_32;
        newAddr := Sbrk(newSize);
        newData := newAddr + HEADER;
      }
      Install(cur != 0, newAddr, newSize, newData);
      data := newData;
      lists := MallocLists(old(St()), lists, size);
    }

    /** free: valid lists come out unless the call hits the first chunk while its bk is wrong. */
    method Free(p: nat)
      requires Ok()
      modifies this
      ensures St() == Heap.Free(old(St()), old(lists), p)
      ensures lists == FreeLists(old(St()), old(lists), p)
      ensures !(p >= HEADER && p - HEADER == old(mchunk) && !Clean(old(St()))) ==> Ok()
    {
      hide Valid, Zeroed, FindData, Clean, Unlinked, UnlinkedHead;
      ghost var i := FindData(mem, lists.alloc, p);
      FreeOk(St(), lists, p);
      NonNullInList(St(), lists, i);
      var cur := Find(p);
      if cur != 0 {
        mchunk := Unlink(cur, mchunk);
        mem := mem[cur + 16 := 0];
        mem := mem[cur + 8 := bin];
        if Fd(mem, cur) != 0 {
          mem := mem[Fd(mem, cur) + 16 := cur];
        }
        bin := cur;
        mem := Zeroed(mem, Data(mem, cur), (Size(mem, cur) - HEADER) % WORD_64);
      }
      lists := FreeLists(old(St()), lists, p);
    }
  }

  lemma FreeOk(h: State, x: Lists, p: nat)
    requires Valid(h, x)
    ensures !(p >= HEADER && p - HEADER == h.mchunk && !Clean(h)) ==> Valid(Heap.Free(h, x, p), FreeLists(h, x, p))
  {
    hide Valid, Get, Clean, FindData;
    if p >= HEADER && p - HEADER in x.alloc {
      FreeKeepsIff(h, x, p);
    } else {
      NotFound(h, x, p);
    }
  }

  lemma NotFound(h: State, x: Lists, p: nat)
    requires Valid(h, x) && (p < HEADER || p - HEADER !in x.alloc)
    ensures FindData(h.mem, x.alloc, p) == |x.alloc|
  {
    hide Tiles, Linked;
    ValidLayout(h, x);
    forall d | d in x.alloc ensures Data(h.mem, d) == d + HEADER {
      assert d in ChunkSet(x);
    }
  }

  lemma FindDataStep(m: Mem, l: seq<nat>, j: nat, p: nat)
    requires j < |l| && Data(m, l[j]) != p
    ensures FindData(m, l[j..], p) == 1 + FindData(m, l[j + 1..], p)
  {
    assert l[j..][1..] == l[j + 1..];
  }

  function NodeAt(l: seq<nat>, j: nat): nat { if j < |l| then l[j] else 0 }

  lemma NextInList(m: Mem, l: seq<nat>, head: nat, j: nat)
    requires Linked(m, l, head)
    ensures head == NodeAt(l, 0)
    ensures j < |l| ==> Fd(m, l[j]) == NodeAt(l, j + 1)
  {
    assert j < |l| ==> LinkAt(m, l, j);
  }

  lemma NonNullInList(h: State, x: Lists, j: nat)
    requires Valid(h, x)
    ensures j < |x.free| ==> x.free[j] != 0
    ensures j < |x.alloc| ==> x.alloc[j] != 0
  {
    hide Tiles, Linked;
    ValidLayout(h, x);
    assert j < |x.free| ==> x.free[j] in ChunkSet(x);
    assert j < |x.alloc| ==> x.alloc[j] in ChunkSet(x);
  }

  lemma FirstFitStep(m: Mem, l: seq<nat>, j: nat, need: nat)
    requires j < |l| && Size(m, l[j]) < need
    ensures FirstFit(m, l[j..], need) == 1 + FirstFit(m, l[j + 1..], need)
  {
    assert l[j..][1..] == l[j + 1..];
  }
}
