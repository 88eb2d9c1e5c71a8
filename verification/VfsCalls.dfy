/**
 The calls of the virtual file system on path strings: finding a node, making a directory,
 mounting, and what runs of them build.
 */
module VfsCalls {
  import opened Common
  import opened VfsPath
  import opened Vfs

  /** A byte of memory; the bytes modelled end at a terminator. */
  function ByteAt(b: string, p: nat): char { if p < |b| then b[p] else NUL }

  predicate CString(s: string) { NUL !in s }

  /** The string of C that starts at p. */
  function CStr(b: string, p: nat): string
    decreases |b| - p
  {
    if ByteAt(b, p) == NUL then "" else [b[p]] + CStr(b, p + 1)
  }

  /** The next separator, or the terminator. */
  function NextEnd(b: string, p: nat): (k: nat)
    requires p <= |b|
    ensures p <= k <= |b|
    decreases |b| - p
  {
    if p == |b| || b[p] == SEP || b[p] == NUL then p else NextEnd(b, p + 1)
  }

  // ---------------------------------------------------------------- vfs_get_node

  datatype Scanned = Hit(n: nat) | Stopped(n: nat, sep: nat) | Within(n: nat, sep: nat) | Refused

  /**
   The loop of vfs_get_node: `sep` is the last separator passed, `p` the component to look up.
   Behind the last component the cursor steps over the terminator as if it were a separator.
   */
  function Scan(st: Store, n: nat, b: string, sep: nat, p: nat): Scanned
    decreases |b| - p
  {
    if ByteAt(b, p) == NUL then Hit(n)
    else if n !in st.nodes then Refused
    else
      match st.nodes[n].kind
      case Mounted(_) => Within(n, sep)
      case Other(_) => Refused
      case Dir =>
        var k := NextEnd(b, p);
        match FindChild(st, st.nodes[n].children, b[p..k])
        case None => Stopped(n, sep)
        case Some(c) => Scan(st, c, b, k, k + 1)
  }

  datatype Status = Fine | MemoryErr | InvalidPath | ContinuesInFileSystem | NoDirectory

  /** vfs_get_node_return_t; `rest` is a position in the normalised path. */
  datatype Found = Found(node: Option<nat>, rest: Option<nat>, status: Status)

  function Start(b: string): nat { if ByteAt(b, 0) == SEP then 1 else 0 }

  function Get(st: Store, path: string, before: string): Found
    requires |before| > |path|
  {
    if path == "" then Found(None, None, MemoryErr)
    else
      var b := Buffer(path, before);
      if ByteAt(b, 0) == NUL then Found(None, Some(0), InvalidPath)
      else
        match Scan(st, st.root, b, 0, Start(b))
        case Hit(n) => Found(Some(n), None, Fine)
        case Stopped(n, sep) => Found(Some(n), Some(sep), Fine)
        case Within(n, sep) => Found(Some(n), Some(sep), ContinuesInFileSystem)
        case Refused => Found(None, Some(0), NoDirectory)
  }

  /** The directory vfs_mkdir adds to and the name it takes. */
  function MkdirOf(st: Store, path: string, before: string): Option<(nat, string)>
    requires |before| > |path|
  {
    var f := Get(st, path, before);
    if f.rest.None? || f.node.None? then None
    else if f.node.value !in st.nodes || !st.nodes[f.node.value].kind.Dir? then None
    else
      var name := CStr(Buffer(path, before), f.rest.value + 1);
      if SEP in name then None else Some((f.node.value, name))
  }

  /** The directory mount_file_system turns into a mount point. */
  function MountOf(st: Store, path: string, before: string): Option<nat>
    requires |before| > |path|
  {
    var f := Get(st, path, before);
    if f.node.None? || f.rest.Some? then None
    else if f.node.value !in st.nodes || !st.nodes[f.node.value].kind.Dir? then None
    else if st.nodes[f.node.value].children != [] then None
    else Some(f.node.value)
  }

  function EmptyStore(): Store { Store(map[0 := Node(Dir, "/", [])], 0) }

  class FileTree {
    var st: Store
    var next: nat

    ghost predicate Valid()
      reads this
    {
      st.root in st.nodes && forall n :: n in st.nodes ==> n < next
    }

    /** init_vfs */
    constructor ()
      ensures Valid() && st == EmptyStore() && next == 1
    {
      st := EmptyStore();
      next := 1;
    }

    /** find_child_node */
    method FindChildNode(parent: nat, segment: string) returns (c: Option<nat>)
      requires parent in st.nodes
      ensures c == if st.nodes[parent].kind.Dir? then FindChild(st, st.nodes[parent].children, segment) else None
    {
      if !st.nodes[parent].kind.Dir? { return None; }
      var list := st.nodes[parent].children;
      while list != []
        invariant FindChild(st, list, segment) == FindChild(st, st.nodes[parent].children, segment)
        decreases |list|
      {
        if list[0] in st.nodes && st.nodes[list[0]].name == segment { return Some(list[0]); }
        list := list[1..];
      }
      return None;
    }

    /** vfs_get_node; `block` is what malloc hands out for the normalised path, and the bytes behind it. */
    method GetNode(path: string, block: array<char>) returns (f: Found)
      requires Valid() && block.Length > |path|
      modifies block
      ensures f == Get(st, path, old(block[..]))
      ensures path != "" ==> block[..] == Buffer(path, old(block[..]))
    {
      hide FindChild, Buffer, NextEnd;
      if path == "" { return Found(None, None, MemoryErr); }
      Preprocess(path, block);
      var b := block[..];
      if ByteAt(b, 0) == NUL { return Found(None, Some(0), InvalidPath); }
      var n, sep, p := st.root, 0, Start(b);
      while ByteAt(b, p) != NUL
        invariant n in st.nodes && block[..] == b
        invariant Scan(st, n, b, sep, p) == Scan(st, st.root, b, 0, Start(b))
        decreases |b| - p
      {
        var k := NextEnd(b, p);
        match st.nodes[n].kind
        case Mounted(_) => return Found(Some(n), Some(sep), ContinuesInFileSystem);
        case Other(_) => return Found(None, Some(0), NoDirectory);
        case Dir =>
        var c := FindChildNode(n, b[p..k]);
        if c.None? { return Found(Some(n), Some(sep), Fine); }
        FindChildHit(st, st.nodes[n].children, b[p..k]);
        n, sep, p := c.value, k, k + 1;
      }
      return Found(Some(n), None, Fine);
    }

    /** vfs_mkdir */
    method Mkdir(path: string, block: array<char>) returns (made: Option<nat>)
      requires Valid() && block.Length > |path|
      modifies this, block
      ensures Valid()
      ensures match MkdirOf(old(st), path, old(block[..]))
              case None => made == None && st == old(st) && next == old(next)
              case Some((n, name)) =>
                && made == Some(old(next)) && old(next) !in old(st.nodes) && next == old(next) + 1
                && n in old(st).nodes && st == WithChild(old(st), n, name, old(next))
    {
      hide FindChild, Buffer, Scan;
      var f := GetNode(path, block);
      if f.rest.None? || f.node.None? { return None; }
      var n := f.node.value;
      if n !in st.nodes || !st.nodes[n].kind.Dir? { return None; }
      var name := CStr(block[..], f.rest.value + 1);
      if SEP in name { return None; }
      made := Some(next);
      st := WithChild(st, n, name, next);
      next := next + 1;
    }

    /** mount_file_system */
    method MountFileSystem(path: string, fs: FileSystem, block: array<char>) returns (mounted: Option<nat>)
      requires Valid() && block.Length > |path|
      modifies this`st, block
      ensures Valid()
      ensures mounted == MountOf(old(st), path, old(block[..]))
      ensures match mounted
              case None => st == old(st)
              case Some(n) => n in old(st).nodes && st == WithMount(old(st), n, fs)
    {
      hide FindChild, Buffer, Scan;
      var f := GetNode(path, block);
      if f.node.None? || f.rest.Some? { return None; }
      var n := f.node.value;
      if n !in st.nodes || !st.nodes[n].kind.Dir? || st.nodes[n].children != [] { return None; }
      st := WithMount(st, n, fs);
      mounted := Some(n);
    }
  }

  // ---------------------------------------------------------------- the block holds the path

  predicate Holds(b: string, s: string) {
    CString(s) && |b| > |s| && b[..|s|] == s && b[|s|] == NUL
  }

  lemma {:induction false} CollapseCString(s: string, last: bool)
    requires CString(s)
    ensures CString(Collapse(s, last))
    decreases |s|
  {
    if s != "" { CollapseCString(s[1..], s[0] == SEP); }
  }

  lemma BufferHolds(path: string, before: string)
    requires CString(path) && |before| > |path|
    ensures Holds(Buffer(path, before), Normal(path)) && Canonical(Normal(path))
    ensures |before| > |Collapse(path, false)|
  {
    hide Collapse, Strip, Nuls, Canonical;
    CollapseShorter(path, false);
    CollapseCString(path, false);
    StripShorter(Collapse(path, false));
    NormalIsCanonical(path);
    NulsNext(|Collapse(path, false)| - |Normal(path)|);
    assert forall c :: c in Normal(path) ==> c in Collapse(path, false);
  }

  /** The byte behind the terminator is a terminator too. */
  predicate Settled(path: string, before: string)
    requires |before| > |path|
  {
    ByteAt(Buffer(path, before), |Normal(path)| + 1) == NUL
  }

  /** That byte is known when a trailing separator was cut off; otherwise it is whatever memory held. */
  lemma SettledIff(path: string, before: string)
    requires |before| > |path|
    ensures Settled(path, before) <==>
            |Normal(path)| < |Collapse(path, false)| || ByteAt(before, |Collapse(path, false)| + 1) == NUL
  {
    hide Collapse, Strip;
    CollapseShorter(path, false);
    StripShorter(Collapse(path, false));
  }

  lemma {:induction false} NextEndIsSep(b: string, s: string, p: nat)
    requires Holds(b, s) && p <= |s|
    ensures NextEnd(b, p) == NextSep(s, p)
    decreases |s| - p
  {
    if p < |s| {
      assert b[p] == b[..|s|][p];
      if s[p] != SEP { NextEndIsSep(b, s, p + 1); }
    }
  }

  lemma {:induction false} CStrIsRest(b: string, s: string, p: nat)
    requires Holds(b, s) && p <= |s|
    ensures CStr(b, p) == s[p..]
    decreases |s| - p
  {
    if p < |s| {
      assert b[p] == b[..|s|][p];
      CStrIsRest(b, s, p + 1);
    }
  }

  // ---------------------------------------------------------------- scanning is looking up

  function CompsAt(s: string, p: nat): seq<string> { if p < |s| then Components(s[p..]) else [] }

  /** The cursor is behind its separator, or at the start of a path that has none there. */
  predicate CursorAt(s: string, sep: nat, p: nat) {
    || p == |s|
    || (p == |s| + 1 && sep == |s|)
    || (AtPiece(s, p) && ((sep == 0 && p == 0) || (p == sep + 1 && s[sep] == SEP)))
  }

  /** The rest starts at q, with its separator if it has one. */
  predicate RestAt(s: string, q: nat, rest: seq<string>) {
    q < |s| &&
    if s[q] == SEP then AtPiece(s, q + 1) && Components(s[q + 1..]) == rest
    else q == 0 && Components(s) == rest
  }

  /** Either no component was passed, or the rest starts at a later separator. */
  predicate Moved(s: string, sep: nat, p: nat, q: nat, rest: seq<string>) {
    q < |s| && ((q == sep && rest == CompsAt(s, p)) || (s[q] == SEP && |rest| < |CompsAt(s, p)|))
  }

  /** A scan from a cursor and a lookup of the components behind it take the same way. */
  ghost predicate Agrees(st: Store, s: string, b: string, sep: nat, p: nat, r: Scanned, l: Look) {
    match l
    case AtNode(m) => r == if p == |s| then Hit(m) else Scan(st, m, b, |s|, |s| + 1)
    case NoDir => r == Refused
    case Missing(m, rest) => r.Stopped? && r.n == m && RestAt(s, r.sep, rest) && Moved(s, sep, p, r.sep, rest)
    case InMount(m, rest) => r.Within? && r.n == m && RestAt(s, r.sep, rest) && Moved(s, sep, p, r.sep, rest)
  }

  lemma SameBytes(b: string, s: string, p: nat, k: nat)
    requires Holds(b, s) && p <= k <= |s|
    ensures b[p..k] == s[p..k] && (p < |s| ==> b[p] == s[p] && b[p] != NUL)
  {
    forall i | p <= i < |s| ensures b[i] == s[i] && b[i] != NUL {
      assert b[i] == b[..|s|][i] && b[i] in s;
    }
  }

  /** One turn of the loop, on the path itself. */
  lemma ScanStep(st: Store, n: nat, s: string, b: string, sep: nat, p: nat)
    requires Holds(b, s) && p < |s| && n in st.nodes
    ensures var k := NextSep(s, p);
            Scan(st, n, b, sep, p) ==
            match st.nodes[n].kind
            case Mounted(_) => Within(n, sep)
            case Other(_) => Refused
            case Dir =>
              match FindChild(st, st.nodes[n].children, s[p..k])
              case None => Stopped(n, sep)
              case Some(c) => Scan(st, c, b, k, k + 1)
  {
    hide NextSep, NextEnd, FindChild;
    NextEndIsSep(b, s, p);
    SameBytes(b, s, p, NextSep(s, p));
  }

  lemma CompsStep(s: string, p: nat)
    requires AtPiece(s, p) && Canonical(s)
    ensures var k := NextSep(s, p);
            && CompsAt(s, p) == [s[p..k]] + CompsAt(s, k + 1)
            && (k < |s| ==> AtPiece(s, k + 1))
            && CursorAt(s, k, k + 1)
    ensures p == 0 ==> CompsAt(s, p) == Components(s)
  {
    hide Components, NextSep, Canonical;
    PieceAt(s, p);
    var k := NextSep(s, p);
    if k < |s| { CanonicalNext(s, k); }
    assert s[0..] == s;
  }

  /** A scan that stops where the cursor is. */
  lemma StopsHere(s: string, sep: nat, p: nat)
    requires CursorAt(s, sep, p) && p < |s| && Canonical(s)
    ensures RestAt(s, sep, CompsAt(s, p)) && Moved(s, sep, p, sep, CompsAt(s, p))
  {
    hide Components, Canonical;
    CompsStep(s, p);
  }

  /** A scan that goes on behind the component at the cursor. */
  lemma GoesOn(st: Store, s: string, b: string, sep: nat, p: nat, k: nat, r: Scanned, l: Look)
    requires p < |s| && k >= p && Agrees(st, s, b, k, k + 1, r, l)
    requires |CompsAt(s, k + 1)| < |CompsAt(s, p)| && (k < |s| ==> s[k] == SEP) && k + 1 != |s|
    ensures Agrees(st, s, b, sep, p, r, l)
  {
    hide CompsAt, RestAt, Scan;
  }

  lemma {:induction false} ScanIsLookup(st: Store, n: nat, s: string, b: string, sep: nat, p: nat)
    requires Canonical(s) && Holds(b, s) && CursorAt(s, sep, p)
    ensures Agrees(st, s, b, sep, p, Scan(st, n, b, sep, p), Lookup(st, n, CompsAt(s, p)))
    decreases |s| - p
  {
    hide FindChild, CompsAt, NextSep, NextEnd, Canonical, CursorAt, RestAt, Moved, Scan;
    if p >= |s| {
      ScanEnds(st, n, s, b, sep, p);
    } else if n !in st.nodes {
      ScanLost(st, n, s, b, sep, p);
    } else {
      AtCursor(s, sep, p);
      CompsStep(s, p);
      StopsHere(s, sep, p);
      ScanStep(st, n, s, b, sep, p);
      var k := NextSep(s, p);
      if st.nodes[n].kind.Dir? {
        var c := FindChild(st, st.nodes[n].children, s[p..k]);
        if c.Some? {
          ScanIsLookup(st, c.value, s, b, k, k + 1);
          assert CompsAt(s, p)[1..] == CompsAt(s, k + 1);
          GoesOn(st, s, b, sep, p, k, Scan(st, n, b, sep, p), Lookup(st, n, CompsAt(s, p)));
        }
      }
    }
  }

  lemma AtCursor(s: string, sep: nat, p: nat)
    requires CursorAt(s, sep, p) && p < |s|
    ensures AtPiece(s, p)
  {}

  lemma ScanEnds(st: Store, n: nat, s: string, b: string, sep: nat, p: nat)
    requires Holds(b, s) && CursorAt(s, sep, p) && p >= |s|
    ensures Agrees(st, s, b, sep, p, Scan(st, n, b, sep, p), Lookup(st, n, CompsAt(s, p)))
  {}

  lemma ScanLost(st: Store, n: nat, s: string, b: string, sep: nat, p: nat)
    requires Canonical(s) && Holds(b, s) && CursorAt(s, sep, p) && p < |s| && n !in st.nodes
    ensures Agrees(st, s, b, sep, p, Scan(st, n, b, sep, p), Lookup(st, n, CompsAt(s, p)))
  {
    hide Components, NextSep, Canonical;
    CompsStep(s, p);
    SameBytes(b, s, p, p);
  }

  // ---------------------------------------------------------------- vfs_get_node is right

  /** The components a path names. */
  function PathComps(path: string): seq<string> { Components(Word(path)) }

  lemma StartCursor(s: string, b: string)
    requires Canonical(s) && Holds(b, s) && s != ""
    ensures CursorAt(s, 0, Start(b)) && CompsAt(s, Start(b)) == Components(s) && b[0] == s[0]
    ensures Start(b) == (if s[0] == SEP then 1 else 0)
    ensures Components(s) == [] <==> Start(b) == |s|
  {
    hide Canonical, NextSep;
    SameBytes(b, s, 0, 0);
    if s[0] == SEP {
      SkipSep(s);
      if |s| > 1 {
        CanonicalNext(s, 0);
        CompsStep(s, 1);
      }
    } else {
      CompsStep(s, 0);
    }
  }

  lemma SkipSep(s: string)
    requires s != "" && s[0] == SEP
    ensures Components(s) == Components(s[1..])
  {
    assert [] + Pieces(s[1..], "") == Pieces(s[1..], "");
  }

  /** The rest of a path at q, without a separator only where a relative path found nothing at all. */
  predicate RestOf(path: string, q: Option<nat>, rest: seq<string>) {
    && path != "" && q.Some? && RestAt(Normal(path), q.value, rest)
    && (Normal(path)[q.value] != SEP <==> path[0] != SEP && rest == PathComps(path))
  }

  predicate FoundIs(path: string, f: Found, l: Look) {
    match l
    case AtNode(n) => f == Found(Some(n), None, Fine)
    case NoDir => f == Found(None, Some(0), NoDirectory)
    case Missing(n, rest) => f.node == Some(n) && f.status == Fine && RestOf(path, f.rest, rest)
    case InMount(n, rest) => f.node == Some(n) && f.status == ContinuesInFileSystem && RestOf(path, f.rest, rest)
  }

  lemma RestMoved(path: string, b: string, q: nat, rest: seq<string>)
    requires CString(path) && path != "" && Normal(path) != "" && Holds(b, Normal(path)) && Canonical(Normal(path))
    requires RestAt(Normal(path), q, rest) && Moved(Normal(path), 0, Start(b), q, rest)
    ensures RestOf(path, Some(q), rest)
  {
    hide Normal, Components, Canonical, CompsAt;
    NormalKeepsMeaning(path);
    StartCursor(Normal(path), b);
  }

  /** vfs_get_node finds what the components say, unless it reads on behind the terminator. */
  lemma GetIsLookup(st: Store, path: string, before: string)
    requires CString(path) && |before| > |path|
    ensures path == "" ==> Get(st, path, before) == Found(None, None, MemoryErr)
    ensures path != "" && Word(path) == "" ==> Get(st, path, before) == Found(None, Some(0), InvalidPath)
    ensures var l := Lookup(st, st.root, PathComps(path));
            Word(path) != "" && (l.AtNode? ==> Settled(path, before) || PathComps(path) == []) ==>
            FoundIs(path, Get(st, path, before), l)
  {
    hide Normal, Components, Canonical, CompsAt, Buffer, FindChild, NextEnd, RestAt, Moved, RestOf, CursorAt, Word;
    hide Lookup;
    var s, b := Normal(path), Buffer(path, before);
    BufferHolds(path, before);
    NormalKeepsMeaning(path);
    WordNotEmpty(path);
    if s != "" {
      StartCursor(s, b);
      ScanIsLookup(st, st.root, s, b, 0, Start(b));
      SameBytes(b, s, 0, 0);
      var l := Lookup(st, st.root, PathComps(path));
      if l.Missing? || l.InMount? {
        RestMoved(path, b, Scan(st, st.root, b, 0, Start(b)).sep, l.rest);
      }
    }
  }

  /** A scan that does not end at once ends strictly below where it started. */
  lemma {:induction false} ScanBelow(st: Store, t: Tree, n: nat, b: string, sep: nat, p: nat)
    requires WellFormed(st, t) && n in st.nodes
    ensures n in t.place
    ensures var r := Scan(st, n, b, sep, p);
            r.Hit? ==> r.n in t.place && |t.place[n]| + (if ByteAt(b, p) == NUL then 0 else 1) <= |t.place[r.n]|
    decreases |b| - p
  {
    hide WellFormed, FindChild, NextEnd;
    AtPlace(st, t, n);
    if ByteAt(b, p) != NUL && st.nodes[n].kind.Dir? {
      var k := NextEnd(b, p);
      FindChildAt(st, t, n, b[p..k]);
      var q := t.place[n] + [b[p..k]];
      if q in t.at {
        PlaceOf(st, t, q);
        ScanBelow(st, t, t.at[q], b, k, k + 1);
      }
    }
  }

  /**
   For a path that exists, the node is found exactly when the byte behind the terminator is a
   terminator, or the path is the root.
   */
  lemma GetIff(st: Store, t: Tree, path: string, before: string)
    requires WellFormed(st, t) && CString(path) && Word(path) != "" && |before| > |path|
    requires PathComps(path) in t.at
    ensures Get(st, path, before) == Found(Some(t.at[PathComps(path)]), None, Fine) <==>
            Settled(path, before) || PathComps(path) == []
  {
    hide Normal, Buffer, WellFormed, Lookup, Word, Scan, PathComps, Settled;
    var b, comps := Buffer(path, before), PathComps(path);
    WordNotEmpty(path);
    RootPlace(st, t);
    LookupSplits(st, t, st.root, comps);
    assert [] + comps == comps;
    GetIsLookup(st, path, before);
    ScanExisting(st, path, before);
    PlaceOf(st, t, comps);
    ScanBelow(st, t, t.at[comps], b, |Normal(path)|, |Normal(path)| + 1);
    SettledByte(path, before);
  }

  lemma SettledByte(path: string, before: string)
    requires |before| > |path|
    ensures Settled(path, before) <==> ByteAt(Buffer(path, before), |Normal(path)| + 1) == NUL
  {}

  /** For a path that exists, the scan goes on from its node behind the terminator. */
  lemma ScanExisting(st: Store, path: string, before: string)
    requires CString(path) && path != "" && Word(path) != "" && |before| > |path|
    requires Lookup(st, st.root, PathComps(path)).AtNode?
    ensures var b, m := Buffer(path, before), Lookup(st, st.root, PathComps(path)).n;
            && ByteAt(b, 0) != NUL
            && Scan(st, st.root, b, 0, Start(b)) ==
               if PathComps(path) == [] then Hit(m) else Scan(st, m, b, |Normal(path)|, |Normal(path)| + 1)
  {
    hide Normal, Components, Canonical, CompsAt, Buffer, NextEnd, CursorAt, Lookup, Word, Scan;
    var s, b := Normal(path), Buffer(path, before);
    BufferHolds(path, before);
    NormalKeepsMeaning(path);
    StartCursor(s, b);
    SameBytes(b, s, 0, 0);
    ScanIsLookup(st, st.root, s, b, 0, Start(b));
  }

  lemma WordNotEmpty(path: string)
    ensures Word(path) != "" ==> path != ""
  {}

  lemma RootPlace(st: Store, t: Tree)
    requires WellFormed(st, t)
    ensures st.root in st.nodes && st.root in t.place && t.place[st.root] == [] && [] in t.at && t.at[[]] == st.root
  {}

  // ---------------------------------------------------------------- vfs_mkdir

  /** A relative path of which nothing exists: vfs_mkdir takes its first character for the separator. */
  predicate Clipped(path: string, rest: seq<string>) {
    path != "" && path[0] != SEP && rest == PathComps(path)
  }

  /** The directory and the name, in terms of components. */
  function MkdirTarget(path: string, l: Look): Option<(nat, string)> {
    if !l.Missing? || |l.rest| != 1 || l.rest[0] == "" then None
    else Some((l.n, if Clipped(path, l.rest) then l.rest[0][1..] else l.rest[0]))
  }

  /** One component left, as a string behind its separator. */
  lemma RestName(path: string, b: string, q: nat, rest: seq<string>)
    requires Holds(b, Normal(path)) && Canonical(Normal(path)) && RestOf(path, Some(q), rest)
    ensures SEP !in CStr(b, q + 1) <==> |rest| == 1
    ensures |rest| == 1 ==> rest[0] != "" && CStr(b, q + 1) == if Clipped(path, rest) then rest[0][1..] else rest[0]
  {
    hide Normal, Components, Canonical, CStr, PathComps;
    var s := Normal(path);
    CStrIsRest(b, s, q + 1);
    if s[q] == SEP {
      OnePiece(s, q + 1);
    } else {
      OnePiece(s, 0);
      assert s[0..] == s;
      assert SEP in s ==> SEP in s[1..];
    }
  }

  /** vfs_mkdir adds to the directory that is one component short of the path, and to no other. */
  lemma MkdirOfIs(st: Store, path: string, before: string)
    requires CString(path) && path != "" && |before| > |path|
    ensures Word(path) == "" ==> MkdirOf(st, path, before) == None
    ensures var l := Lookup(st, st.root, PathComps(path));
            Word(path) != "" && (l.AtNode? ==> Settled(path, before) || PathComps(path) == []) ==>
            MkdirOf(st, path, before) == MkdirTarget(path, l)
  {
    hide Normal, Components, Canonical, Buffer, Get, RestOf, Word, CStr, Lookup, Clipped;
    GetIsLookup(st, path, before);
    BufferHolds(path, before);
    var l := Lookup(st, st.root, PathComps(path));
    if l.Missing? {
      MissingIsDir(st, st.root, PathComps(path));
    }
    if l.InMount? {
      MountIsMount(st, st.root, PathComps(path));
    }
    var f := Get(st, path, before);
    if Word(path) != "" && l.Missing? {
      RestSome(path, f.rest, l.rest);
      RestName(path, Buffer(path, before), f.rest.value, l.rest);
    }
  }

  lemma RestSome(path: string, q: Option<nat>, rest: seq<string>)
    requires RestOf(path, q, rest)
    ensures q.Some?
  {}

  lemma {:induction false} MissingIsDir(st: Store, n: nat, comps: seq<string>)
    requires Lookup(st, n, comps).Missing?
    ensures var l := Lookup(st, n, comps);
            && l.n in st.nodes && st.nodes[l.n].kind.Dir? && l.rest != []
            && FindChild(st, st.nodes[l.n].children, l.rest[0]) == None
    decreases |comps|
  {
    hide FindChild;
    var c := FindChild(st, st.nodes[n].children, comps[0]);
    if c.Some? { MissingIsDir(st, c.value, comps[1..]); }
  }

  lemma {:induction false} MountIsMount(st: Store, n: nat, comps: seq<string>)
    requires Lookup(st, n, comps).InMount?
    ensures var m := Lookup(st, n, comps).n; m in st.nodes && st.nodes[m].kind.Mounted?
    decreases |comps|
  {
    hide FindChild;
    if st.nodes[n].kind.Dir? {
      MountIsMount(st, FindChild(st, st.nodes[n].children, comps[0]).value, comps[1..]);
    }
  }

  lemma {:induction false} PiecesGood(s: string, cur: string, c: string)
    requires SEP !in cur && c in Pieces(s, cur)
    ensures GoodName(c)
    decreases |s|
  {
    if s != "" && s[0] == SEP {
      if c !in Closed(cur) { PiecesGood(s[1..], "", c); }
    } else if s != "" {
      PiecesGood(s[1..], cur + [s[0]], c);
    }
  }

  /** The name vfs_mkdir takes from a path that is not clipped is a component, so a good name. */
  lemma TargetGood(st: Store, t: Tree, path: string)
    requires WellFormed(st, t) && Lookup(st, st.root, PathComps(path)).Missing?
    ensures var l := Lookup(st, st.root, PathComps(path));
            && l.n in t.place && l.rest != [] && GoodName(l.rest[0])
            && t.place[l.n] + l.rest == PathComps(path) && t.place[l.n] + [l.rest[0]] !in t.at
            && (l.rest == PathComps(path) ==> l.n == st.root)
  {
    hide WellFormed, Lookup, PathComps, GoodName;
    var comps := PathComps(path);
    var l := Lookup(st, st.root, comps);
    RootPlace(st, t);
    LookupSplits(st, t, st.root, comps);
    assert [] + comps == comps;
    assert l.rest[0] == comps[|t.place[l.n]|];
    CompsGood(path, l.rest[0]);
    MissingIsDir(st, st.root, comps);
    AtPlace(st, t, l.n);
  }

  lemma CompsGood(path: string, c: string)
    requires c in PathComps(path)
    ensures GoodName(c)
  {
    PiecesGood(Word(path), "", c);
  }

  /** A clipped name is not the name looked for. */
  lemma ClippedMissing(st: Store, name: string, id: nat)
    requires st.root in st.nodes && st.nodes[st.root].kind.Dir? && id !in st.nodes && name != ""
    requires FindChild(st, st.nodes[st.root].children, name) == None
    ensures Lookup(WithChild(st, st.root, name[1..], id), st.root, [name]) == Missing(st.root, [name])
  {
    hide FindChild;
    var st' := WithChild(st, st.root, name[1..], id);
    FindChildHit(st, st.nodes[st.root].children, name);
    FindChildHit(st', st'.nodes[st.root].children, name);
    assert |name[1..]| < |name|;
  }

  /** A name that the directory n can take. */
  predicate FreshName(st: Store, n: nat, name: string) {
    n in st.nodes && st.nodes[n].kind.Dir? && GoodName(name) && FindChild(st, st.nodes[n].children, name) == None
  }

  lemma {:induction false} NameIsPiece(b: string, q: nat)
    requires q <= |b| && SEP !in CStr(b, q)
    ensures b[q..NextEnd(b, q)] == CStr(b, q)
    decreases |b| - q
  {
    if ByteAt(b, q) != NUL {
      assert CStr(b, q)[0] == b[q];
      assert forall c :: c in CStr(b, q + 1) ==> c in CStr(b, q);
      NameIsPiece(b, q + 1);
    }
  }

  /** A scan that stops behind a separator, or behind a terminator taken for one, leaves a fresh name. */
  lemma {:induction false} ScanStopsFresh(st: Store, n: nat, b: string, sep: nat, p: nat)
    requires p == sep + 1 && Scan(st, n, b, sep, p).Stopped?
    requires SEP !in CStr(b, Scan(st, n, b, sep, p).sep + 1)
    ensures var r := Scan(st, n, b, sep, p); FreshName(st, r.n, CStr(b, r.sep + 1))
    decreases |b| - p
  {
    hide FindChild, NextEnd;
    var k := NextEnd(b, p);
    var c := FindChild(st, st.nodes[n].children, b[p..k]);
    if c.Some? {
      ScanStopsFresh(st, c.value, b, k, k + 1);
    } else {
      NameIsPiece(b, p);
    }
  }

  lemma {:induction false} ScanWithin(st: Store, n: nat, b: string, sep: nat, p: nat)
    ensures var r := Scan(st, n, b, sep, p); r.Within? ==> r.n in st.nodes && st.nodes[r.n].kind.Mounted?
    decreases |b| - p
  {
    hide FindChild, NextEnd;
    if ByteAt(b, p) != NUL && n in st.nodes && st.nodes[n].kind.Dir? {
      var k := NextEnd(b, p);
      var c := FindChild(st, st.nodes[n].children, b[p..k]);
      if c.Some? { ScanWithin(st, c.value, b, k, k + 1); }
    }
  }

  /** The name vfs_mkdir takes is fresh, unless the path was clipped. */
  lemma MkdirName(st: Store, t: Tree, path: string, before: string)
    requires WellFormed(st, t) && CString(path) && Word(path) != "" && |before| > |path|
    requires MkdirOf(st, path, before).Some?
    ensures var l, (n, name) := Lookup(st, st.root, PathComps(path)), MkdirOf(st, path, before).value;
            (l.Missing? && Clipped(path, l.rest)) || FreshName(st, n, name)
  {
    hide Buffer, Word, FindChild, WellFormed, PathComps, Settled, Lookup, GoodName, Scan, CStr;
    var comps := PathComps(path);
    var l := Lookup(st, st.root, comps);
    WordNotEmpty(path);
    MkdirOfIs(st, path, before);
    if l.Missing? {
      MissingIsDir(st, st.root, comps);
      TargetGood(st, t, path);
    } else if l.AtNode? && comps != [] {
      ScanExisting(st, path, before);
      var b := Buffer(path, before);
      ScanWithin(st, st.root, b, 0, Start(b));
      ScanStopsFresh(st, l.n, b, |Normal(path)|, |Normal(path)| + 1);
    }
  }

  lemma FreshPlace(st: Store, t: Tree, n: nat, name: string)
    requires WellFormed(st, t) && FreshName(st, n, name)
    ensures n in t.place && t.place[n] + [name] !in t.at && GoodName(name)
  {
    hide WellFormed, FindChild;
    FindChildAt(st, t, n, name);
  }

  /**
   After a directory was made it is found under its path, exactly when the path was missing and not
   clipped.
   */
  lemma MkdirFindsIff(st: Store, t: Tree, path: string, before: string, id: nat)
    requires WellFormed(st, t) && CString(path) && Word(path) != "" && |before| > |path| && id !in st.nodes
    requires MkdirOf(st, path, before).Some?
    ensures var l, (n, name) := Lookup(st, st.root, PathComps(path)), MkdirOf(st, path, before).value;
            && n in st.nodes
            && (Lookup(WithChild(st, n, name, id), st.root, PathComps(path)) == AtNode(id) <==>
                l.Missing? && !Clipped(path, l.rest))
  {
    hide Buffer, Get, Word, FindChild, WellFormed, MkdirOf, PathComps, Settled, Lookup, GoodName, FreshName;
    var comps := PathComps(path);
    var l := Lookup(st, st.root, comps);
    WordNotEmpty(path);
    RootPlace(st, t);
    LookupSplits(st, t, st.root, comps);
    assert [] + comps == comps;
    MkdirOfIs(st, path, before);
    MkdirName(st, t, path, before);
    var (n, name) := MkdirOf(st, path, before).value;
    if l.Missing? && Clipped(path, l.rest) {
      TargetGood(st, t, path);
      MissingIsDir(st, st.root, comps);
      ClippedMissing(st, comps[0], id);
      assert comps == [comps[0]];
    } else {
      FreshDir(st, n, name);
      FreshPlace(st, t, n, name);
      LookupAfterMkdir(st, t, n, name, id, st.root, comps);
      if l.Missing? {
        TargetGood(st, t, path);
        assert t.place[n] + [name] == comps;
      } else if l.AtNode? {
        PlaceOf(st, t, comps);
        if t.place[n] + [name] <= comps { NotBelow(st, t, t.place[n] + [name], comps); }
      }
    }
  }

  lemma FreshDir(st: Store, n: nat, name: string)
    requires FreshName(st, n, name)
    ensures n in st.nodes && st.nodes[n].kind.Dir?
  {}

  /** A directory made from a clipped path can spoil the tree: an empty name, or a second child of a name. */
  lemma MkdirKeepsIff(st: Store, t: Tree, path: string, before: string, id: nat)
    requires WellFormed(st, t) && CString(path) && Word(path) != "" && |before| > |path| && id !in st.nodes
    requires MkdirOf(st, path, before).Some?
    ensures var l, (n, name) := Lookup(st, st.root, PathComps(path)), MkdirOf(st, path, before).value;
            && n in st.nodes
            && ((exists t' :: WellFormed(WithChild(st, n, name, id), t')) <==>
                (l.Missing? && Clipped(path, l.rest) ==> name != "" && [name] !in t.at))
  {
    hide Buffer, Get, Word, FindChild, WellFormed, MkdirOf, PathComps, Settled, Lookup, GoodName, FreshName;
    var comps := PathComps(path);
    var l := Lookup(st, st.root, comps);
    WordNotEmpty(path);
    RootPlace(st, t);
    MkdirOfIs(st, path, before);
    MkdirName(st, t, path, before);
    var (n, name) := MkdirOf(st, path, before).value;
    if l.Missing? && Clipped(path, l.rest) {
      TargetGood(st, t, path);
      MissingIsDir(st, st.root, comps);
      TailGood(l.rest[0]);
      assert t.place[n] + [name] == [name];
    } else {
      FreshDir(st, n, name);
      FreshPlace(st, t, n, name);
    }
    ChildIff(st, t, n, name, id);
  }

  /**
   On a path that exists vfs_mkdir makes nothing if the byte behind the terminator is zero.  If not,
   it takes the bytes there for one more component, and in a directory without such a child makes
   one of that name.
   */
  lemma MkdirExisting(st: Store, t: Tree, path: string, before: string)
    requires WellFormed(st, t) && CString(path) && Word(path) != "" && |before| > |path|
    requires PathComps(path) in t.at && PathComps(path) != []
    ensures var b, n := Buffer(path, before), t.at[PathComps(path)];
            var p := |Normal(path)| + 1;
            && (Settled(path, before) ==> MkdirOf(st, path, before) == None)
            && (!Settled(path, before) && n in st.nodes && !st.nodes[n].kind.Dir? ==> MkdirOf(st, path, before) == None)
            && (!Settled(path, before) && n in st.nodes && st.nodes[n].kind.Dir? && p <= |b| &&
                FindChild(st, st.nodes[n].children, b[p..NextEnd(b, p)]) == None ==>
                MkdirOf(st, path, before) == if SEP in CStr(b, p) then None else Some((n, CStr(b, p))))
  {
    hide Normal, Buffer, Word, FindChild, WellFormed, PathComps, Settled, Lookup, CStr, NextEnd;
    var comps := PathComps(path);
    WordNotEmpty(path);
    RootPlace(st, t);
    LookupSplits(st, t, st.root, comps);
    assert [] + comps == comps;
    GetIsLookup(st, path, before);
    ScanExisting(st, path, before);
    SettledByte(path, before);
  }

  lemma TailGood(name: string)
    requires GoodName(name)
    ensures GoodName(name[1..]) <==> name[1..] != ""
  {}

  /** Adding a child keeps a tree exactly when its name is good and new. */
  lemma ChildIff(st: Store, t: Tree, n: nat, name: string, id: nat)
    requires WellFormed(st, t) && n in st.nodes && n in t.place && st.nodes[n].kind.Dir? && id !in st.nodes
    ensures (exists t' :: WellFormed(WithChild(st, n, name, id), t')) <==>
            GoodName(name) && t.place[n] + [name] !in t.at
  {
    hide WellFormed, GoodName, FindChild;
    var st' := WithChild(st, n, name, id);
    if GoodName(name) && t.place[n] + [name] !in t.at {
      WithChildWellFormed(st, t, n, name, id);
    }
    FindChildAt(st, t, n, name);
    FindChildHit(st, st.nodes[n].children, name);
    forall t' | WellFormed(st', t') ensures GoodName(name) && t.place[n] + [name] !in t.at {
      NewChild(st', t', n, name, id);
      var twin := FindChild(st, st.nodes[n].children, name);
      if twin.Some? {
        SiblingNames(st', t', n, twin.value, id);
      }
    }
  }

  lemma NewChild(st: Store, t: Tree, n: nat, name: string, id: nat)
    requires WellFormed(st, t) && n in st.nodes && id in st.nodes[n].children && id in st.nodes && st.nodes[id].name == name
    ensures GoodName(name)
  {
    hide GoodName;
    assert ChildOf(st, t, n, id);
    assert Parented(st, t, t.place[id]);
  }

  /** Siblings of one name are one node. */
  lemma SiblingNames(st: Store, t: Tree, n: nat, c: nat, d: nat)
    requires WellFormed(st, t) && n in st.nodes && c in st.nodes[n].children && d in st.nodes[n].children
    requires c in st.nodes && d in st.nodes && st.nodes[c].name == st.nodes[d].name
    ensures c == d
  {
    assert ChildOf(st, t, n, c) && ChildOf(st, t, n, d);
  }
}
