/**
 The virtual file system tree: nodes in a store, directories listing their children newest
 first, lookup by longest existing prefix, making directories and mounting.
 */
module Vfs {
  import opened Common
  import opened VfsPath

  datatype FileSystem = FileSystem(disk: nat, offset: nat, kind: nat)

  datatype Kind = Dir | Mounted(fs: FileSystem) | Other(code: nat)

  datatype Node = Node(kind: Kind, name: string, children: seq<nat>)

  /** Nodes by address. */
  datatype Store = Store(nodes: map<nat, Node>, root: nat)

  // ---------------------------------------------------------------- lookup

  /** find_child_node: the first child of that name. */
  function FindChild(st: Store, children: seq<nat>, name: string): Option<nat> {
    if children == [] then None
    else if children[0] in st.nodes && st.nodes[children[0]].name == name then Some(children[0])
    else FindChild(st, children[1..], name)
  }

  /** What vfs_get_node finds: the node itself, or the last one on the way and the components left. */
  datatype Look =
    | AtNode(n: nat)
    | Missing(n: nat, rest: seq<string>)
    | InMount(n: nat, rest: seq<string>)
    | NoDir

  /** The walk of vfs_get_node from node n. */
  function Lookup(st: Store, n: nat, comps: seq<string>): Look
    decreases |comps|
  {
    if comps == [] then AtNode(n)
    else if n !in st.nodes then NoDir
    else
      match st.nodes[n].kind
      case Mounted(_) => InMount(n, comps)
      case Other(_) => NoDir
      case Dir =>
        match FindChild(st, st.nodes[n].children, comps[0])
        case None => Missing(n, comps)
        case Some(c) => Lookup(st, c, comps[1..])
  }

  // ---------------------------------------------------------------- the tree

  /** The node at each path, and the path of each node. */
  datatype Tree = Tree(at: map<seq<string>, nat>, place: map<nat, seq<string>>)

  predicate GoodName(name: string) { name != "" && SEP !in name }

  /** at and place are inverse to each other and cover the store. */
  predicate Inverse(st: Store, t: Tree) {
    && st.nodes.Keys == t.place.Keys
    && (forall p :: p in t.at ==> t.at[p] in t.place && t.place[t.at[p]] == p)
    && (forall n :: n in t.place ==> t.place[n] in t.at && t.at[t.place[n]] == n)
    && [] in t.at && t.at[[]] == st.root
  }

  /** The node at p is listed by the directory at p's front, under p's last component. */
  predicate Parented(st: Store, t: Tree, p: seq<string>) {
    p != [] &&
    var q := p[..|p| - 1];
    && q in t.at && t.at[q] in st.nodes && p in t.at
    && st.nodes[t.at[q]].kind.Dir? && t.at[p] in st.nodes[t.at[q]].children
    && GoodName(p[|p| - 1])
  }

  /** A child is one step below its directory. */
  predicate ChildOf(st: Store, t: Tree, n: nat, c: nat)
    requires n in st.nodes
  {
    && n in t.place && c in st.nodes && c in t.place && st.nodes[n].kind.Dir?
    && t.place[c] == t.place[n] + [st.nodes[c].name]
  }

  /** A tree: every node has one path, and so siblings have different names. */
  predicate WellFormed(st: Store, t: Tree) {
    && Inverse(st, t)
    && (forall p :: p in t.at && p != [] ==> Parented(st, t, p))
    && (forall n, c :: n in st.nodes && c in st.nodes[n].children ==> ChildOf(st, t, n, c))
  }

  lemma {:induction false} FindChildHit(st: Store, children: seq<nat>, name: string)
    ensures FindChild(st, children, name).Some? ==>
              var c := FindChild(st, children, name).value;
              c in children && c in st.nodes && st.nodes[c].name == name
    ensures FindChild(st, children, name).None? ==>
              forall c :: c in children && c in st.nodes ==> st.nodes[c].name != name
    decreases |children|
  {
    if children != [] {
      FindChildHit(st, children[1..], name);
      assert forall c :: c in children <==> c == children[0] || c in children[1..];
    }
  }

  /** In a directory, the child of a name is the node one step below. */
  lemma FindChildAt(st: Store, t: Tree, n: nat, name: string)
    requires WellFormed(st, t) && n in st.nodes && st.nodes[n].kind.Dir?
    ensures n in t.place
    ensures var p := t.place[n] + [name];
            FindChild(st, st.nodes[n].children, name) == if p in t.at then Some(t.at[p]) else None
  {
    var p := t.place[n] + [name];
    FindChildHit(st, st.nodes[n].children, name);
    var r := FindChild(st, st.nodes[n].children, name);
    if r.Some? {
      assert ChildOf(st, t, n, r.value);
    }
    if p in t.at {
      assert Parented(st, t, p);
      assert p[..|p| - 1] == t.place[n];
      assert ChildOf(st, t, n, t.at[p]);
      assert p[|p| - 1] == name;
    }
  }

  /**
   Lookup splits a path at the deepest node on it: the node's own path, then the rest, of which
   not even the first component exists below that node.
   */
  lemma {:induction false} LookupSplits(st: Store, t: Tree, n: nat, comps: seq<string>)
    requires WellFormed(st, t) && n in st.nodes
    ensures n in t.place
    ensures var path := t.place[n] + comps;
            match Lookup(st, n, comps)
            case AtNode(m) => path in t.at && t.at[path] == m
            case Missing(m, rest) =>
              && m in t.place && rest != [] && t.place[m] + rest == path && path !in t.at
              && st.nodes[m].kind.Dir? && t.place[m] + [rest[0]] !in t.at
            case InMount(m, rest) =>
              && m in t.place && rest != [] && t.place[m] + rest == path && path !in t.at
              && st.nodes[m].kind.Mounted?
            case NoDir => path !in t.at
    decreases |comps|
  {
    hide WellFormed, FindChild;
    AtPlace(st, t, n);
    var path := t.place[n] + comps;
    if comps == [] {
      assert path == t.place[n];
    } else {
      var p := t.place[n] + [comps[0]];
      assert p + comps[1..] == path;
      if st.nodes[n].kind.Dir? {
        FindChildAt(st, t, n, comps[0]);
      } else {
        NothingBelow(st, t, n, comps[0]);
      }
      if p in t.at {
        PlaceOf(st, t, p);
        LookupSplits(st, t, t.at[p], comps[1..]);
      } else {
        NotBelow(st, t, p, path);
      }
    }
  }

  lemma AtPlace(st: Store, t: Tree, n: nat)
    requires WellFormed(st, t) && n in st.nodes
    ensures n in t.place && t.place[n] in t.at && t.at[t.place[n]] == n
  {}

  /** Below a path that does not exist there is nothing. */
  lemma {:induction false} NotBelow(st: Store, t: Tree, p: seq<string>, q: seq<string>)
    requires WellFormed(st, t) && p <= q && p !in t.at
    ensures q !in t.at
    decreases |q|
  {
    if q in t.at && q != p {
      assert q != [];
      assert Parented(st, t, q);
      var front := q[..|q| - 1];
      assert p <= front;
      NotBelow(st, t, p, front);
    }
  }

  // ---------------------------------------------------------------- making a directory

  /** A new empty directory, first among the children of `parent`. */
  function WithChild(st: Store, parent: nat, name: string, id: nat): Store
    requires parent in st.nodes
  {
    var dir := st.nodes[parent];
    st.(nodes := st.nodes[parent := dir.(children := [id] + dir.children)][id := Node(Dir, name, [])])
  }

  function TreeWith(t: Tree, p: seq<string>, id: nat): Tree {
    Tree(t.at[p := id], t.place[id := p])
  }

  lemma WithChildInverse(st: Store, t: Tree, parent: nat, name: string, id: nat)
    requires WellFormed(st, t) && parent in st.nodes && id !in st.nodes
    requires parent in t.place && t.place[parent] + [name] !in t.at
    ensures Inverse(WithChild(st, parent, name, id), TreeWith(t, t.place[parent] + [name], id))
  {}

  lemma WithChildWellFormed(st: Store, t: Tree, parent: nat, name: string, id: nat)
    requires WellFormed(st, t) && parent in st.nodes && st.nodes[parent].kind.Dir? && id !in st.nodes
    requires parent in t.place && t.place[parent] + [name] !in t.at && GoodName(name)
    ensures WellFormed(WithChild(st, parent, name, id), TreeWith(t, t.place[parent] + [name], id))
    ensures var l, l' := st.nodes[parent].children, WithChild(st, parent, name, id).nodes[parent].children;
            |l'| == |l| + 1 && l'[0] == id && l'[1..] == l
  {
    hide Inverse, Parented, ChildOf;
    var p := t.place[parent] + [name];
    var st', t' := WithChild(st, parent, name, id), TreeWith(t, p, id);
    WithChildInverse(st, t, parent, name, id);
    forall q | q in t'.at && q != [] ensures Parented(st', t', q) {
      WithChildParented(st, t, parent, name, id, q);
    }
    forall n, c | n in st'.nodes && c in st'.nodes[n].children ensures ChildOf(st', t', n, c) {
      WithChildChild(st, t, parent, name, id, n, c);
    }
  }

  lemma WithChildParented(st: Store, t: Tree, parent: nat, name: string, id: nat, q: seq<string>)
    requires WellFormed(st, t) && parent in st.nodes && st.nodes[parent].kind.Dir? && id !in st.nodes
    requires parent in t.place && t.place[parent] + [name] !in t.at && GoodName(name)
    requires q != [] && q in TreeWith(t, t.place[parent] + [name], id).at
    ensures Parented(WithChild(st, parent, name, id), TreeWith(t, t.place[parent] + [name], id), q)
  {
    hide WellFormed, GoodName;
    AtPlace(st, t, parent);
    var p := t.place[parent] + [name];
    if q == p {
      assert p[..|p| - 1] == t.place[parent];
    } else {
      ParentOf(st, t, q);
      PlaceOf(st, t, q);
      PlaceOf(st, t, q[..|q| - 1]);
    }
  }

  lemma ParentOf(st: Store, t: Tree, q: seq<string>)
    requires WellFormed(st, t) && q in t.at && q != []
    ensures Parented(st, t, q)
  {}

  lemma WithChildChild(st: Store, t: Tree, parent: nat, name: string, id: nat, n: nat, c: nat)
    requires WellFormed(st, t) && parent in st.nodes && st.nodes[parent].kind.Dir? && id !in st.nodes
    requires parent in t.place && t.place[parent] + [name] !in t.at
    requires n in WithChild(st, parent, name, id).nodes && c in WithChild(st, parent, name, id).nodes[n].children
    ensures ChildOf(WithChild(st, parent, name, id), TreeWith(t, t.place[parent] + [name], id), n, c)
  {
    hide Parented;
    assert n != id;
    assert c != id ==> c in st.nodes[n].children;
    assert c in st.nodes[n].children ==> ChildOf(st, t, n, c);
  }

  /** Lookup after a directory was made at p: p and everything below it, and nothing else, is new. */
  function LookAfterMkdir(p: seq<string>, id: nat, q: seq<string>, before: Look): Look {
    if q == p then AtNode(id)
    else if p <= q then Missing(id, q[|p|..])
    else before
  }

  lemma {:induction false} LookupAfterMkdir(st: Store, t: Tree, parent: nat, name: string, id: nat,
                                           n: nat, comps: seq<string>)
    requires WellFormed(st, t) && parent in st.nodes && st.nodes[parent].kind.Dir? && id !in st.nodes
    requires parent in t.place && t.place[parent] + [name] !in t.at && GoodName(name)
    requires n in st.nodes && n in t.place
    ensures var p := t.place[parent] + [name];
            p <= t.place[n] + comps ==> |t.place[n]| < |p|
    ensures Lookup(WithChild(st, parent, name, id), n, comps) ==
            LookAfterMkdir(t.place[parent] + [name], id, t.place[n] + comps, Lookup(st, n, comps))
    decreases |comps|
  {
    hide FindChild, WellFormed;
    var p := t.place[parent] + [name];
    var st', t' := WithChild(st, parent, name, id), TreeWith(t, p, id);
    WithChildWellFormed(st, t, parent, name, id);
    NotAbove(st, t, p, n);
    if comps == [] {
      assert t.place[n] + comps == t.place[n];
    } else {
      var q := t.place[n] + [comps[0]];
      assert t.place[n] + comps == q + comps[1..];
      if st.nodes[n].kind.Dir? {
        FindChildAt(st, t, n, comps[0]);
        FindChildAt(st', t', n, comps[0]);
        if q == p {
          NewIsEmpty(st', id, comps[1..]);
          assert p <= t.place[n] + comps;
          assert (t.place[n] + comps)[|p|..] == comps[1..];
          assert comps[1..] == [] ==> t.place[n] + comps == p;
        } else if q in t.at {
          PlaceOf(st, t, q);
          LookupAfterMkdir(st, t, parent, name, id, t.at[q], comps[1..]);
        } else {
          SeparateMissing(st, t, parent, name, n, comps);
        }
      } else {
        NothingBelow(st, t, n, comps[0]);
        SamePlace(st, t, n, comps[0], parent, name);
        SeparateMissing(st, t, parent, name, n, comps);
      }
    }
  }

  lemma PlaceOf(st: Store, t: Tree, q: seq<string>)
    requires WellFormed(st, t) && q in t.at
    ensures t.at[q] in st.nodes && t.at[q] in t.place && t.place[t.at[q]] == q
  {}

  /** A path that does not exist is no prefix of one that does. */
  lemma NotAbove(st: Store, t: Tree, p: seq<string>, n: nat)
    requires WellFormed(st, t) && n in t.place && p !in t.at
    ensures !(p <= t.place[n])
  {
    if p <= t.place[n] {
      NotBelow(st, t, p, t.place[n]);
    }
  }

  lemma NewIsEmpty(st: Store, id: nat, comps: seq<string>)
    requires id in st.nodes && st.nodes[id].kind.Dir? && st.nodes[id].children == []
    ensures Lookup(st, id, comps) == if comps == [] then AtNode(id) else Missing(id, comps)
  {}

  /** Two paths that do not exist, while their fronts do, have a common extension only if they are equal. */
  lemma TwoMissing(st: Store, t: Tree, p: seq<string>, q: seq<string>, r: seq<string>)
    requires WellFormed(st, t) && p != [] && q != [] && p !in t.at && q !in t.at
    requires p[..|p| - 1] in t.at && q[..|q| - 1] in t.at && p <= r && q <= r
    ensures p == q
  {
    if |q| < |p| {
      assert q <= p[..|p| - 1];
      NotBelow(st, t, q, p[..|p| - 1]);
    } else if |p| < |q| {
      assert p <= q[..|q| - 1];
      NotBelow(st, t, p, q[..|q| - 1]);
    }
  }

  lemma SeparateMissing(st: Store, t: Tree, parent: nat, name: string, n: nat, comps: seq<string>)
    requires WellFormed(st, t) && parent in t.place && n in t.place && comps != []
    requires t.place[parent] + [name] !in t.at && t.place[n] + [comps[0]] !in t.at
    ensures t.place[parent] + [name] <= t.place[n] + comps ==> t.place[n] + [comps[0]] == t.place[parent] + [name]
  {
    hide Parented, ChildOf;
    var p, q, r := t.place[parent] + [name], t.place[n] + [comps[0]], t.place[n] + comps;
    assert p[..|p| - 1] == t.place[parent] && q[..|q| - 1] == t.place[n];
    assert r == q + comps[1..];
    if p <= r {
      TwoMissing(st, t, p, q, r);
    }
  }

  lemma SamePlace(st: Store, t: Tree, n: nat, a: string, m: nat, b: string)
    requires WellFormed(st, t) && n in t.place && m in t.place && n != m
    ensures t.place[n] + [a] != t.place[m] + [b]
  {
    var p, q := t.place[n] + [a], t.place[m] + [b];
    assert p[..|p| - 1] == t.place[n] && q[..|q| - 1] == t.place[m];
  }

  /** A node that is no directory has nothing below it. */
  lemma NothingBelow(st: Store, t: Tree, n: nat, name: string)
    requires WellFormed(st, t) && n in st.nodes && !st.nodes[n].kind.Dir?
    ensures n in t.place && t.place[n] + [name] !in t.at
  {
    var q := t.place[n] + [name];
    assert q[..|q| - 1] == t.place[n];
    assert q in t.at ==> Parented(st, t, q);
  }

  // ---------------------------------------------------------------- mounting

  function WithMount(st: Store, n: nat, fs: FileSystem): Store
    requires n in st.nodes
  {
    st.(nodes := st.nodes[n := st.nodes[n].(kind := Mounted(fs))])
  }

  lemma WithMountWellFormed(st: Store, t: Tree, n: nat, fs: FileSystem)
    requires WellFormed(st, t) && n in st.nodes && st.nodes[n].kind.Dir? && st.nodes[n].children == []
    ensures WellFormed(WithMount(st, n, fs), t)
  {
    var st' := WithMount(st, n, fs);
    forall p | p in t.at && p != [] ensures Parented(st', t, p) {
      assert Parented(st, t, p);
    }
    forall m, c | m in st'.nodes && c in st'.nodes[m].children ensures ChildOf(st', t, m, c) {
      assert c in st.nodes[m].children;
      assert ChildOf(st, t, m, c);
    }
  }

  /** Lookup after a mount at p: everything below p is handed on to the file system. */
  function LookAfterMount(p: seq<string>, n: nat, q: seq<string>, before: Look): Look {
    if p <= q && p != q then InMount(n, q[|p|..]) else before
  }

  /** Below an empty directory there is nothing. */
  lemma EmptyBelow(st: Store, t: Tree, n: nat, name: string)
    requires WellFormed(st, t) && n in st.nodes && st.nodes[n].children == []
    ensures n in t.place && t.place[n] + [name] !in t.at
  {
    var q := t.place[n] + [name];
    assert q[..|q| - 1] == t.place[n];
    assert q in t.at ==> Parented(st, t, q);
  }

  lemma NoneUnder(st: Store, t: Tree, n: nat, m: nat)
    requires WellFormed(st, t) && n in st.nodes && st.nodes[n].children == [] && m in t.place && n in t.place
    ensures t.place[n] <= t.place[m] ==> m == n
  {
    hide WellFormed;
    AtPlace(st, t, n);
    var p, q := t.place[n], t.place[m];
    if p <= q && p != q {
      EmptyBelow(st, t, n, q[|p|]);
      NotAbove(st, t, p + [q[|p|]], m);
    } else if p == q {
      AtPlaceSame(st, t, n, m);
    }
  }

  lemma AtPlaceSame(st: Store, t: Tree, n: nat, m: nat)
    requires WellFormed(st, t) && n in t.place && m in t.place && t.place[n] == t.place[m]
    ensures n == m
  {}

  lemma {:induction false} LookupAfterMount(st: Store, t: Tree, n: nat, fs: FileSystem, m: nat, comps: seq<string>)
    requires WellFormed(st, t) && n in st.nodes && st.nodes[n].kind.Dir? && st.nodes[n].children == []
    requires n in t.place && m in st.nodes && m in t.place
    ensures Lookup(WithMount(st, n, fs), m, comps) ==
            LookAfterMount(t.place[n], n, t.place[m] + comps, Lookup(st, m, comps))
    decreases |comps|
  {
    hide FindChild, WellFormed;
    var st' := WithMount(st, n, fs);
    WithMountWellFormed(st, t, n, fs);
    NoneUnder(st, t, n, m);
    if comps == [] {
      assert t.place[m] + comps == t.place[m];
    } else if m == n {
      assert (t.place[m] + comps)[|t.place[n]|..] == comps;
    } else {
      var q := t.place[m] + [comps[0]];
      assert t.place[m] + comps == q + comps[1..];
      if st.nodes[m].kind.Dir? {
        FindChildAt(st, t, m, comps[0]);
        FindChildAt(st', t, m, comps[0]);
        if q in t.at {
          PlaceOf(st, t, q);
          LookupAfterMount(st, t, n, fs, t.at[q], comps[1..]);
        } else {
          MissingNotUnder(st, t, n, m, comps);
        }
      } else {
        NothingBelow(st, t, m, comps[0]);
        MissingNotUnder(st, t, n, m, comps);
      }
    }
  }

  lemma MissingNotUnder(st: Store, t: Tree, n: nat, m: nat, comps: seq<string>)
    requires WellFormed(st, t) && n in st.nodes && st.nodes[n].children == [] && n in t.place
    requires m in t.place && m != n && comps != [] && t.place[m] + [comps[0]] !in t.at
    ensures !(t.place[n] <= t.place[m] + comps)
  {
    hide WellFormed;
    NoneUnder(st, t, n, m);
    NotAbove(st, t, t.place[m] + [comps[0]], n);
    PrefixSplit(t.place[n], t.place[m], comps);
  }

  lemma PrefixSplit(p: seq<string>, q: seq<string>, comps: seq<string>)
    requires comps != []
    ensures p <= q + comps ==> p <= q || q + [comps[0]] <= p
  {
    if p <= q + comps {
      assert |p| <= |q| ==> p <= q;
      assert |p| > |q| ==> q + [comps[0]] <= p;
    }
  }
}
