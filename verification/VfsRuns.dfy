/**
 Runs of vfs_mkdir and mount_file_system, against the plainest model of a file system: a map
 from paths to kinds.
 */
module VfsRuns {
  import opened Common
  import opened VfsPath
  import opened Vfs
  import opened VfsCalls

  type View = map<seq<string>, Kind>

  /** The path is new and one step below a directory. */
  predicate CanMake(v: View, p: seq<string>) {
    p != [] && p !in v && p[..|p| - 1] in v && v[p[..|p| - 1]].Dir?
  }

  predicate NoChild(v: View, p: seq<string>) {
    forall q :: q in v ==> !(p <= q && |q| == |p| + 1)
  }

  function AbsMount(v: View, p: seq<string>, fs: FileSystem): View {
    if p in v && v[p].Dir? && NoChild(v, p) then v[p := Mounted(fs)] else v
  }

  /** A call, with what malloc's block held. */
  datatype Op = Mkdir(path: string, before: string) | Mount(path: string, before: string, fs: FileSystem)

  /** A relative path of one component, which vfs_mkdir clips if it is missing. */
  predicate Clips(path: string) { path != "" && path[0] != SEP && |PathComps(path)| == 1 }

  /** Where vfs_mkdir makes its directory. */
  function MadeAt(path: string): seq<string> {
    var p := PathComps(path);
    if Clips(path) && p[0] != "" then [p[0][1..]] else p
  }

  function Act(v: View, op: Op): View {
    match op
    case Mkdir(path, _) => if CanMake(v, PathComps(path)) then v[MadeAt(path) := Dir] else v
    case Mount(path, _, fs) => if Word(path) == "" then v else AbsMount(v, PathComps(path), fs)
  }

  /**
   What callers must see to: behind the terminator of a path that exists lies another one (GetIff),
   and a clipped name is neither empty nor taken (MkdirKeepsIff).
   */
  predicate Fit(v: View, op: Op) {
    && CString(op.path) && |op.before| > |op.path|
    && (PathComps(op.path) in v && PathComps(op.path) != [] ==> Settled(op.path, op.before))
    && (op.Mkdir? && Clips(op.path) && CanMake(v, PathComps(op.path)) ==>
          MadeAt(op.path) != [""] && MadeAt(op.path) !in v)
  }

  function Play(v: View, ops: seq<Op>): View
    decreases |ops|
  {
    if ops == [] then v else Play(Act(v, ops[0]), ops[1..])
  }

  datatype Sys = Sys(st: Store, next: nat)

  /** What FileTree.Mkdir and FileTree.MountFileSystem make of the state. */
  function Step(sys: Sys, op: Op): Sys {
    if |op.before| <= |op.path| then sys
    else
      match op
      case Mkdir(path, before) =>
        var m := MkdirOf(sys.st, path, before);
        if m.Some? && m.value.0 in sys.st.nodes
        then Sys(WithChild(sys.st, m.value.0, m.value.1, sys.next), sys.next + 1)
        else sys
      case Mount(path, before, fs) =>
        var m := MountOf(sys.st, path, before);
        if m.Some? && m.value in sys.st.nodes then sys.(st := WithMount(sys.st, m.value, fs)) else sys
  }

  function Run(sys: Sys, ops: seq<Op>): Sys
    decreases |ops|
  {
    if ops == [] then sys else Run(Step(sys, ops[0]), ops[1..])
  }

  ghost predicate Good(sys: Sys, t: Tree) {
    WellFormed(sys.st, t) && forall n :: n in sys.st.nodes ==> n < sys.next
  }

  /** The kinds at the paths of a tree. */
  ghost function ViewOf(st: Store, t: Tree): View {
    map p | p in t.at && t.at[p] in st.nodes :: st.nodes[t.at[p]].kind
  }

  lemma ViewIs(st: Store, t: Tree, p: seq<string>)
    requires WellFormed(st, t)
    ensures p in ViewOf(st, t) <==> p in t.at
    ensures p in t.at ==> t.at[p] in st.nodes && ViewOf(st, t)[p] == st.nodes[t.at[p]].kind
  {}

  // ---------------------------------------------------------------- one step

  lemma {:induction false} LookupExtend(st: Store, n: nat, comps: seq<string>, x: string)
    ensures Lookup(st, n, comps + [x]) ==
            match Lookup(st, n, comps)
            case AtNode(m) => Lookup(st, m, [x])
            case Missing(m, rest) => Missing(m, rest + [x])
            case InMount(m, rest) => InMount(m, rest + [x])
            case NoDir => NoDir
    decreases |comps|
  {
    hide FindChild;
    if comps == [] {
      assert comps + [x] == [x];
    } else {
      assert (comps + [x])[0] == comps[0] && (comps + [x])[1..] == comps[1..] + [x];
      if n in st.nodes && st.nodes[n].kind.Dir? {
        var c := FindChild(st, st.nodes[n].children, comps[0]);
        if c.Some? { LookupExtend(st, c.value, comps[1..], x); }
      }
    }
  }

  lemma RootLook(st: Store, t: Tree, p: seq<string>)
    requires WellFormed(st, t)
    ensures var l := Lookup(st, st.root, p);
            && (l.AtNode? <==> p in t.at) && (l.AtNode? ==> l.n == t.at[p])
            && (l.Missing? || l.InMount? ==> l.rest != [])
  {
    hide WellFormed, Lookup;
    RootPlace(st, t);
    LookupSplits(st, t, st.root, p);
    assert [] + p == p;
  }

  /** One component is missing, exactly where the parent is a directory that lacks the name. */
  lemma LastMissing(st: Store, t: Tree, p: seq<string>)
    requires WellFormed(st, t)
    ensures var l := Lookup(st, st.root, p);
            l.Missing? && |l.rest| == 1 <==>
            p != [] && p !in t.at && p[..|p| - 1] in t.at && t.at[p[..|p| - 1]] in st.nodes && st.nodes[t.at[p[..|p| - 1]]].kind.Dir?
    ensures var l := Lookup(st, st.root, p);
            l.Missing? && |l.rest| == 1 ==> l.n == t.at[p[..|p| - 1]] && l.rest == [p[|p| - 1]]
  {
    hide WellFormed, FindChild;
    RootLook(st, t, p);
    if p != [] {
      var front, x := p[..|p| - 1], p[|p| - 1];
      assert p == front + [x];
      RootLook(st, t, front);
      LookupExtend(st, st.root, front, x);
    }
  }

  /** The path is there, or not, for lookup and model alike. */
  lemma FitLook(st: Store, t: Tree, op: Op)
    requires WellFormed(st, t) && Fit(ViewOf(st, t), op)
    ensures var l := Lookup(st, st.root, PathComps(op.path));
            l.AtNode? ==> Settled(op.path, op.before) || PathComps(op.path) == []
  {
    hide WellFormed, Lookup, PathComps, Settled, ViewOf, CanMake, Clips, MadeAt;
    RootLook(st, t, PathComps(op.path));
    ViewIs(st, t, PathComps(op.path));
  }

  /** vfs_mkdir makes a directory exactly when the parent is one and the path is new. */
  lemma MkdirOfFit(st: Store, t: Tree, path: string, before: string)
    requires WellFormed(st, t) && Fit(ViewOf(st, t), Op.Mkdir(path, before))
    ensures var p, v := PathComps(path), ViewOf(st, t);
            MkdirOf(st, path, before) ==
            if CanMake(v, p) then Some((t.at[p[..|p| - 1]], MadeAt(path)[|p| - 1])) else None
    ensures |MadeAt(path)| == |PathComps(path)|
  {
    hide WellFormed, FindChild, Buffer, Get, Settled, Lookup, MkdirOf, PathComps, Word, ViewOf, GoodName;
    var p, v := PathComps(path), ViewOf(st, t);
    BlankComps(path);
    RootLook(st, t, p);
    LastMissing(st, t, p);
    ViewIs(st, t, p);
    if p != [] {
      ViewIs(st, t, p[..|p| - 1]);
    }
    if path == "" {
      EmptyMkdir(st, before);
    } else {
      FitLook(st, t, Op.Mkdir(path, before));
      MkdirOfIs(st, path, before);
      if Lookup(st, st.root, p).Missing? {
        TargetGood(st, t, path);
        NotEmptyName(Lookup(st, st.root, p).rest[0]);
      }
    }
  }

  lemma BlankComps(path: string)
    ensures Word(path) == "" ==> PathComps(path) == []
    ensures path == "" ==> Word(path) == ""
  {}

  lemma EmptyMkdir(st: Store, before: string)
    requires |before| > 0
    ensures MkdirOf(st, "", before) == None && MountOf(st, "", before) == None
  {}

  lemma NotEmptyName(name: string)
    requires GoodName(name)
    ensures name != ""
  {}

  lemma NoChildIff(st: Store, t: Tree, p: seq<string>)
    requires WellFormed(st, t) && p in t.at
    ensures t.at[p] in st.nodes && (NoChild(ViewOf(st, t), p) <==> st.nodes[t.at[p]].children == [])
  {
    hide Inverse, Parented, ChildOf;
    PlaceOf(st, t, p);
    var n, v := t.at[p], ViewOf(st, t);
    if st.nodes[n].children != [] {
      var c := st.nodes[n].children[0];
      ChildPlace(st, t, n, c);
      ViewIs(st, t, t.place[c]);
    } else {
      forall q | q in v ensures !(p <= q && |q| == |p| + 1) {
        ViewIs(st, t, q);
        EmptyParent(st, t, p, q);
      }
    }
  }

  lemma ChildPlace(st: Store, t: Tree, n: nat, c: nat)
    requires WellFormed(st, t) && n in st.nodes && c in st.nodes[n].children
    ensures n in t.place && c in t.place && t.place[c] in t.at && t.place[n] <= t.place[c] && |t.place[c]| == |t.place[n]| + 1
  {
    assert ChildOf(st, t, n, c);
  }

  lemma EmptyParent(st: Store, t: Tree, p: seq<string>, q: seq<string>)
    requires WellFormed(st, t) && p in t.at && t.at[p] in st.nodes && st.nodes[t.at[p]].children == [] && q in t.at
    ensures !(p <= q && |q| == |p| + 1)
  {
    hide WellFormed;
    PlaceOf(st, t, p);
    if p <= q && |q| == |p| + 1 {
      assert q == p + [q[|p|]];
      EmptyBelow(st, t, t.at[p], q[|p|]);
    }
  }

  /** mount_file_system mounts exactly at an existing empty directory. */
  lemma MountOfFit(st: Store, t: Tree, path: string, before: string, fs: FileSystem)
    requires WellFormed(st, t) && Fit(ViewOf(st, t), Op.Mount(path, before, fs))
    ensures var p, v := PathComps(path), ViewOf(st, t);
            MountOf(st, path, before) ==
            if Word(path) != "" && p in v && v[p].Dir? && NoChild(v, p) then Some(t.at[p]) else None
  {
    hide WellFormed, FindChild, Buffer, Get, Settled, Lookup, PathComps, Word, ViewOf, NoChild, RestOf, Fit;
    var p := PathComps(path);
    BlankComps(path);
    FitSize(ViewOf(st, t), Op.Mount(path, before, fs));
    if path == "" {
      EmptyMkdir(st, before);
    } else {
      FitLook(st, t, Op.Mount(path, before, fs));
      GetIsLookup(st, path, before);
      RootLook(st, t, p);
      ViewIs(st, t, p);
      if p in t.at {
        NoChildIff(st, t, p);
      } else if Word(path) != "" && !Lookup(st, st.root, p).NoDir? {
        RestSome(path, Get(st, path, before).rest, Lookup(st, st.root, p).rest);
      }
    }
  }

  lemma FitSize(v: View, op: Op)
    requires Fit(v, op)
    ensures CString(op.path) && |op.before| > |op.path|
  {}

  /** The tree after a step. */
  ghost function NextTree(sys: Sys, t: Tree, op: Op): Tree {
    if op.Mkdir? && CanMake(ViewOf(sys.st, t), PathComps(op.path))
    then TreeWith(t, MadeAt(op.path), sys.next) else t
  }

  lemma StepRefines(sys: Sys, t: Tree, op: Op)
    requires Good(sys, t) && Fit(ViewOf(sys.st, t), op)
    ensures Good(Step(sys, op), NextTree(sys, t, op))
    ensures ViewOf(Step(sys, op).st, NextTree(sys, t, op)) == Act(ViewOf(sys.st, t), op)
  {
    match op
    case Mkdir(path, before) => MkdirRefines(sys, t, path, before);
    case Mount(path, before, fs) => MountRefines(sys, t, path, before, fs);
  }

  lemma MkdirRefines(sys: Sys, t: Tree, path: string, before: string)
    requires Good(sys, t) && Fit(ViewOf(sys.st, t), Op.Mkdir(path, before))
    ensures var op := Op.Mkdir(path, before);
            && Good(Step(sys, op), NextTree(sys, t, op))
            && ViewOf(Step(sys, op).st, NextTree(sys, t, op)) == Act(ViewOf(sys.st, t), op)
  {
    hide WellFormed, MkdirOf, MountOf, Settled, PathComps, ViewOf, GoodName, MadeAt, Fit;
    var p, v := PathComps(path), ViewOf(sys.st, t);
    FitSize(v, Op.Mkdir(path, before));
    MkdirOfFit(sys.st, t, path, before);
    if CanMake(v, p) {
      var front, x := p[..|p| - 1], MadeAt(path)[|p| - 1];
      ViewIs(sys.st, t, front);
      ViewIs(sys.st, t, MadeAt(path));
      PlaceOf(sys.st, t, front);
      MadeGood(v, path, before);
      WithChildWellFormed(sys.st, t, t.at[front], x, sys.next);
      ViewWithChild(sys.st, t, t.at[front], x, sys.next);
    }
  }

  /** The new directory is one step below the parent, under a good name that is not taken. */
  lemma MadeGood(v: View, path: string, before: string)
    requires Fit(v, Op.Mkdir(path, before)) && CanMake(v, PathComps(path)) && |MadeAt(path)| == |PathComps(path)|
    ensures var p := PathComps(path);
            && MadeAt(path) == p[..|p| - 1] + [MadeAt(path)[|p| - 1]]
            && GoodName(MadeAt(path)[|p| - 1]) && MadeAt(path) !in v
  {
    hide PathComps, Settled;
    var p := PathComps(path);
    CompsGood(path, p[|p| - 1]);
    if Clips(path) {
      TailGood(p[0]);
    }
  }

  lemma ViewWithChild(st: Store, t: Tree, n: nat, x: string, id: nat)
    requires WellFormed(st, t) && n in st.nodes && n in t.place && id !in st.nodes
    ensures ViewOf(WithChild(st, n, x, id), TreeWith(t, t.place[n] + [x], id)) == ViewOf(st, t)[t.place[n] + [x] := Dir]
  {
    hide Parented, ChildOf;
    var v, v' := ViewOf(st, t)[t.place[n] + [x] := Dir], ViewOf(WithChild(st, n, x, id), TreeWith(t, t.place[n] + [x], id));
    assert v.Keys == v'.Keys;
  }

  lemma MountRefines(sys: Sys, t: Tree, path: string, before: string, fs: FileSystem)
    requires Good(sys, t) && Fit(ViewOf(sys.st, t), Op.Mount(path, before, fs))
    ensures var op := Op.Mount(path, before, fs);
            && Good(Step(sys, op), t)
            && ViewOf(Step(sys, op).st, t) == Act(ViewOf(sys.st, t), op)
  {
    hide WellFormed, MkdirOf, MountOf, Settled, PathComps, ViewOf, NoChild, Word, Fit;
    var p, v := PathComps(path), ViewOf(sys.st, t);
    FitSize(v, Op.Mount(path, before, fs));
    MountOfFit(sys.st, t, path, before, fs);
    ViewIs(sys.st, t, p);
    if Word(path) != "" && p in v && v[p].Dir? && NoChild(v, p) {
      NoChildIff(sys.st, t, p);
      WithMountWellFormed(sys.st, t, t.at[p], fs);
      ViewWithMount(sys.st, t, p, fs);
    }
  }

  lemma ViewWithMount(st: Store, t: Tree, p: seq<string>, fs: FileSystem)
    requires WellFormed(st, t) && p in t.at && t.at[p] in st.nodes
    ensures ViewOf(WithMount(st, t.at[p], fs), t) == ViewOf(st, t)[p := Mounted(fs)]
  {
    hide Parented, ChildOf;
    var v, v' := ViewOf(st, t)[p := Mounted(fs)], ViewOf(WithMount(st, t.at[p], fs), t);
    assert v.Keys == v'.Keys;
  }

  // ---------------------------------------------------------------- runs

  predicate FitRun(v: View, ops: seq<Op>)
    decreases |ops|
  {
    ops == [] || (Fit(v, ops[0]) && FitRun(Act(v, ops[0]), ops[1..]))
  }

  ghost function RunTree(sys: Sys, t: Tree, ops: seq<Op>): Tree
    decreases |ops|
  {
    if ops == [] then t else RunTree(Step(sys, ops[0]), NextTree(sys, t, ops[0]), ops[1..])
  }

  /** Any run of fit calls keeps the tree and does to it what the plain model does. */
  lemma {:induction false} RunRefines(sys: Sys, t: Tree, ops: seq<Op>)
    requires Good(sys, t) && FitRun(ViewOf(sys.st, t), ops)
    ensures Good(Run(sys, ops), RunTree(sys, t, ops))
    ensures ViewOf(Run(sys, ops).st, RunTree(sys, t, ops)) == Play(ViewOf(sys.st, t), ops)
    decreases |ops|
  {
    hide Good, Fit, Step, NextTree, ViewOf, Act;
    if ops != [] {
      StepRefines(sys, t, ops[0]);
      RunRefines(Step(sys, ops[0]), NextTree(sys, t, ops[0]), ops[1..]);
    }
  }

  const START: Sys := Sys(EmptyStore(), 1)

  /** From init_vfs, a path is found after a run exactly when the plain model holds it. */
  lemma FoundAfterRun(ops: seq<Op>, path: string, before: string)
    requires FitRun(map[[] := Dir], ops)
    requires CString(path) && Word(path) != "" && |before| > |path| && Settled(path, before)
    ensures var f, v := Get(Run(START, ops).st, path, before), Play(map[[] := Dir], ops);
            && (f.node.Some? && f.rest.None? <==> PathComps(path) in v)
            && (f.status == ContinuesInFileSystem ==> PathComps(path) !in v)
  {
    hide WellFormed, Buffer, Get, Settled, Lookup, PathComps, Word, ViewOf, RestOf, FindChild, Run, Play, RunTree, FitRun;
    var t := Tree(map[[] := 0], map[0 := []]);
    StartGood(t);
    RunRefines(START, t, ops);
    var st, t' := Run(START, ops).st, RunTree(START, t, ops);
    WordNotEmpty(path);
    GetIsLookup(st, path, before);
    RootLook(st, t', PathComps(path));
    ViewIs(st, t', PathComps(path));
    var l := Lookup(st, st.root, PathComps(path));
    if l.Missing? || l.InMount? {
      RestSome(path, Get(st, path, before).rest, l.rest);
    }
  }

  lemma StartGood(t: Tree)
    requires t == Tree(map[[] := 0], map[0 := []])
    ensures Good(START, t) && ViewOf(START.st, t) == map[[] := Dir]
  {
    assert ViewOf(START.st, t).Keys == {[]};
  }
}
