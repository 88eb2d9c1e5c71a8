/**
 Path strings: the normaliser the file system runs on every path, and the components a path
 names.
 */
module VfsPath {
  import opened Common

  const SEP := '/'

  // ---------------------------------------------------------------- preprocess_path

  /** The copying loop: stops at white space, and copies a separator only after something else. */
  function Collapse(s: string, lastWasSlash: bool): string {
    if s == "" || IsSpace(s[0]) then ""
    else if s[0] == SEP then (if lastWasSlash then "" else [SEP]) + Collapse(s[1..], true)
    else [s[0]] + Collapse(s[1..], false)
  }

  /** The second loop: trailing separators go, but a first character stays. */
  function Strip(s: string): string {
    if |s| > 1 && s[|s| - 1] == SEP then Strip(s[..|s| - 1]) else s
  }

  function Normal(s: string): string { Strip(Collapse(s, false)) }

  function Nuls(n: nat): string { seq(n, _ => NUL) }

  /** The block preprocess_path leaves behind: the normal path, its terminators, and what was there before. */
  function Buffer(original: string, before: string): string
    requires |before| > |original|
  {
    CollapseShorter(original, false);
    StripShorter(Collapse(original, false));
    var end := |Collapse(original, false)| + 1;
    Normal(original) + Nuls(end - |Normal(original)|) + before[end..]
  }

  lemma {:induction false} CollapseShorter(s: string, last: bool)
    ensures |Collapse(s, last)| <= |s|
    decreases |s|
  {
    if s != "" { CollapseShorter(s[1..], s[0] == SEP); }
  }

  lemma {:induction false} StripShorter(s: string)
    ensures Strip(s) <= s
    decreases |s|
  {
    if |s| > 1 && s[|s| - 1] == SEP { StripShorter(s[..|s| - 1]); }
  }

  /** preprocess_path on a path that is not empty, in the block it allocates. */
  method Preprocess(original: string, block: array<char>)
    requires block.Length > |original|
    modifies block
    ensures block[..] == Buffer(original, old(block[..]))
  {
    hide Collapse, Strip, Nuls;
    CollapseShorter(original, false);
    ghost var was := block[..];
    var current := CopyCollapsed(original, block);
    SplitAt(Collapse(original, false), was[current..], block[..]);
    StripTrailing(block, current);
  }

  /** A block whose front has been overwritten. */
  function Over(text: string, was: string): string
    requires |text| <= |was|
  {
    text + was[|text|..]
  }

  lemma OverPut(text: string, was: string, c: char)
    requires |text| < |was|
    ensures |Over(text, was)| == |was| && Over("", was) == was
    ensures Over(text, was)[|text| := c] == Over(text + [c], was)
  {}

  /** The body of the copying loop: a separator only if the last character was none. */
  method CopyChar(block: array<char>, current: nat, c: char, lastWasSlash: bool) returns (next: nat)
    requires current < block.Length
    modifies block
    ensures next == if c == SEP && lastWasSlash then current else current + 1
    ensures block[..] == if c == SEP && lastWasSlash then old(block[..]) else old(block[..])[current := c]
  {
    next := current;
    if c == SEP {
      if !lastWasSlash {
        block[current] := SEP;
        next := current + 1;
      }
    } else {
      block[current] := c;
      next := current + 1;
    }
  }

  method CopyCollapsed(original: string, block: array<char>) returns (current: nat)
    requires block.Length > |original|
    modifies block
    ensures current == |Collapse(original, false)| < block.Length
    ensures block[..] == Over(Collapse(original, false), old(block[..]))
  {
    hide Collapse, IsSpace, Over;
    current := 0;
    var i, lastWasSlash := 0, false;
    ghost var was, text := block[..], "";
    assert original[0..] == original;
    OverPut("", was, SEP);
    while i < |original| && !IsSpace(original[i])
      invariant 0 <= |text| == current <= i <= |original|
      invariant block[..] == Over(text, was)
      invariant Collapse(original, false) == text + Collapse(original[i..], lastWasSlash)
      decreases |original| - i
    {
      CopyStep(text, original, i, lastWasSlash);
      OverPut(text, was, original[i]);
      current := CopyChar(block, current, original[i], lastWasSlash);
      text := if original[i] == SEP && lastWasSlash then text else text + [original[i]];
      lastWasSlash := original[i] == SEP;
      i := i + 1;
    }
    CollapseEnd(original, i, lastWasSlash);
    assert text + "" == text;
  }

  method StripTrailing(block: array<char>, length: nat)
    requires length < block.Length
    modifies block
    ensures Strip(old(block[..])[..length]) <= old(block[..])[..length]
    ensures var kept := Strip(old(block[..])[..length]);
            block[..] == kept + Nuls(length + 1 - |kept|) + old(block[..])[length + 1..]
  {
    hide Strip, Nuls;
    ghost var text, tail := block[..][..length], block[..][length + 1..];
    StripShorter(text);
    var current := length;
    block[current] := NUL;
    NulsNext(0);
    assert text[..length] == text;
    assert block[..] == text[..current] + Nuls(length + 1 - current) + tail;
    while current > 1 && block[current - 1] == SEP
      invariant 0 <= current <= length
      invariant Strip(text[..current]) == Strip(text)
      invariant block[..] == text[..current] + Nuls(length + 1 - current) + tail
      decreases current
    {
      StripStep(text[..current]);
      NulsNext(length + 1 - current);
      assert block[current - 1] == block[..][current - 1] == text[..current][current - 1];
      assert text[..current][..current - 1] == text[..current - 1];
      current := current - 1;
      CutAt(block[..], text, current, Nuls(length - current), tail);
      block[current] := NUL;
      assert [NUL] + Nuls(length - current) == Nuls(length + 1 - current);
    }
    assert current > 0 ==> block[current - 1] == block[..][current - 1] == text[..current][current - 1];
    StripStep(text[..current]);
  }

  lemma SplitAt(a: string, c: string, b: string)
    requires b == a + c && c != ""
    ensures b[..|a|] == a && b[|a| + 1..] == c[1..]
  {}

  lemma CutAt(b: string, text: string, i: nat, nuls: string, tail: string)
    requires i < |text| && b == text[..i + 1] + nuls + tail
    ensures b[i := NUL] == text[..i] + ([NUL] + nuls) + tail
  {}

  lemma NulsNext(n: nat)
    ensures Nuls(0) == "" && Nuls(n + 1) == [NUL] + Nuls(n)
  {}

  lemma CopyStep(text: string, s: string, i: nat, last: bool)
    requires i < |s| && !IsSpace(s[i])
    ensures text + Collapse(s[i..], last) ==
            (if s[i] == SEP && last then text else text + [s[i]]) + Collapse(s[i + 1..], s[i] == SEP)
  {
    assert s[i..][1..] == s[i + 1..];
    assert text + ([s[i]] + Collapse(s[i + 1..], s[i] == SEP)) == text + [s[i]] + Collapse(s[i + 1..], s[i] == SEP);
  }

  lemma CollapseEnd(s: string, i: nat, last: bool)
    requires i <= |s| && (i == |s| || IsSpace(s[i]))
    ensures Collapse(s[i..], last) == ""
  {}

  lemma StripStep(s: string)
    ensures Strip(s) == if |s| > 1 && s[|s| - 1] == SEP then Strip(s[..|s| - 1]) else s
  {}

  // ---------------------------------------------------------------- components

  /** The path before its first white space. */
  function Word(s: string): string {
    if s == "" || IsSpace(s[0]) then "" else [s[0]] + Word(s[1..])
  }

  function Closed(cur: string): seq<string> { if cur == "" then [] else [cur] }

  /** The non-empty pieces between separators; `cur` is the piece being read. */
  function Pieces(s: string, cur: string): seq<string>
    decreases |s|
  {
    if s == "" then Closed(cur)
    else if s[0] == '/' then Closed(cur) + Pieces(s[1..], "")
    else Pieces(s[1..], cur + [s[0]])
  }

  function Components(s: string): seq<string> { Pieces(s, "") }

  /** No white space, no double separator, and no trailing one except in "/" itself. */
  predicate Canonical(s: string) {
    && (forall i :: 0 <= i < |s| ==> !IsSpace(s[i]))
    && (forall i :: 0 <= i < |s| - 1 ==> !(s[i] == '/' && s[i + 1] == '/'))
    && (|s| > 1 ==> s[|s| - 1] != '/')
  }

  // ---------------------------------------------------------------- the normaliser is right

  predicate Collapsed(s: string, lastWasSlash: bool) {
    && (forall i :: 0 <= i < |s| ==> !IsSpace(s[i]))
    && (forall i :: 0 <= i < |s| - 1 ==> !(s[i] == SEP && s[i + 1] == SEP))
    && (lastWasSlash && s != "" ==> s[0] != SEP)
  }

  lemma {:induction false} CollapseCollapsed(s: string, last: bool)
    ensures Collapsed(Collapse(s, last), last)
    decreases |s|
  {
    if s != "" && !IsSpace(s[0]) {
      CollapseCollapsed(s[1..], s[0] == SEP);
    }
  }

  lemma {:induction false} StripCanonical(s: string)
    requires Collapsed(s, false)
    ensures Canonical(Strip(s))
    decreases |s|
  {
    if |s| > 1 && s[|s| - 1] == SEP {
      StripCanonical(s[..|s| - 1]);
    }
  }

  lemma {:induction false} CollapseFixed(s: string, last: bool)
    requires Collapsed(s, last)
    ensures Collapse(s, last) == s
    decreases |s|
  {
    if s != "" {
      CollapseFixed(s[1..], s[0] == SEP);
    }
  }

  /** The normaliser's results are canonical, and it leaves canonical paths alone. */
  lemma NormalIsCanonical(s: string)
    ensures Canonical(Normal(s)) && Normal(Normal(s)) == Normal(s)
    ensures Canonical(s) ==> Normal(s) == s
  {
    CollapseCollapsed(s, false);
    StripCanonical(Collapse(s, false));
    CollapseFixed(Normal(s), false);
    if Canonical(s) {
      CollapseFixed(s, false);
    }
  }

  lemma {:induction false} CollapsePieces(s: string, last: bool, cur: string)
    requires last ==> cur == ""
    ensures Pieces(Collapse(s, last), cur) == Pieces(Word(s), cur)
    decreases |s|
  {
    if s != "" && !IsSpace(s[0]) {
      var rest := Collapse(s[1..], s[0] == SEP);
      assert Word(s)[1..] == Word(s[1..]);
      if s[0] == SEP {
        CollapsePieces(s[1..], true, "");
        assert if last then Collapse(s, last) == rest else Collapse(s, last)[1..] == rest;
      } else {
        CollapsePieces(s[1..], false, cur + [s[0]]);
        assert Collapse(s, last)[1..] == rest;
      }
    }
  }

  lemma {:induction false} TrailingPieces(s: string, cur: string)
    ensures Pieces(s + [SEP], cur) == Pieces(s, cur)
    decreases |s|
  {
    if s == "" {
      assert (s + [SEP])[1..] == "";
    } else {
      assert (s + [SEP])[1..] == s[1..] + [SEP];
      TrailingPieces(s[1..], if s[0] == SEP then "" else cur + [s[0]]);
    }
  }

  lemma {:induction false} StripPieces(s: string)
    ensures Components(Strip(s)) == Components(s)
    decreases |s|
  {
    if |s| > 1 && s[|s| - 1] == SEP {
      var t := s[..|s| - 1];
      assert s == t + [SEP];
      TrailingPieces(t, "");
      StripPieces(t);
    }
  }

  /** Normalising changes no component, and whether a path is absolute. */
  lemma NormalKeepsMeaning(s: string)
    ensures Components(Normal(s)) == Components(Word(s))
    ensures Normal(s) != "" <==> Word(s) != ""
    ensures Normal(s) != "" ==> Normal(s)[0] == s[0]
  {
    CollapsePieces(s, false, "");
    StripPieces(Collapse(s, false));
    StripFirst(Collapse(s, false));
  }

  lemma {:induction false} StripFirst(s: string)
    ensures s != "" ==> Strip(s) != "" && Strip(s)[0] == s[0]
    ensures s == "" ==> Strip(s) == ""
    decreases |s|
  {
    if |s| > 1 && s[|s| - 1] == SEP {
      StripFirst(s[..|s| - 1]);
    }
  }

  // ---------------------------------------------------------------- walking a path with a cursor

  /** strchr(s + p, '/'), or the end of the string. */
  function NextSep(s: string, p: nat): (k: nat)
    requires p <= |s|
    ensures p <= k <= |s| && (k < |s| ==> s[k] == SEP)
    ensures forall i :: p <= i < k ==> s[i] != SEP
    decreases |s| - p
  {
    if p == |s| || s[p] == SEP then p else NextSep(s, p + 1)
  }

  lemma {:induction false} PieceRead(s: string, p: nat, cur: string)
    requires p <= |s|
    ensures var k := NextSep(s, p);
            Pieces(s[p..], cur) == Pieces(s[k..], cur + s[p..k])
    decreases |s| - p
  {
    if p < |s| && s[p] != SEP {
      PieceRead(s, p + 1, cur + [s[p]]);
      var k := NextSep(s, p);
      assert s[p..][1..] == s[p + 1..];
      assert cur + [s[p]] + s[p + 1..k] == cur + s[p..k];
    } else {
      assert cur + s[p..p] == cur;
    }
  }

  /** Where a component starts: after a separator, or at the start of a path without one. */
  predicate AtPiece(s: string, p: nat) {
    p < |s| && s[p] != SEP
  }

  /** The component at the cursor, and what is left behind its separator. */
  lemma PieceAt(s: string, p: nat)
    requires AtPiece(s, p)
    ensures var k := NextSep(s, p);
            && k > p && Components(s[p..]) == [s[p..k]] + (if k < |s| then Components(s[k + 1..]) else [])
            && (k < |s| ==> Components(s[k..]) == Components(s[k + 1..]))
  {
    var k := NextSep(s, p);
    PieceRead(s, p, "");
    assert "" + s[p..k] == s[p..k];
    if k < |s| {
      assert s[k..][1..] == s[k + 1..];
    }
  }

  /** A canonical path has a component after every separator but that of "/". */
  lemma CanonicalNext(s: string, k: nat)
    requires Canonical(s) && k < |s| && s[k] == SEP && |s| > 1
    ensures AtPiece(s, k + 1)
  {}

  /** What follows the cursor holds one component exactly when it has no separator. */
  lemma OnePiece(s: string, p: nat)
    requires Canonical(s) && AtPiece(s, p)
    ensures |Components(s[p..])| == 1 <==> SEP !in s[p..]
    ensures SEP !in s[p..] ==> Components(s[p..]) == [s[p..]]
  {
    hide Components, NextSep, Canonical;
    PieceAt(s, p);
    var k := NextSep(s, p);
    if k < |s| {
      CanonicalNext(s, k);
      PieceAt(s, k + 1);
      assert s[p..][k - p] == SEP;
    } else {
      assert s[p..k] == s[p..];
      assert forall i :: 0 <= i < |s[p..]| ==> s[p..][i] == s[p + i];
    }
  }
}
