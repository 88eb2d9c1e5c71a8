/**
 Numbers as text: itoa, which writes digits backwards and reverses them in place, and atoi,
 which reads them.
 */
module Itoa {
  import opened Common
  import Align

  const MIN_64 := -0x8000_0000_0000_0000
  const MAX_64 := 0x7fff_ffff_ffff_ffff

  predicate Radix(base: int) { 2 <= base <= 36 }

  // ---------------------------------------------------------------- digits

  function DigitChar(d: nat): char
    requires d < 36
  {
    if d > 9 then (d - 10 + 'a' as int) as char else (d + '0' as int) as char
  }

  /** The character of a digit is its entry among the figures and then the letters. */
  lemma DigitCharIs(d: nat)
    requires d < 36
    ensures DigitChar(d) == if d < 10 then "0123456789"[d] else "abcdefghijklmnopqrstuvwxyz"[d - 10]
  {
    if d < 10 { Figure(d); } else { Letter(d - 10); }
  }

  lemma Figure(d: nat)
    requires d < 10
    ensures "0123456789"[d] == (d + '0' as int) as char
  {}

  lemma Letter(d: nat)
    requires d < 26
    ensures "abcdefghijklmnopqrstuvwxyz"[d] == (d + 'a' as int) as char
  {}

  predicate IsDigit(c: char, base: int) {
    ('0' <= c <= '9' && c as int - '0' as int < base) || ('a' <= c <= 'z' && c as int - 'a' as int + 10 < base)
  }

  function DigitValue(c: char): int {
    if '0' <= c <= '9' then c as int - '0' as int else c as int - 'a' as int + 10
  }

  /** The digits of m, least significant first. */
  function Backwards(m: nat, base: int): string
    requires Radix(base)
    decreases m
  {
    if m == 0 then "" else
      DivSmaller(m, base);
      [DigitChar(m % base)] + Backwards(m / base, base)
  }

  lemma DivSmaller(m: nat, base: int)
    requires Radix(base) && m > 0
    ensures 0 <= m / base < m && 0 <= m % base < base
    ensures m / base * base + m % base == m
  {
    Doubles(m / base, base);
  }

  lemma Doubles(q: nat, base: int)
    requires base >= 2
    ensures q * base >= q + q
  {
    assert q * base == q + q + q * (base - 2);
  }

  function Reversed(s: string): (r: string)
    ensures |r| == |s|
  {
    if s == "" then "" else Reversed(s[1..]) + [s[0]]
  }

  function Sign(n: int, base: int): string { if n < 0 && base == 10 then "-" else "" }

  /** The text itoa writes. */
  function Spelled(n: int, base: int): string
    requires Radix(base)
  {
    if n == 0 then "0"
    else Sign(n, base) + Reversed(Backwards(Abs(n), base))
  }

  // ---------------------------------------------------------------- what text denotes

  ghost predicate AllDigits(t: string, base: int) { forall i :: 0 <= i < |t| ==> IsDigit(t[i], base) }

  /** The number written by digits, most significant first. */
  function Value(t: string, base: int): int {
    if t == "" then 0 else Value(t[..|t| - 1], base) * base + DigitValue(t[|t| - 1])
  }

  lemma DigitRoundTrip(d: nat, base: int)
    requires d < base && Radix(base)
    ensures IsDigit(DigitChar(d), base) && DigitValue(DigitChar(d)) == d
    ensures DigitChar(d) == '0' ==> d == 0
  {}

  lemma CharRoundTrip(c: char, base: int)
    requires IsDigit(c, base) && Radix(base)
    ensures 0 <= DigitValue(c) < base && DigitChar(DigitValue(c)) == c
    ensures DigitValue(c) == 0 <==> c == '0'
  {}

  /** A numeral: digits, at least one, no leading zero. */
  ghost predicate Numeral(t: string, base: int) { t != "" && AllDigits(t, base) && t[0] != '0' }

  /** The reversed digits are the numeral of m. */
  lemma {:induction false} ReversedDenotes(m: nat, base: int)
    requires Radix(base)
    ensures var t := Reversed(Backwards(m, base)); AllDigits(t, base) && Value(t, base) == m
    ensures m > 0 ==> Numeral(Reversed(Backwards(m, base)), base)
    decreases m
  {
    hide Value, Backwards, Reversed, DigitChar, DigitValue, IsDigit;
    BackwardsStep(m, base);
    ReversedStep("");
    if m > 0 {
      DivSmaller(m, base);
      var q, r := m / base, m % base;
      ReversedDenotes(q, base);
      DigitRoundTrip(r, base);
      ReversedStep(Backwards(m, base));
      assert Backwards(m, base)[1..] == Backwards(q, base);
      ValueLast(Reversed(Backwards(q, base)), DigitChar(r), base);
      BackwardsStep(0, base);
      assert q == 0 ==> r == m;
    } else {
      ValueLast("", '0', base);
    }
  }

  lemma ReversedStep(s: string)
    ensures Reversed(s) == if s == "" then "" else Reversed(s[1..]) + [s[0]]
  {}

  lemma ValueLast(t: string, c: char, base: int)
    ensures Value("", base) == 0
    ensures Value(t + [c], base) == Value(t, base) * base + DigitValue(c)
  {
    assert (t + [c])[..|t|] == t;
  }

  /** Every numeral of m is those digits: numerals are unique. */
  lemma {:induction false} NumeralUnique(t: string, base: int)
    requires Radix(base) && AllDigits(t, base) && (t != "" ==> t[0] != '0')
    ensures Value(t, base) >= 0 && (t != "" ==> Value(t, base) > 0)
    ensures t == Reversed(Backwards(Value(t, base), base))
    decreases |t|
  {
    if t != "" {
      var high, c := t[..|t| - 1], t[|t| - 1];
      NumeralUnique(high, base);
      CharRoundTrip(c, base);
      var h, m := Value(high, base), Value(t, base);
      Carry(h, DigitValue(c), base);
      assert Backwards(m, base) == [c] + Backwards(h, base);
      assert Backwards(m, base)[1..] == Backwards(h, base);
      assert t == high + [c];
    }
  }

  lemma Carry(h: nat, d: nat, base: int)
    requires Radix(base) && d < base
    ensures h * base + d >= 0 && (h > 0 || d > 0 ==> h * base + d > 0)
    ensures (h * base + d) / base == h && (h * base + d) % base == d
  {
    Align.DivModUnique(h * base + d, base, h, d);
  }

  /** For a positive number, itoa's text is the one numeral that denotes it, and for a negative one too. */
  lemma SpelledIff(n: int, base: int, t: string)
    requires Radix(base) && n != 0
    ensures Numeral(t, base) && Value(t, base) == Abs(n) <==>
            Spelled(n, base) == Sign(n, base) + t
  {
    ReversedDenotes(Abs(n), base);
    if Numeral(t, base) {
      NumeralUnique(t, base);
    }
    var sign := Sign(n, base);
    assert (sign + t)[|sign|..] == t;
    assert Spelled(n, base)[|sign|..] == Reversed(Backwards(Abs(n), base));
  }

  // ---------------------------------------------------------------- itoa

  /** The loop that writes the digits of num from str[i] on. */
  method WriteDigits(n: int, str: array<char>, base: int, first: nat) returns (i: nat)
    requires Radix(base) && MIN_64 < n <= MAX_64
    requires first + |Backwards(Abs(n), base)| <= str.Length
    modifies str
    ensures i == first + |Backwards(Abs(n), base)|
    ensures str[..] == old(str[..first]) + Backwards(Abs(n), base) + old(str[i..])
  {
    hide Backwards, DigitChar;
    var num := n;
    i := first;
    ghost var all := Backwards(Abs(n), base);
    ghost var text := str[..];
    assert all[..0] == "";
    while num != 0
      invariant first <= i <= first + |all| <= str.Length
      invariant all[i - first..] == Backwards(Abs(num), base)
      invariant str[..] == text[..first] + all[..i - first] + text[i..]
      decreases Abs(num)
    {
      BackwardsStep(Abs(num), base);
      if num < 0 {
        num := num * -1;
      }
      var rem := num % base;
      assert all[i - first] == all[i - first..][0];
      assert all[i + 1 - first..] == all[i - first..][1..];
      WriteNext(text, all, first, i);
      str[i] := DigitChar(rem);
      i := i + 1;
      num := num / base;
    }
    BackwardsStep(0, base);
    assert all[..i - first] == all;
  }

  lemma BackwardsStep(m: nat, base: int)
    requires Radix(base)
    ensures m == 0 ==> Backwards(m, base) == ""
    ensures m > 0 ==> 0 <= m % base < 36 && 0 <= m / base < m &&
                      Backwards(m, base) == [DigitChar(m % base)] + Backwards(m / base, base)
  {
    if m > 0 { DivSmaller(m, base); }
  }

  lemma WriteNext(text: string, all: string, first: nat, i: nat)
    requires first <= i < first + |all| <= |text|
    ensures (text[..first] + all[..i - first] + text[i..])[i := all[i - first]] ==
            text[..first] + all[..i + 1 - first] + text[i + 1..]
  {}

  lemma {:induction false} ReversedAt(s: string, k: nat)
    requires k < |s|
    ensures Reversed(s)[k] == s[|s| - 1 - k]
    decreases |s|
  {
    if k < |s| - 1 { ReversedAt(s[1..], k); }
  }

  lemma ReversedIs(s: string, r: string)
    requires |r| == |s| && forall k :: 0 <= k < |s| ==> r[k] == s[|s| - 1 - k]
    ensures r == Reversed(s)
  {
    hide Reversed;
    forall k | 0 <= k < |s| ensures r[k] == Reversed(s)[k] { ReversedAt(s, k); }
  }

  function Turned(s: string, lo: nat, hi: nat): string
    requires lo <= hi <= |s|
  {
    s[..lo] + Reversed(s[lo..hi]) + s[hi..]
  }

  /** The second loop: reverses str[lo..hi] in place. */
  method ReverseRange(str: array<char>, lo: nat, hi: nat)
    requires lo <= hi <= str.Length
    modifies str
    ensures str[..] == Turned(old(str[..]), lo, hi)
  {
    hide Reversed;
    var start, end := lo, hi - 1;
    ghost var was := str[..];
    while start < end
      invariant lo <= start <= hi && start + end == lo + hi - 1
      invariant forall k :: 0 <= k < lo || hi <= k < str.Length ==> str[k] == was[k]
      invariant forall k :: lo <= k < start || end < k < hi ==> str[k] == was[lo + hi - 1 - k]
      invariant forall k :: start <= k <= end ==> str[k] == was[k]
      decreases end - start
    {
      var temp := str[start];
      str[start] := str[end];
      str[end] := temp;
      start := start + 1;
      end := end - 1;
    }
    RangeReversed(was, str[..], lo, hi);
  }

  lemma RangeReversed(was: string, now: string, lo: nat, hi: nat)
    requires lo <= hi <= |was| == |now|
    requires forall k :: 0 <= k < lo || hi <= k < |now| ==> now[k] == was[k]
    requires forall k :: lo <= k < hi ==> now[k] == was[lo + hi - 1 - k]
    ensures now == Turned(was, lo, hi)
  {
    hide Reversed;
    ReversedIs(was[lo..hi], now[lo..hi]);
    assert now == now[..lo] + now[lo..hi] + now[hi..];
    assert now[..lo] == was[..lo] && now[hi..] == was[hi..];
  }

  lemma BackwardsFirst(n: int, base: int)
    requires Radix(base) && n != 0
    ensures Backwards(Abs(n), base) != "" && Backwards(Abs(n), base)[0] != '-'
  {
    BackwardsStep(Abs(n), base);
  }

  /** itoa: the text of num and a terminator, and nothing behind it; or nothing for an invalid base. */
  method Itoa(num: int, str: array<char>, base: int) returns (ok: bool)
    requires MIN_64 < num <= MAX_64
    requires Radix(base) ==> str.Length > |Spelled(num, base)|
    modifies str
    ensures ok <==> 2 <= base <= 36
    ensures !ok ==> str[..] == old(str[..])
    ensures ok ==> str[..] == Spelled(num, base) + [NUL] + old(str[|Spelled(num, base)| + 1..])
  {
    hide Backwards, Reversed;
    if base < 2 || base > 36 { return false; }
    if num == 0 {
      str[0] := '0';
      str[1] := NUL;
      return true;
    }
    SpellNonZero(num, str, base);
    return true;
  }

  /** The sign, the digits backwards, and the terminator. */
  method WriteBackwards(num: int, str: array<char>, base: int) returns (i: nat)
    requires MIN_64 < num <= MAX_64 && Radix(base)
    requires str.Length > |Sign(num, base)| + |Backwards(Abs(num), base)|
    modifies str
    ensures i == |Sign(num, base)| + |Backwards(Abs(num), base)|
    ensures str[..] == Sign(num, base) + Backwards(Abs(num), base) + [NUL] + old(str[i + 1..])
  {
    hide Backwards;
    ghost var was := str[..];
    i := 0;
    if num < 0 && base == 10 {
      str[0] := '-';
      i := 1;
    }
    assert str[..] == Sign(num, base) + was[i..];
    Layout(was, Sign(num, base), Backwards(Abs(num), base));
    i := WriteDigits(num, str, base, i);
    Terminated(was, Sign(num, base), Backwards(Abs(num), base));
    str[i] := NUL;
  }

  /** The part of itoa behind the case of 0. */
  method SpellNonZero(num: int, str: array<char>, base: int)
    requires MIN_64 < num <= MAX_64 && num != 0 && Radix(base) && str.Length > |Spelled(num, base)|
    modifies str
    ensures str[..] == Spelled(num, base) + [NUL] + old(str[|Spelled(num, base)| + 1..])
  {
    hide Backwards, Reversed, Turned;
    BackwardsFirst(num, base);
    ghost var tail := str[|Spelled(num, base)| + 1..];
    var i := WriteBackwards(num, str, base);
    Regroup(Sign(num, base), Backwards(Abs(num), base), [NUL], tail);
    TurnsDigits(Sign(num, base), Backwards(Abs(num), base), [NUL] + tail);
    Regroup(Sign(num, base), Reversed(Backwards(Abs(num), base)), [NUL], tail);
    assert str[0] == str[..][0];
    var start := if str[0] == '-' then 1 else 0;
    ReverseRange(str, start, i);
  }

  lemma Regroup(a: string, b: string, c: string, d: string)
    ensures a + b + c + d == a + b + (c + d)
  {}

  lemma TurnsDigits(sign: string, digits: string, tail: string)
    ensures Turned(sign + digits + tail, |sign|, |sign| + |digits|) == sign + Reversed(digits) + tail
  {
    hide Reversed;
    Slices(sign, digits, tail);
  }

  lemma Slices(a: string, b: string, c: string)
    ensures (a + b + c)[..|a|] == a
    ensures (a + b + c)[|a|..|a| + |b|] == b
    ensures (a + b + c)[|a| + |b|..] == c
    ensures forall i :: |a| <= i < |a| + |b| ==> (a + b + c)[i] == b[i - |a|]
    ensures a != "" ==> (a + b + c)[0] == a[0]
    ensures c != "" ==> (a + b + c)[|a| + |b|] == c[0]
  {}

  lemma Layout(was: string, sign: string, digits: string)
    requires |sign| + |digits| <= |was|
    ensures var i := |sign| + |digits|;
            (sign + was[|sign|..])[..|sign|] == sign && (sign + was[|sign|..])[i..] == was[i..]
  {}

  lemma Terminated(was: string, sign: string, digits: string)
    requires |sign| + |digits| < |was|
    ensures var i := |sign| + |digits|;
            (sign + digits + was[i..])[i := NUL] == sign + digits + [NUL] + was[i + 1..]
  {}

  // ---------------------------------------------------------------- atoi

  predicate IsDecimal(c: char) { '0' <= c <= '9' }

  /** Where the white space at p ends. */
  function SpacesEnd(s: string, p: nat): (k: nat)
    requires p <= |s|
    ensures p <= k <= |s|
    decreases |s| - p
  {
    if p < |s| && IsSpace(s[p]) then SpacesEnd(s, p + 1) else p
  }

  /** Where the digits at p end. */
  function DigitsEnd(s: string, p: nat): (k: nat)
    requires p <= |s|
    ensures p <= k <= |s|
    decreases |s| - p
  {
    if p < |s| && IsDecimal(s[p]) then DigitsEnd(s, p + 1) else p
  }

  predicate Signed(s: string, p: nat) { p < |s| && (s[p] == '-' || s[p] == '+') }

  /** White space, a sign, digits; whatever follows is ignored. */
  function Read(s: string): int {
    var p := SpacesEnd(s, 0);
    var q := if Signed(s, p) then p + 1 else p;
    var v := Value(s[q..DigitsEnd(s, q)], 10);
    if p < |s| && s[p] == '-' then -v else v
  }

  /** 64-bit two's complement wrap-around. */
  function Wrap64(x: int): int { (x - MIN_64) % WORD_64 + MIN_64 }

  lemma WrapDigit(x: int, d: int)
    ensures Wrap64(Wrap64(x) * 10 + d) == Wrap64(x * 10 + d)
  {
    var k := (x - MIN_64) / WORD_64;
    SameWrap(Wrap64(x) * 10 + d, x * 10 + d, 10 * k);
  }

  lemma WrapNegated(x: int)
    ensures Wrap64(-Wrap64(x)) == Wrap64(-x) && Wrap64(Wrap64(x)) == Wrap64(x)
  {
    var k := (x - MIN_64) / WORD_64;
    SameWrap(-Wrap64(x), -x, -k);
    SameWrap(Wrap64(x), x, k);
  }

  lemma SameWrap(a: int, b: int, k: int)
    requires b - a == k * WORD_64
    ensures Wrap64(a) == Wrap64(b)
  {
    var q, r := (a - MIN_64) / WORD_64, (a - MIN_64) % WORD_64;
    assert b - MIN_64 == (q + k) * WORD_64 + r;
  }

  /** Wrapping around changes a number by multiples of 2^64, into 64 bits. */
  lemma WrapIs(x: int)
    ensures -0x8000_0000_0000_0000 <= Wrap64(x) < 0x8000_0000_0000_0000
    ensures (x - Wrap64(x)) % 0x1_0000_0000_0000_0000 == 0
  {
    var q := (x - MIN_64) / WORD_64;
    assert x - Wrap64(x) == q * WORD_64;
  }

  lemma WrapFits(x: int)
    requires MIN_64 <= x <= MAX_64
    ensures Wrap64(x) == x
  {}

  /** atoi on the characters before the terminator, with the 64-bit arithmetic of the machine. */
  method Atoi(s: string) returns (r: int)
    ensures r == Wrap64(Read(s))
  {
    hide Value, DigitsEnd, Wrap64;
    var p := 0;
    while p < |s| && IsSpace(s[p])
      invariant 0 <= p <= |s| && SpacesEnd(s, p) == SpacesEnd(s, 0)
    {
      p := p + 1;
    }
    var sign := 1;
    if p < |s| && s[p] == '-' {
      sign := -1;
      p := p + 1;
    } else if p < |s| && s[p] == '+' {
      p := p + 1;
    }
    var num := ReadDigits(s, p);
    WrapNegated(Value(s[p..DigitsEnd(s, p)], 10));
    r := Wrap64(sign * num);
  }

  method ReadDigits(s: string, q: nat) returns (num: int)
    requires q <= |s|
    ensures num == Wrap64(Value(s[q..DigitsEnd(s, q)], 10))
  {
    hide Value, Wrap64;
    var p := q;
    num := 0;
    WrapFits(0);
    ValueStep("", '0');
    assert s[q..q] == "";
    while p < |s| && IsDecimal(s[p])
      invariant q <= p <= |s| && DigitsEnd(s, p) == DigitsEnd(s, q)
      invariant num == Wrap64(Value(s[q..p], 10))
    {
      ValueStep(s[q..p], s[p]);
      WrapDigit(Value(s[q..p], 10), s[p] as int - '0' as int);
      assert s[q..p] + [s[p]] == s[q..p + 1];
      num := Wrap64(num * 10 + (s[p] as int - '0' as int));
      p := p + 1;
    }
  }

  lemma ValueStep(t: string, c: char)
    ensures Value("", 10) == 0
    ensures IsDecimal(c) ==> Value(t + [c], 10) == Value(t, 10) * 10 + (c as int - '0' as int)
  {
    assert (t + [c])[..|t|] == t;
  }

  lemma {:induction false} DigitsEndIs(s: string, p: nat, k: nat)
    requires p <= k <= |s| && (forall i :: p <= i < k ==> IsDecimal(s[i])) && (k < |s| ==> !IsDecimal(s[k]))
    ensures DigitsEnd(s, p) == k
    decreases k - p
  {
    if p < k { DigitsEndIs(s, p + 1, k); }
  }

  lemma {:induction false} SpacesEndIs(s: string, p: nat, k: nat)
    requires p <= k <= |s| && (forall i :: p <= i < k ==> IsSpace(s[i])) && (k < |s| ==> !IsSpace(s[k]))
    ensures SpacesEnd(s, p) == k
    decreases k - p
  {
    if p < k { SpacesEndIs(s, p + 1, k); }
  }

  /** Blank, tab, newline, vertical tab, form feed or carriage return. */
  predicate White(c: char) { c as int == 32 || 9 <= c as int <= 13 }

  /**
   s is white space up to p, a sign or none up to q, digits up to k, and something that is no digit;
   if it has neither sign nor digits, it does not go on with white space or a sign.  Every text is
   that for one p, q and k.
   */
  ghost predicate Numbered(s: string, p: nat, q: nat, k: nat) {
    && p <= q <= k <= |s| && q <= p + 1
    && (forall i :: 0 <= i < p ==> White(s[i]))
    && (q == p + 1 ==> s[p] == '-' || s[p] == '+')
    && (forall i :: q <= i < k ==> '0' <= s[i] <= '9')
    && (k < |s| ==> !('0' <= s[k] <= '9') && (k == p ==> !White(s[k]) && s[k] != '-' && s[k] != '+'))
  }

  /** atoi reads the number that the digits write, negated behind a minus. */
  lemma ReadText(s: string, p: nat, q: nat, k: nat)
    requires Numbered(s, p, q, k)
    ensures Read(s) == if p < q && s[p] == '-' then -Value(s[q..k], 10) else Value(s[q..k], 10)
  {
    hide Value, DigitsEnd, SpacesEnd, White, IsSpace;
    forall i | 0 <= i < |s| ensures IsSpace(s[i]) <==> White(s[i]) { SpaceIs(s[i]); }
    if p < |s| { SpaceIs(s[p]); }
    SpacesEndIs(s, 0, p);
    DigitsEndIs(s, q, k);
  }

  /** isspace's characters; no figure and no sign is one. */
  lemma SpaceIs(c: char)
    ensures IsSpace(c) <==> White(c)
    ensures IsSpace(c) ==> !IsDecimal(c) && c != '-' && c != '+'
  {}

  /** The p, q and k of a text. */
  lemma TextNumbered(s: string) returns (p: nat, q: nat, k: nat)
    ensures Numbered(s, p, q, k)
  {
    hide White, IsSpace, SpacesEnd, DigitsEnd;
    p := SpacesEnd(s, 0);
    SpacesThere(s, 0);
    forall i | 0 <= i < |s| ensures IsSpace(s[i]) <==> White(s[i]) { SpaceIs(s[i]); }
    q := if Signed(s, p) then p + 1 else p;
    k := DigitsEnd(s, q);
    DigitsThere(s, q);
  }

  lemma {:induction false} SpacesThere(s: string, p: nat)
    requires p <= |s|
    ensures forall i :: p <= i < SpacesEnd(s, p) ==> IsSpace(s[i])
    ensures SpacesEnd(s, p) < |s| ==> !IsSpace(s[SpacesEnd(s, p)])
    decreases |s| - p
  {
    hide IsSpace;
    if p < |s| && IsSpace(s[p]) { SpacesThere(s, p + 1); }
  }

  lemma {:induction false} DigitsThere(s: string, p: nat)
    requires p <= |s|
    ensures forall i :: p <= i < DigitsEnd(s, p) ==> IsDecimal(s[i])
    ensures DigitsEnd(s, p) < |s| ==> !IsDecimal(s[DigitsEnd(s, p)])
    decreases |s| - p
  {
    if p < |s| && IsDecimal(s[p]) { DigitsThere(s, p + 1); }
  }

  /** atoi undoes itoa in base 10, whatever follows the text as long as it is no digit. */
  lemma ReadSpelled(n: int, tail: string)
    requires tail == "" || !IsDecimal(tail[0])
    ensures Read(Spelled(n, 10) + tail) == n
    ensures MIN_64 <= n <= MAX_64 ==> Wrap64(Read(Spelled(n, 10) + tail)) == n
  {
    hide Value, Backwards, Reversed, Read, Numbered;
    var sign, digits := Sign(n, 10), if n == 0 then "0" else Reversed(Backwards(Abs(n), 10));
    SpelledDigits(n);
    Parts(sign, digits, tail);
    ReadText(sign + digits + tail, 0, |sign|, |sign| + |digits|);
  }

  /** How a sign, digits and something else are read. */
  lemma Parts(sign: string, digits: string, tail: string)
    requires (sign == "" || sign == "-") && digits != "" && forall i :: 0 <= i < |digits| ==> IsDecimal(digits[i])
    requires tail == "" || !IsDecimal(tail[0])
    ensures var s, q, k := sign + digits + tail, |sign|, |sign| + |digits|;
            Numbered(s, 0, q, k) && s[q..k] == digits && (s[0] == '-' <==> sign == "-")
  {
    hide White;
    Slices(sign, digits, tail);
    assert (sign + digits + tail)[|sign|] == digits[0];
  }

  lemma SpelledDigits(n: int)
    ensures var digits := if n == 0 then "0" else Reversed(Backwards(Abs(n), 10));
            && digits != "" && Value(digits, 10) == Abs(n)
            && forall i :: 0 <= i < |digits| ==> IsDecimal(digits[i])
  {
    hide Value, Backwards, Reversed;
    if n == 0 {
      ValueStep("", '0');
      assert "" + ['0'] == "0";
    } else {
      ReversedDenotes(Abs(n), 10);
    }
  }
}
