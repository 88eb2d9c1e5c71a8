/**
 The shell calculator: a recursive-descent evaluator that reads a string through one moving
 cursor.  Values are 32-bit; a text ends at its NUL, which reading past the last character gives.
 */
module Calculator {
  import Align
  import opened Common

  const MAX := 0x7FFF_FFFF

  /** The character at the cursor. */
  function At(s: string, p: nat): char { if p < |s| then s[p] else NUL }

  predicate IsDigit(c: char) { '0' <= c <= '9' }

  predicate IsXDigit(c: char) { IsDigit(c) || 'a' <= c <= 'f' || 'A' <= c <= 'F' }

  /** Value of a hexadecimal digit; letters of either case. */
  function DigitValue(c: char): int
    requires IsXDigit(c)
  {
    if c <= '9' then c as int - '0' as int
    else if 'A' <= c <= 'F' then c as int - 'A' as int + 10
    else c as int - 'a' as int + 10
  }

  /** 32-bit two's complement wrap-around. */
  function Wrap(x: int): int { (x + 0x8000_0000) % 0x1_0000_0000 - 0x8000_0000 }

  /** Division that truncates toward zero. */
  function Quotient(a: int, b: int): int
    requires b != 0
  {
    if (a >= 0) == (b > 0) then Abs(a) / Abs(b) else -(Abs(a) / Abs(b))
  }

  const HEX := "0123456789abcdef"

  function Lower(c: char): char { if 'A' <= c <= 'Z' then (c as int + 32) as char else c }

  /** A digit's value is its place among the digits, whatever its case. */
  lemma DigitIs(c: char)
    requires IsXDigit(c)
    ensures 0 <= DigitValue(c) < 16 && HEX[DigitValue(c)] == Lower(c)
    ensures IsDigit(c) <==> DigitValue(c) < 10
  {
    HexAt(DigitValue(c));
  }

  lemma HexAt(d: nat)
    requires d < 16
    ensures HEX[d] == if d < 10 then (d + '0' as int) as char else (d - 10 + 'a' as int) as char
  {
    assert HEX[0] == '0' && HEX[1] == '1' && HEX[2] == '2' && HEX[3] == '3' && HEX[4] == '4' && HEX[5] == '5';
    assert HEX[6] == '6' && HEX[7] == '7' && HEX[8] == '8' && HEX[9] == '9' && HEX[10] == 'a' && HEX[11] == 'b';
    assert HEX[12] == 'c' && HEX[13] == 'd' && HEX[14] == 'e' && HEX[15] == 'f';
  }

  /** Wrapping around changes a number by multiples of 2^32, into 32 bits. */
  lemma WrapIs(x: int)
    ensures -0x8000_0000 <= Wrap(x) < 0x8000_0000 && (x - Wrap(x)) % 0x1_0000_0000 == 0
  {
    var q := (x + 0x8000_0000) / 0x1_0000_0000;
    assert x - Wrap(x) == q * 0x1_0000_0000;
  }

  // ---------------------------------------------------------------- the evaluator

  /** Value, cursor and error flag after a call. */
  datatype Result = Result(value: int, pos: nat, err: nat)

  function Skip(s: string, p: nat): (q: nat)
    requires p <= |s|
    ensures p <= q <= |s| && At(s, q) != ' '
    ensures forall i :: p <= i < q ==> s[i] == ' '
    decreases |s| - p
  {
    if At(s, p) == ' ' then Skip(s, p + 1) else p
  }

  /** The digit loop of `number`. */
  function Digits(s: string, p: nat, hex: bool, n: int): (r: (int, nat))
    requires p <= |s|
    ensures p <= r.1 <= |s|
    decreases |s| - p
  {
    var c := At(s, p);
    if (if hex then IsXDigit(c) else IsDigit(c))
    then Digits(s, p + 1, hex, Wrap(n * (if hex then 16 else 10) + DigitValue(c)))
    else (n, p)
  }

  function Number(s: string, p: nat): (r: (int, nat))
    requires p <= |s|
    ensures p <= r.1 <= |s|
  {
    var neg := At(s, p) == '-';
    var p1 := if neg then p + 1 else p;
    var hex := At(s, p1) == '0' && At(s, p1 + 1) == 'x';
    var r := Digits(s, if hex then p1 + 2 else p1, hex, 0);
    (if neg then Wrap(-r.0) else r.0, r.1)
  }

  function Factor(s: string, p: nat, err: nat): (r: Result)
    requires p <= |s|
    ensures p <= r.pos <= |s|
    decreases |s| - p, 3
  {
    var p1 := Skip(s, p);
    if At(s, p1) == '(' then
      var r := Eval(s, p1 + 1, err);
      var p2 := Skip(s, r.pos);
      if At(s, p2) == ')' then Result(r.value, p2 + 1, r.err) else Result(r.value, p2, 1)
    else
      var n := Number(s, p1);
      Result(n.0, n.1, err)
  }

  function Term(s: string, p: nat, err: nat): (r: Result)
    requires p <= |s|
    ensures p <= r.pos <= |s|
    decreases |s| - p, 4
  {
    var f := Factor(s, p, err);
    TermLoop(s, Skip(s, f.pos), f.value, f.err)
  }

  /** The loop of `term`, with the cursor on a character that is not a space. */
  function TermLoop(s: string, p: nat, value: int, err: nat): (r: Result)
    requires p <= |s|
    ensures p <= r.pos <= |s|
    decreases |s| - p, 1
  {
    var op := At(s, p);
    if op == '*' || op == '/' then
      var f := Factor(s, p + 1, err);
      if op == '*' then TermLoop(s, Skip(s, f.pos), Wrap(value * f.value), f.err)
      else if f.value == 0 then Result(0, f.pos, 2)
      else TermLoop(s, Skip(s, f.pos), Wrap(Quotient(value, f.value)), f.err)
    else Result(value, p, err)
  }

  function Eval(s: string, p: nat, err: nat): (r: Result)
    requires p <= |s|
    ensures p <= r.pos <= |s|
    decreases |s| - p, 5
  {
    var t := Term(s, p, err);
    EvalLoop(s, Skip(s, t.pos), t.value, t.err)
  }

  function EvalLoop(s: string, p: nat, value: int, err: nat): (r: Result)
    requires p <= |s|
    ensures p <= r.pos <= |s|
    decreases |s| - p, 2
  {
    var op := At(s, p);
    if op == '+' || op == '-' then
      var t := Term(s, p + 1, err);
      EvalLoop(s, Skip(s, t.pos), Wrap(if op == '+' then value + t.value else value - t.value), t.err)
    else Result(value, p, err)
  }

  // ---------------------------------------------------------------- expressions and their text

  datatype Op = Add | Sub | Mul | Div

  /** A number as it may be written: sign, base, digits of that base. */
  datatype Literal = Literal(neg: bool, hex: bool, digits: string)

  /** An expression with the spaces before each of its tokens. */
  datatype Expr =
    | Num(sp: nat, lit: Literal)
    | Paren(sp: nat, e: Expr, spClose: nat)
    | Bin(op: Op, l: Expr, spOp: nat, r: Expr)

  function Spaces(n: nat): (r: string)
    ensures |r| == n && forall i :: 0 <= i < n ==> r[i] == ' '
  {
    seq(n, _ => ' ')
  }

  function OpChar(op: Op): char {
    match op
    case Add => '+'
    case Sub => '-'
    case Mul => '*'
    case Div => '/'
  }

  function ShowLiteral(lit: Literal): string {
    (if lit.neg then "-" else "") + (if lit.hex then "0x" else "") + lit.digits
  }

  function Show(e: Expr): string {
    match e
    case Num(sp, lit) => Spaces(sp) + ShowLiteral(lit)
    case Paren(sp, inner, spClose) => Spaces(sp) + "(" + Show(inner) + Spaces(spClose) + ")"
    case Bin(op, l, spOp, r) => Show(l) + Spaces(spOp) + [OpChar(op)] + Show(r)
  }

  predicate GoodLiteral(lit: Literal) {
    && lit.digits != ""
    && forall i :: 0 <= i < |lit.digits| ==> if lit.hex then IsXDigit(lit.digits[i]) else IsDigit(lit.digits[i])
  }

  /** 3 for what stands alone, 2 for a product, 1 for a sum. */
  function Level(e: Expr): nat {
    match e
    case Num(_, _) => 3
    case Paren(_, _, _) => 3
    case Bin(op, _, _, _) => if op == Mul || op == Div then 2 else 1
  }

  /** Parentheses stand where precedence and left association need them. */
  predicate WellFormed(e: Expr) {
    match e
    case Num(_, lit) => GoodLiteral(lit)
    case Paren(_, inner, _) => WellFormed(inner)
    case Bin(op, l, _, r) => WellFormed(l) && WellFormed(r) && Level(l) >= Level(e) && Level(r) > Level(e)
  }

  // ---------------------------------------------------------------- what an expression means

  function Magnitude(digits: string, hex: bool): nat
    requires forall i :: 0 <= i < |digits| ==> IsXDigit(digits[i])
  {
    if digits == "" then 0
    else Magnitude(digits[..|digits| - 1], hex) * (if hex then 16 else 10) + DigitValue(digits[|digits| - 1])
  }

  function LiteralValue(lit: Literal): int
    requires GoodLiteral(lit)
  {
    var m: int := Magnitude(lit.digits, lit.hex);
    if lit.neg then -m else m
  }

  predicate In32(x: int) { -0x8000_0000 <= x <= MAX }

  function Apply(op: Op, a: int, b: int): int
    requires op == Div ==> b != 0
  {
    match op
    case Add => a + b
    case Sub => a - b
    case Mul => a * b
    case Div => TowardZero(a, b)
  }

  /** The exact quotient, without its fraction. */
  function TowardZero(a: int, b: int): int
    requires b != 0
  {
    if a >= 0 || a % b == 0 then a / b else if b > 0 then a / b + 1 else a / b - 1
  }

  /** q times b comes nearer to a than b is long, and what is left has a's sign. */
  predicate IsQuotient(a: int, b: int, q: int) {
    var rest := a - q * b;
    Abs(rest) < Abs(b) && (rest == 0 || (rest > 0) == (a > 0))
  }

  /** The evaluator's division truncates toward zero, and so does that of the meaning. */
  lemma QuotientTruncates(a: int, b: int, q: int)
    requires b != 0
    ensures IsQuotient(a, b, q) <==> q == Quotient(a, b)
    ensures IsQuotient(a, b, q) <==> q == TowardZero(a, b)
  {
    QuotientIs(a, b);
    TowardZeroIs(a, b);
    if IsQuotient(a, b, q) {
      OneQuotient(a, b, q, Quotient(a, b));
      OneQuotient(a, b, q, TowardZero(a, b));
    }
  }

  lemma QuotientIs(a: int, b: int)
    requires b != 0
    ensures IsQuotient(a, b, Quotient(a, b))
  {
    hide IsQuotient;
    DivMod(Abs(a), Abs(b));
    QuotientSigned(a, b, Abs(a) / Abs(b));
  }

  lemma QuotientSigned(a: int, b: int, q: int)
    requires b != 0 && q >= 0 && 0 <= Abs(a) - q * Abs(b) < Abs(b)
    ensures IsQuotient(a, b, if (a >= 0) == (b > 0) then q else -q)
  {
    Negated(q, Abs(b));
  }

  lemma DivMod(m: nat, n: nat)
    requires n > 0
    ensures m / n >= 0 && 0 <= m - m / n * n < n
  {
    assert m == m / n * n + m % n;
  }

  lemma Negated(x: int, y: int)
    ensures (-x) * y == -(x * y) && x * (-y) == -(x * y) && (-x) * (-y) == x * y
  {}

  lemma TowardZeroIs(a: int, b: int)
    requires b != 0
    ensures IsQuotient(a, b, TowardZero(a, b))
  {
    var q, r := a / b, a % b;
    assert a == q * b + r && 0 <= r < Abs(b);
    assert (q + 1) * b == q * b + b && (q - 1) * b == q * b - b;
  }

  lemma OneQuotient(a: int, b: int, q: int, r: int)
    requires b != 0 && IsQuotient(a, b, q) && IsQuotient(a, b, r)
    ensures q == r
  {
    assert (q - r) * b == q * b - r * b;
    Multiples(q - r, b);
  }

  lemma Multiples(k: int, b: int)
    requires b != 0
    ensures k != 0 ==> Abs(k * b) >= Abs(b)
  {
    Negated(Abs(k), Abs(b));
    if k != 0 { Align.AtLeastOnce(Abs(k), Abs(b)); }
  }

  /** The value, if no divisor is zero and nothing on the way leaves 32 bits. */
  datatype Meaning = Value(v: int) | DividesByZero | Overflows

  function Mean(e: Expr): Meaning
    requires WellFormed(e)
  {
    match e
    case Num(_, lit) => if Magnitude(lit.digits, lit.hex) <= MAX then Value(LiteralValue(lit)) else Overflows
    case Paren(_, inner, _) => Mean(inner)
    case Bin(op, l, _, r) =>
      match Mean(l)
      case DividesByZero => DividesByZero
      case Overflows => Overflows
      case Value(a) =>
        match Mean(r)
        case DividesByZero => DividesByZero
        case Overflows => Overflows
        case Value(b) =>
          if op == Div && b == 0 then DividesByZero
          else if In32(Apply(op, a, b)) then Value(Apply(op, a, b)) else Overflows
  }

  // ---------------------------------------------------------------- reading text

  /** The text t stands at position p. */
  predicate Stands(s: string, p: nat, t: string) {
    p + |t| <= |s| && s[p..p + |t|] == t
  }

  /** What follows cannot be taken for part of a number. */
  predicate Boundary(s: string, p: nat) {
    !IsXDigit(At(s, p)) && At(s, p) != 'x'
  }

  lemma StandsParts(s: string, p: nat, a: string, b: string)
    requires Stands(s, p, a + b)
    ensures Stands(s, p, a) && Stands(s, p + |a|, b)
  {
    assert s[p..p + |a|] == (a + b)[..|a|];
    assert s[p + |a|..p + |a| + |b|] == (a + b)[|a|..];
  }

  lemma StandsAt(s: string, p: nat, t: string, i: nat)
    requires Stands(s, p, t) && i < |t|
    ensures At(s, p + i) == t[i]
  {
    assert s[p..p + |t|][i] == s[p + i];
  }

  /** Skipping n spaces up to something else. */
  lemma {:induction false} SkipSpaces(s: string, p: nat, n: nat)
    requires Stands(s, p, Spaces(n)) && At(s, p + n) != ' '
    ensures Skip(s, p) == p + n
    decreases n
  {
    if n > 0 {
      StandsAt(s, p, Spaces(n), 0);
      assert Spaces(n) == [' '] + Spaces(n - 1);
      StandsParts(s, p, [' '], Spaces(n - 1));
      SkipSpaces(s, p + 1, n - 1);
    }
  }

  lemma SkipNone(s: string, p: nat)
    requires p <= |s| && At(s, p) != ' '
    ensures Skip(s, p) == p
  {}

  lemma WrapFits(x: int)
    requires In32(x)
    ensures Wrap(x) == x
  {}

  lemma {:induction false} MagnitudePrefix(digits: string, hex: bool, k: nat)
    requires k <= |digits| && forall i :: 0 <= i < |digits| ==> IsXDigit(digits[i])
    ensures Magnitude(digits[..k], hex) <= Magnitude(digits, hex)
    decreases |digits|
  {
    if k < |digits| {
      var front := digits[..|digits| - 1];
      assert front[..k] == digits[..k];
      MagnitudePrefix(front, hex, k);
    } else {
      assert digits[..k] == digits;
    }
  }

  /** The digit loop reads a whole run of digits. */
  lemma {:induction false} DigitsRead(s: string, p: nat, digits: string, hex: bool, k: nat)
    requires k <= |digits| && Stands(s, p, digits) && Boundary(s, p + |digits|)
    requires forall i :: 0 <= i < |digits| ==> if hex then IsXDigit(digits[i]) else IsDigit(digits[i])
    requires Magnitude(digits, hex) <= MAX
    ensures Digits(s, p + k, hex, Magnitude(digits[..k], hex)) == (Magnitude(digits, hex), p + |digits|)
    decreases |digits| - k
  {
    hide Stands, Digits, Magnitude, Wrap;
    StandsIn(s, p, digits);
    if k == |digits| {
      assert digits[..k] == digits;
      DigitsStop(s, p + k, hex, Magnitude(digits, hex));
    } else {
      StandsAt(s, p, digits, k);
      MagnitudePrefix(digits, hex, k + 1);
      MagnitudeNext(digits, hex, k);
      WrapFits(Magnitude(digits[..k + 1], hex));
      DigitsStep(s, p + k, hex, Magnitude(digits[..k], hex));
      DigitsRead(s, p, digits, hex, k + 1);
    }
  }

  lemma MagnitudeNext(digits: string, hex: bool, k: nat)
    requires k < |digits| && forall i :: 0 <= i < |digits| ==> IsXDigit(digits[i])
    ensures Magnitude(digits[..k + 1], hex) ==
            Magnitude(digits[..k], hex) * (if hex then 16 else 10) + DigitValue(digits[k])
  {
    assert digits[..k + 1][..k] == digits[..k];
  }

  lemma DigitsStop(s: string, p: nat, hex: bool, n: int)
    requires p <= |s| && Boundary(s, p)
    ensures Digits(s, p, hex, n) == (n, p)
  {}

  lemma DigitsEnd(s: string, p: nat, n: int)
    requires p <= |s|
    ensures !IsXDigit(At(s, p)) ==> Digits(s, p, true, n) == (n, p)
    ensures !IsDigit(At(s, p)) ==> Digits(s, p, false, n) == (n, p)
  {}

  lemma DigitsStep(s: string, p: nat, hex: bool, n: int)
    requires p < |s| && if hex then IsXDigit(At(s, p)) else IsDigit(At(s, p))
    ensures Digits(s, p, hex, n) == Digits(s, p + 1, hex, Wrap(n * (if hex then 16 else 10) + DigitValue(At(s, p))))
  {
    hide Wrap;
  }

  /** Number without its sign. */
  lemma UnsignedReads(s: string, p: nat, lit: Literal)
    requires GoodLiteral(lit) && Magnitude(lit.digits, lit.hex) <= MAX
    requires Stands(s, p, (if lit.hex then "0x" else "") + lit.digits)
    requires Boundary(s, p + (if lit.hex then 2 else 0) + |lit.digits|)
    ensures var hex := At(s, p) == '0' && At(s, p + 1) == 'x';
            var start := if hex then p + 2 else p;
            hex == lit.hex && start <= |s| &&
            Digits(s, start, hex, 0) == (Magnitude(lit.digits, lit.hex), start + |lit.digits|)
    ensures IsDigit(At(s, p))
  {
    hide Digits, Stands, Magnitude;
    var prefix := if lit.hex then "0x" else "";
    StandsParts(s, p, prefix, lit.digits);
    if lit.hex {
      StandsAt(s, p, prefix, 0);
      StandsAt(s, p, prefix, 1);
    } else {
      StandsAt(s, p, lit.digits, 0);
      if |lit.digits| > 1 { StandsAt(s, p, lit.digits, 1); }
    }
    var start := p + |prefix|;
    DigitsRead(s, start, lit.digits, lit.hex, 0);
    StandsIn(s, start, lit.digits);
    assert lit.digits[..0] == "";
    EmptyMagnitude(lit.hex);
  }

  lemma StandsIn(s: string, p: nat, t: string)
    requires Stands(s, p, t)
    ensures p + |t| <= |s|
  {}

  lemma EmptyMagnitude(hex: bool)
    ensures Magnitude("", hex) == 0
  {}

  /** `number` reads a literal back. */
  lemma NumberReads(s: string, p: nat, lit: Literal)
    requires GoodLiteral(lit) && Magnitude(lit.digits, lit.hex) <= MAX
    requires Stands(s, p, ShowLiteral(lit)) && Boundary(s, p + |ShowLiteral(lit)|)
    ensures p <= |s| && Number(s, p) == (LiteralValue(lit), p + |ShowLiteral(lit)|)
    ensures At(s, p) != ' ' && At(s, p) != '('
  {
    hide Digits, Stands, Magnitude, Wrap;
    var sign, rest := if lit.neg then "-" else "", (if lit.hex then "0x" else "") + lit.digits;
    assert ShowLiteral(lit) == sign + rest;
    StandsIn(s, p, ShowLiteral(lit));
    StandsParts(s, p, sign, rest);
    if lit.neg { StandsAt(s, p, sign, 0); }
    UnsignedReads(s, p + |sign|, lit);
    WrapFits(0 - Magnitude(lit.digits, lit.hex));
  }

  // ---------------------------------------------------------------- reading expressions

  lemma TermLoopStep(s: string, p: nat, value: int, err: nat)
    requires p < |s| && (At(s, p) == '*' || At(s, p) == '/')
    ensures var f := Factor(s, p + 1, err);
            TermLoop(s, p, value, err) ==
            if At(s, p) == '*' then TermLoop(s, Skip(s, f.pos), Wrap(value * f.value), f.err)
            else if f.value == 0 then Result(0, f.pos, 2)
            else TermLoop(s, Skip(s, f.pos), Wrap(Quotient(value, f.value)), f.err)
  {
    hide Factor, Skip, Wrap, Quotient;
  }

  lemma EvalLoopStep(s: string, p: nat, value: int, err: nat)
    requires p < |s| && (At(s, p) == '+' || At(s, p) == '-')
    ensures var t := Term(s, p + 1, err);
            EvalLoop(s, p, value, err) ==
            EvalLoop(s, Skip(s, t.pos), Wrap(if At(s, p) == '+' then value + t.value else value - t.value), t.err)
  {
    hide Term, Skip, Wrap;
  }

  lemma TermIs(s: string, p: nat, err: nat)
    requires p <= |s|
    ensures var f := Factor(s, p, err); Term(s, p, err) == TermLoop(s, Skip(s, f.pos), f.value, f.err)
  {
    hide Factor, TermLoop, Skip;
  }

  lemma EvalIs(s: string, p: nat, err: nat)
    requires p <= |s|
    ensures var t := Term(s, p, err); Eval(s, p, err) == EvalLoop(s, Skip(s, t.pos), t.value, t.err)
  {
    hide Term, EvalLoop, Skip;
  }

  /** Error flags are never cleared. */
  lemma {:induction false} FactorKeepsError(s: string, p: nat, err: nat)
    requires p <= |s| && err != 0
    ensures Factor(s, p, err).err != 0
    decreases |s| - p, 3
  {
    var p1 := Skip(s, p);
    if At(s, p1) == '(' {
      EvalKeepsError(s, p1 + 1, err);
    }
  }

  lemma {:induction false} TermLoopKeepsError(s: string, p: nat, value: int, err: nat)
    requires p <= |s| && err != 0
    ensures TermLoop(s, p, value, err).err != 0
    decreases |s| - p, 1
  {
    hide Factor, TermLoop, Skip, Wrap, Quotient;
    var op := At(s, p);
    if op != '*' && op != '/' {
      TermLoopStops(s, p, value, err);
    } else {
      TermLoopStep(s, p, value, err);
      var f := Factor(s, p + 1, err);
      FactorKeepsError(s, p + 1, err);
      if op == '*' {
        TermLoopKeepsError(s, Skip(s, f.pos), Wrap(value * f.value), f.err);
      } else if f.value != 0 {
        TermLoopKeepsError(s, Skip(s, f.pos), Wrap(Quotient(value, f.value)), f.err);
      }
    }
  }

  lemma {:induction false} TermKeepsError(s: string, p: nat, err: nat)
    requires p <= |s| && err != 0
    ensures Term(s, p, err).err != 0
    decreases |s| - p, 4
  {
    hide Factor, Term, TermLoop, Skip;
    TermIs(s, p, err);
    var f := Factor(s, p, err);
    FactorKeepsError(s, p, err);
    TermLoopKeepsError(s, Skip(s, f.pos), f.value, f.err);
  }

  lemma {:induction false} EvalLoopKeepsError(s: string, p: nat, value: int, err: nat)
    requires p <= |s| && err != 0
    ensures EvalLoop(s, p, value, err).err != 0
    decreases |s| - p, 2
  {
    hide Term, EvalLoop, Skip, Wrap;
    var op := At(s, p);
    if op != '+' && op != '-' {
      EvalLoopStops(s, p, value, err);
    } else {
      EvalLoopStep(s, p, value, err);
      var t := Term(s, p + 1, err);
      TermKeepsError(s, p + 1, err);
      EvalLoopKeepsError(s, Skip(s, t.pos), Wrap(if op == '+' then value + t.value else value - t.value), t.err);
    }
  }

  lemma {:induction false} EvalKeepsError(s: string, p: nat, err: nat)
    requires p <= |s| && err != 0
    ensures Eval(s, p, err).err != 0
    decreases |s| - p, 5
  {
    hide Term, Eval, EvalLoop, Skip;
    EvalIs(s, p, err);
    var t := Term(s, p, err);
    TermKeepsError(s, p, err);
    EvalLoopKeepsError(s, Skip(s, t.pos), t.value, t.err);
  }

  /** The text of e stands at p, and what follows it is no part of it. */
  predicate Placed(s: string, p: nat, e: Expr) {
    Stands(s, p, Show(e)) && Boundary(s, p + |Show(e)|)
  }

  /** Where the text of e, and the spaces after it, end. */
  function After(s: string, p: nat, e: Expr): nat
    requires Placed(s, p, e)
  {
    Skip(s, p + |Show(e)|)
  }

  lemma BinPlaced(s: string, p: nat, e: Expr)
    requires e.Bin? && Placed(s, p, e)
    ensures Placed(s, p, e.l) && Placed(s, p + |Show(e.l)| + e.spOp + 1, e.r)
    ensures After(s, p, e.l) == p + |Show(e.l)| + e.spOp
    ensures At(s, p + |Show(e.l)| + e.spOp) == OpChar(e.op)
    ensures p + |Show(e)| == p + |Show(e.l)| + e.spOp + 1 + |Show(e.r)|
  {
    hide Stands, Skip, Spaces, At, Show;
    var l, sp, op, r := Show(e.l), Spaces(e.spOp), [OpChar(e.op)], Show(e.r);
    ShowBin(e);
    StandsParts(s, p, l, sp + (op + r));
    StandsParts(s, p + |l|, sp, op + r);
    StandsParts(s, p + |l| + |sp|, op, r);
    StandsAt(s, p + |l| + |sp|, op, 0);
    SkipSpaces(s, p + |l|, e.spOp);
    if e.spOp > 0 { StandsAt(s, p + |l|, sp, 0); }
  }

  lemma ShowBin(e: Expr)
    requires e.Bin?
    ensures Show(e) == Show(e.l) + (Spaces(e.spOp) + ([OpChar(e.op)] + Show(e.r)))
  {}

  lemma ParenPlaced(s: string, p: nat, e: Expr)
    requires e.Paren? && Placed(s, p, e)
    ensures Skip(s, p) == p + e.sp && At(s, p + e.sp) == '('
    ensures Placed(s, p + e.sp + 1, e.e)
    ensures After(s, p + e.sp + 1, e.e) == p + |Show(e)| - 1 && At(s, p + |Show(e)| - 1) == ')'
  {
    hide Stands, Skip, Spaces, At, Show;
    var sp, inner, close := Spaces(e.sp), Show(e.e), Spaces(e.spClose);
    ShowParen(e);
    StandsParts(s, p, sp, "(" + (inner + (close + ")")));
    StandsParts(s, p + |sp|, "(", inner + (close + ")"));
    StandsAt(s, p + |sp|, "(", 0);
    SkipSpaces(s, p, e.sp);
    var q := p + |sp| + 1;
    StandsParts(s, q, inner, close + ")");
    StandsParts(s, q + |inner|, close, ")");
    StandsAt(s, q + |inner| + |close|, ")", 0);
    SkipSpaces(s, q + |inner|, e.spClose);
    if e.spClose > 0 { StandsAt(s, q + |inner|, close, 0); }
  }

  lemma ShowParen(e: Expr)
    requires e.Paren?
    ensures Show(e) == Spaces(e.sp) + ("(" + (Show(e.e) + (Spaces(e.spClose) + ")")))
  {}

  lemma NumPlaced(s: string, p: nat, e: Expr)
    requires e.Num? && WellFormed(e) && Placed(s, p, e) && Magnitude(e.lit.digits, e.lit.hex) <= MAX
    ensures Skip(s, p) == p + e.sp && At(s, p + e.sp) != '('
    ensures Number(s, p + e.sp) == (LiteralValue(e.lit), p + |Show(e)|)
  {
    StandsParts(s, p, Spaces(e.sp), ShowLiteral(e.lit));
    NumberReads(s, p + e.sp, e.lit);
    SkipSpaces(s, p, e.sp);
  }

  lemma {:induction false} FactorReads(s: string, p: nat, e: Expr, err: nat)
    requires WellFormed(e) && Level(e) == 3 && Placed(s, p, e)
    ensures p <= |s|
    ensures Mean(e).Value? ==> Factor(s, p, err) == Result(Mean(e).v, p + |Show(e)|, err)
    ensures Mean(e).DividesByZero? ==> Factor(s, p, err).err != 0
    decreases e, 1
  {
    hide Number, Show, Magnitude, Eval, EvalLoop;
    PlacedIn(s, p, e);
    match e
    case Num(sp, lit) =>
      if Mean(e).Value? {
        NumPlaced(s, p, e);
      }
    case Paren(sp, inner, spClose) =>
      ParenPlaced(s, p, e);
      EvalReads(s, p + sp + 1, inner, err);
      if Mean(inner).Value? {
        EvalLoopStops(s, p + |Show(e)| - 1, Mean(inner).v, err);
      }
  }

  lemma PlacedIn(s: string, p: nat, e: Expr)
    requires Placed(s, p, e)
    ensures p + |Show(e)| <= |s|
  {}

  lemma EvalLoopStops(s: string, p: nat, value: int, err: nat)
    requires p <= |s| && At(s, p) != '+' && At(s, p) != '-'
    ensures EvalLoop(s, p, value, err) == Result(value, p, err)
  {}

  lemma TermLoopStops(s: string, p: nat, value: int, err: nat)
    requires p <= |s| && At(s, p) != '*' && At(s, p) != '/'
    ensures TermLoop(s, p, value, err) == Result(value, p, err)
  {}

  lemma {:induction false} TermReads(s: string, p: nat, e: Expr, err: nat)
    requires WellFormed(e) && Level(e) >= 2 && Placed(s, p, e)
    ensures p <= |s|
    ensures Mean(e).Value? ==> Term(s, p, err) == TermLoop(s, After(s, p, e), Mean(e).v, err)
    ensures Mean(e).DividesByZero? ==> Term(s, p, err).err != 0
    decreases e, 2
  {
    hide Factor, Term, TermLoop, Show, Skip, Stands;
    PlacedIn(s, p, e);
    TermIs(s, p, err);
    if Level(e) == 3 {
      FactorReads(s, p, e, err);
      if Mean(e).DividesByZero? {
        var f := Factor(s, p, err);
        TermLoopKeepsError(s, Skip(s, f.pos), f.value, f.err);
      }
    } else {
      BinPlaced(s, p, e);
      TermReads(s, p, e.l, err);
      if Mean(e.l).Value? {
        ProductStep(s, p, e, err);
      }
    }
  }

  /** One turn of the loop of `term`. */
  lemma {:induction false} ProductStep(s: string, p: nat, e: Expr, err: nat)
    requires e.Bin? && WellFormed(e) && Level(e) == 2 && Placed(s, p, e) && Mean(e.l).Value?
    ensures Placed(s, p, e.l)
    ensures Mean(e).Value? ==> TermLoop(s, After(s, p, e.l), Mean(e.l).v, err) == TermLoop(s, After(s, p, e), Mean(e).v, err)
    ensures Mean(e).DividesByZero? ==> TermLoop(s, After(s, p, e.l), Mean(e.l).v, err).err != 0
    decreases e, 0
  {
    hide Factor, TermLoop, Show, Skip, Quotient, Wrap, Stands, TowardZero, IsQuotient;
    BinPlaced(s, p, e);
    PlacedIn(s, p, e);
    var q := p + |Show(e.l)| + e.spOp;
    FactorReads(s, q + 1, e.r, err);
    TermLoopStep(s, q, Mean(e.l).v, err);
    var f := Factor(s, q + 1, err);
    if Mean(e).Value? {
      WrapFits(Mean(e).v);
      if e.op == Div { QuotientTruncates(Mean(e.l).v, Mean(e.r).v, Mean(e).v); }
    } else if Mean(e.r).DividesByZero? {
      if e.op == Mul {
        TermLoopKeepsError(s, Skip(s, f.pos), Wrap(Mean(e.l).v * f.value), f.err);
      } else if f.value != 0 {
        TermLoopKeepsError(s, Skip(s, f.pos), Wrap(Quotient(Mean(e.l).v, f.value)), f.err);
      }
    }
  }

  lemma {:induction false} EvalReads(s: string, p: nat, e: Expr, err: nat)
    requires WellFormed(e) && Placed(s, p, e)
    requires At(s, After(s, p, e)) != '*' && At(s, After(s, p, e)) != '/'
    ensures p <= |s|
    ensures Mean(e).Value? ==> Eval(s, p, err) == EvalLoop(s, After(s, p, e), Mean(e).v, err)
    ensures Mean(e).DividesByZero? ==> Eval(s, p, err).err != 0
    decreases e, 3
  {
    hide Term, TermLoop, Eval, EvalLoop, Show, Skip, Stands;
    PlacedIn(s, p, e);
    EvalIs(s, p, err);
    if Level(e) >= 2 {
      TermReads(s, p, e, err);
      if Mean(e).Value? {
        TermLoopStops(s, After(s, p, e), Mean(e).v, err);
        SkipNone(s, After(s, p, e));
      } else if Mean(e).DividesByZero? {
        var t := Term(s, p, err);
        EvalLoopKeepsError(s, Skip(s, t.pos), t.value, t.err);
      }
    } else {
      BinPlaced(s, p, e);
      EvalReads(s, p, e.l, err);
      if Mean(e.l).Value? {
        SumStep(s, p, e, err);
      }
    }
  }

  /** One turn of the loop of `eval`. */
  lemma {:induction false} SumStep(s: string, p: nat, e: Expr, err: nat)
    requires e.Bin? && WellFormed(e) && Level(e) == 1 && Placed(s, p, e) && Mean(e.l).Value?
    requires At(s, After(s, p, e)) != '*' && At(s, After(s, p, e)) != '/'
    ensures Placed(s, p, e.l)
    ensures Mean(e).Value? ==> EvalLoop(s, After(s, p, e.l), Mean(e.l).v, err) == EvalLoop(s, After(s, p, e), Mean(e).v, err)
    ensures Mean(e).DividesByZero? ==> EvalLoop(s, After(s, p, e.l), Mean(e.l).v, err).err != 0
    decreases e, 0
  {
    hide Term, TermLoop, EvalLoop, Show, Skip, Wrap, Stands;
    BinPlaced(s, p, e);
    PlacedIn(s, p, e);
    var q := p + |Show(e.l)| + e.spOp;
    TermReads(s, q + 1, e.r, err);
    EvalLoopStep(s, q, Mean(e.l).v, err);
    var t := Term(s, q + 1, err);
    if Mean(e).Value? {
      TermLoopStops(s, After(s, p, e), Mean(e.r).v, err);
      SkipNone(s, After(s, p, e));
      WrapFits(Mean(e).v);
    } else if Mean(e.r).DividesByZero? {
      EvalLoopKeepsError(s, Skip(s, t.pos),
                         Wrap(if e.op == Add then Mean(e.l).v + t.value else Mean(e.l).v - t.value), t.err);
    }
  }

  // ---------------------------------------------------------------- parentheses

  function Nesting(c: char): int { if c == '(' then 1 else if c == ')' then -1 else 0 }

  /** Parentheses opened and not closed in s[p..q]. */
  function Depth(s: string, p: nat, q: nat): int
    requires q <= |s|
    decreases q - p
  {
    if p >= q then 0 else Nesting(s[p]) + Depth(s, p + 1, q)
  }

  /** Every parenthesis of s[p..q] has its partner there. */
  ghost predicate Matched(s: string, p: nat, q: nat) {
    p <= q <= |s| && Depth(s, p, q) == 0 && forall m: nat :: p <= m <= q ==> Depth(s, p, m) >= 0
  }

  lemma {:induction false} DepthJoins(s: string, p: nat, m: nat, q: nat)
    requires p <= m <= q <= |s|
    ensures Depth(s, p, q) == Depth(s, p, m) + Depth(s, m, q)
    decreases m - p
  {
    if p < m { DepthJoins(s, p + 1, m, q); }
  }

  lemma MatchedJoins(s: string, p: nat, m: nat, q: nat)
    requires Matched(s, p, m) && Matched(s, m, q)
    ensures Matched(s, p, q)
  {
    hide Depth;
    DepthJoins(s, p, m, q);
    forall k: nat | p <= k <= q ensures Depth(s, p, k) >= 0 {
      if k > m {
        DepthJoins(s, p, m, k);
        assert Depth(s, m, k) >= 0;
      }
    }
  }

  /** A pair of parentheses around matched text. */
  lemma MatchedPair(s: string, p: nat, q: nat)
    requires p < |s| && s[p] == '(' && Matched(s, p + 1, q) && q < |s| && s[q] == ')'
    ensures Matched(s, p, q + 1)
  {
    hide Depth;
    DepthStep(s, p);
    DepthStep(s, q);
    DepthJoins(s, p, p + 1, q + 1);
    DepthJoins(s, p + 1, q, q + 1);
    forall k: nat | p <= k <= q + 1 ensures Depth(s, p, k) >= 0 {
      if p < k <= q {
        DepthJoins(s, p, p + 1, k);
        assert Depth(s, p + 1, k) >= 0;
      } else if k == p {
        DepthNone(s, p);
      }
    }
  }

  lemma DepthStep(s: string, p: nat)
    requires p < |s|
    ensures Depth(s, p, p + 1) == Nesting(s[p])
  {
    assert Depth(s, p + 1, p + 1) == 0;
  }

  lemma DepthNone(s: string, p: nat)
    requires p <= |s|
    ensures Depth(s, p, p) == 0
  {}

  /** Text without parentheses. */
  lemma {:induction false} FlatMatched(s: string, p: nat, q: nat)
    requires p <= q <= |s| && forall i :: p <= i < q ==> Nesting(s[i]) == 0
    ensures Matched(s, p, q)
    decreases q - p
  {
    if p < q {
      FlatMatched(s, p + 1, q);
      DepthStep(s, p);
      forall k: nat | p <= k <= q ensures Depth(s, p, k) >= 0 {
        if k > p { assert Depth(s, p + 1, k) >= 0; }
      }
    }
  }

  lemma {:induction false} DigitsFlat(s: string, p: nat, hex: bool, n: int)
    requires p <= |s|
    ensures forall i :: p <= i < Digits(s, p, hex, n).1 ==> Nesting(s[i]) == 0
    decreases |s| - p
  {
    var c := At(s, p);
    if (if hex then IsXDigit(c) else IsDigit(c)) {
      DigitsFlat(s, p + 1, hex, Wrap(n * (if hex then 16 else 10) + DigitValue(c)));
    }
  }

  lemma NumberMatched(s: string, p: nat)
    requires p <= |s|
    ensures Matched(s, p, Number(s, p).1)
  {
    hide Digits, Wrap, Depth;
    var p1 := if At(s, p) == '-' then p + 1 else p;
    var hex := At(s, p1) == '0' && At(s, p1 + 1) == 'x';
    DigitsFlat(s, if hex then p1 + 2 else p1, hex, 0);
    FlatMatched(s, p, Number(s, p).1);
  }

  lemma SkipMatched(s: string, p: nat, q: nat)
    requires q <= |s| && Matched(s, p, q)
    ensures Matched(s, p, Skip(s, q))
  {
    hide Skip, Depth;
    FlatMatched(s, q, Skip(s, q));
    MatchedJoins(s, p, q, Skip(s, q));
  }

  /** Whatever is read without error has its parentheses matched. */
  lemma {:induction false} FactorMatched(s: string, p: nat, err: nat)
    requires p <= |s| && Factor(s, p, err).err == 0
    ensures Matched(s, p, Factor(s, p, err).pos)
    decreases |s| - p, 3
  {
    hide Matched, Skip, Number, Eval;
    var p1 := Skip(s, p);
    EmptyMatched(s, p);
    SkipMatched(s, p, p);
    if At(s, p1) == '(' {
      var r := Eval(s, p1 + 1, err);
      EvalMatched(s, p1 + 1, err);
      SkipMatched(s, p1 + 1, r.pos);
      MatchedPair(s, p1, Skip(s, r.pos));
      MatchedJoins(s, p, p1, Skip(s, r.pos) + 1);
    } else {
      NumberMatched(s, p1);
      MatchedJoins(s, p, p1, Number(s, p1).1);
    }
  }

  lemma EmptyMatched(s: string, p: nat)
    requires p <= |s|
    ensures Matched(s, p, p)
  {}

  lemma OperatorMatched(s: string, p: nat, q: nat)
    requires p < |s| && s[p] in "+-*/" && Matched(s, p + 1, q)
    ensures Matched(s, p, q)
  {
    hide Depth;
    FlatMatched(s, p, p + 1);
    MatchedJoins(s, p, p + 1, q);
  }

  lemma {:induction false} TermLoopMatched(s: string, p: nat, value: int, err: nat)
    requires p <= |s| && TermLoop(s, p, value, err).err == 0
    ensures Matched(s, p, TermLoop(s, p, value, err).pos)
    decreases |s| - p, 1
  {
    hide Factor, TermLoop, Skip, Wrap, Quotient, Matched;
    var op := At(s, p);
    if op != '*' && op != '/' {
      TermLoopStops(s, p, value, err);
      EmptyMatched(s, p);
    } else {
      TermLoopStep(s, p, value, err);
      var f := Factor(s, p + 1, err);
      var next := if op == '*' then Wrap(value * f.value) else if f.value == 0 then 0 else Wrap(Quotient(value, f.value));
      if f.err != 0 { TermLoopKeepsError(s, Skip(s, f.pos), next, f.err); }
      FactorMatched(s, p + 1, err);
      SkipMatched(s, p + 1, f.pos);
      OperatorMatched(s, p, Skip(s, f.pos));
      TermLoopMatched(s, Skip(s, f.pos), next, f.err);
      MatchedJoins(s, p, Skip(s, f.pos), TermLoop(s, p, value, err).pos);
    }
  }

  lemma {:induction false} TermMatched(s: string, p: nat, err: nat)
    requires p <= |s| && Term(s, p, err).err == 0
    ensures Matched(s, p, Term(s, p, err).pos)
    decreases |s| - p, 4
  {
    hide Factor, Term, TermLoop, Skip, Matched;
    TermIs(s, p, err);
    var f := Factor(s, p, err);
    if f.err != 0 { TermLoopKeepsError(s, Skip(s, f.pos), f.value, f.err); }
    FactorMatched(s, p, err);
    SkipMatched(s, p, f.pos);
    TermLoopMatched(s, Skip(s, f.pos), f.value, f.err);
    MatchedJoins(s, p, Skip(s, f.pos), Term(s, p, err).pos);
  }

  lemma {:induction false} EvalLoopMatched(s: string, p: nat, value: int, err: nat)
    requires p <= |s| && EvalLoop(s, p, value, err).err == 0
    ensures Matched(s, p, EvalLoop(s, p, value, err).pos)
    decreases |s| - p, 2
  {
    hide Term, EvalLoop, Skip, Wrap, Matched;
    var op := At(s, p);
    if op != '+' && op != '-' {
      EvalLoopStops(s, p, value, err);
      EmptyMatched(s, p);
    } else {
      EvalLoopStep(s, p, value, err);
      var t := Term(s, p + 1, err);
      var next := Wrap(if op == '+' then value + t.value else value - t.value);
      if t.err != 0 { EvalLoopKeepsError(s, Skip(s, t.pos), next, t.err); }
      TermMatched(s, p + 1, err);
      SkipMatched(s, p + 1, t.pos);
      OperatorMatched(s, p, Skip(s, t.pos));
      EvalLoopMatched(s, Skip(s, t.pos), next, t.err);
      MatchedJoins(s, p, Skip(s, t.pos), EvalLoop(s, p, value, err).pos);
    }
  }

  /** For every text: what eval consumes without reporting an error has all its parentheses matched. */
  lemma {:induction false} EvalMatched(s: string, p: nat, err: nat)
    requires p <= |s| && Eval(s, p, err).err == 0
    ensures Matched(s, p, Eval(s, p, err).pos)
    decreases |s| - p, 5
  {
    hide Term, Eval, EvalLoop, Skip, Matched;
    EvalIs(s, p, err);
    var t := Term(s, p, err);
    if t.err != 0 { EvalLoopKeepsError(s, Skip(s, t.pos), t.value, t.err); }
    TermMatched(s, p, err);
    SkipMatched(s, p, t.pos);
    EvalLoopMatched(s, Skip(s, t.pos), t.value, t.err);
    MatchedJoins(s, p, Skip(s, t.pos), Eval(s, p, err).pos);
  }

  /** Every text whose first parenthesis is never closed is reported as an error. */
  lemma LacksClosing(s: string, p: nat)
    requires p < |s| && s[p] == '(' && forall q: nat :: p < q <= |s| ==> Depth(s, p, q) > 0
    ensures Eval(s, p, 0).err != 0
  {
    hide Eval, Term, TermLoop, EvalLoop, Depth;
    SkipNone(s, p);
    TermIs(s, p, 0);
    EvalIs(s, p, 0);
    if Eval(s, p, 0).err == 0 { EvalMatched(s, p, 0); }
  }

  // ---------------------------------------------------------------- whole inputs

  /** A continuation that no expression can go on into. */
  predicate Stops(rest: string) {
    rest == "" || (Boundary(rest, 0) && rest[0] !in " +-*/")
  }

  /**
   For every expression, however spaced and with whatever extra parentheses, the evaluator consumes
   exactly its text and returns its value with no error; if a divisor on the way is zero it reports
   an error.
   */
  lemma EvalOfText(e: Expr, trailing: nat, rest: string)
    requires WellFormed(e) && Stops(rest)
    ensures var r := Eval(Show(e) + Spaces(trailing) + rest, 0, 0);
            && (Mean(e).Value? ==> r == Result(Mean(e).v, |Show(e)| + trailing, 0))
            && (Mean(e).DividesByZero? ==> r.err != 0)
  {
    hide Eval, EvalLoop, Show, Skip, Mean, WellFormed;
    var s := Show(e) + Spaces(trailing) + rest;
    assert Stands(s, 0, Show(e));
    assert trailing > 0 ==> At(s, |Show(e)|) == ' ';
    assert rest != "" ==> At(s, |Show(e)| + trailing) == rest[0];
    assert Stands(s, |Show(e)|, Spaces(trailing));
    SkipSpaces(s, |Show(e)|, trailing);
    EvalReads(s, 0, e, 0);
    if Mean(e).Value? {
      EvalLoopStops(s, |Show(e)| + trailing, Mean(e).v, 0);
    }
  }

  /** An expression without parentheses of its own. */
  datatype Ast = Leaf(lit: Literal) | Node(op: Op, l: Ast, r: Ast)

  predicate GoodAst(a: Ast) {
    match a
    case Leaf(lit) => GoodLiteral(lit)
    case Node(_, l, r) => GoodAst(l) && GoodAst(r)
  }

  function AtLevel(e: Expr, level: nat): Expr { if Level(e) >= level then e else Paren(0, e, 0) }

  /** Parentheses only where they are needed. */
  function Print(a: Ast): Expr {
    match a
    case Leaf(lit) => Num(0, lit)
    case Node(op, l, r) =>
      var level := if op == Mul || op == Div then 2 else 1;
      Bin(op, AtLevel(Print(l), level), 0, AtLevel(Print(r), level + 1))
  }

  function Combine(op: Op, a: Meaning, b: Meaning): Meaning {
    if !a.Value? then a
    else if !b.Value? then b
    else if op == Div && b.v == 0 then DividesByZero
    else if In32(Apply(op, a.v, b.v)) then Value(Apply(op, a.v, b.v))
    else Overflows
  }

  function AstMean(a: Ast): Meaning
    requires GoodAst(a)
  {
    match a
    case Leaf(lit) => if Magnitude(lit.digits, lit.hex) <= MAX then Value(LiteralValue(lit)) else Overflows
    case Node(op, l, r) => Combine(op, AstMean(l), AstMean(r))
  }

  lemma {:induction false} PrintMeans(a: Ast)
    requires GoodAst(a)
    ensures WellFormed(Print(a)) && Mean(Print(a)) == AstMean(a)
    decreases a
  {
    if a.Node? {
      PrintMeans(a.l);
      PrintMeans(a.r);
    }
  }

  /** A parenthesis that is opened and not closed is reported, as error 1. */
  lemma UnclosedFails(e: Expr, trailing: nat, rest: string)
    requires WellFormed(e) && Mean(e).Value? && Stops(rest) && (rest == "" || rest[0] != ')')
    ensures Eval("(" + (Show(e) + Spaces(trailing) + rest), 0, 0).err == 1
  {
    hide Eval, EvalLoop, Term, TermLoop, Show, Skip, Mean, WellFormed, Stops;
    var s := "(" + (Show(e) + Spaces(trailing) + rest);
    var end := 1 + |Show(e)| + trailing;
    UnclosedInner(s, e, trailing, rest);
    SkipNone(s, 0);
    SkipNone(s, end);
    assert Factor(s, 0, 0) == Result(Mean(e).v, end, 1);
    TermIs(s, 0, 0);
    EvalIs(s, 0, 0);
    TermLoopStops(s, end, Mean(e).v, 1);
    EvalLoopStops(s, end, Mean(e).v, 1);
  }

  lemma UnclosedInner(s: string, e: Expr, trailing: nat, rest: string)
    requires WellFormed(e) && Mean(e).Value? && Stops(rest) && (rest == "" || rest[0] != ')')
    requires s == "(" + (Show(e) + Spaces(trailing) + rest)
    ensures 1 + |Show(e)| + trailing <= |s| && At(s, 0) == '('
    ensures At(s, 1 + |Show(e)| + trailing) !in " +-*/)"
    ensures Eval(s, 1, 0) == Result(Mean(e).v, 1 + |Show(e)| + trailing, 0)
  {
    hide Eval, EvalLoop, Show, Skip, Mean, WellFormed, Stands, Boundary, Spaces;
    UnclosedText(s, Show(e), trailing, rest);
    SkipSpaces(s, 1 + |Show(e)|, trailing);
    EvalReads(s, 1, e, 0);
    EvalLoopStops(s, 1 + |Show(e)| + trailing, Mean(e).v, 0);
  }

  lemma UnclosedText(s: string, shown: string, trailing: nat, rest: string)
    requires s == "(" + (shown + Spaces(trailing) + rest) && Stops(rest)
    ensures At(s, 0) == '(' && Stands(s, 1, shown) && Stands(s, 1 + |shown|, Spaces(trailing))
    ensures Boundary(s, 1 + |shown|)
    ensures 1 + |shown| + trailing <= |s| && At(s, 1 + |shown| + trailing) == At(rest, 0)
  {
    assert At(s, 1 + |shown|) == if trailing > 0 then ' ' else At(rest, 0);
  }

  /** A division by zero is reported, as error 2, with the value 0. */
  lemma DivisionFails(e: Expr)
    requires e.Bin? && e.op == Div && WellFormed(e) && Mean(e.l).Value? && Mean(e.r) == Value(0)
    ensures Eval(Show(e), 0, 0) == Result(0, |Show(e)|, 2)
  {
    hide Eval, EvalLoop, Term, TermLoop, Factor, Show, Skip, Mean, WellFormed;
    var s := Show(e);
    assert Stands(s, 0, Show(e));
    WholePlaced(e);
    BinPlaced(s, 0, e);
    DivisionParts(e);
    var q := |Show(e.l)| + e.spOp;
    TermReads(s, 0, e.l, 0);
    FactorReads(s, q + 1, e.r, 0);
    TermLoopStep(s, q, Mean(e.l).v, 0);
    EvalIs(s, 0, 0);
    SkipNone(s, |s|);
    EvalLoopStops(s, |s|, 0, 2);
  }

  lemma WholePlaced(e: Expr)
    ensures Placed(Show(e), 0, e)
  {
    hide Show;
  }

  lemma DivisionParts(e: Expr)
    requires e.Bin? && e.op == Div && WellFormed(e)
    ensures WellFormed(e.l) && WellFormed(e.r) && Level(e.l) >= 2 && Level(e.r) == 3
  {}

  /** Printing a tree and evaluating the text gives the tree's value. */
  lemma PrintThenEval(a: Ast)
    requires GoodAst(a)
    ensures var r := Eval(Show(Print(a)), 0, 0);
            && (AstMean(a).Value? ==> r == Result(AstMean(a).v, |Show(Print(a))|, 0))
            && (AstMean(a).DividesByZero? ==> r.err != 0)
  {
    hide Eval, Show, Mean, AstMean, Print;
    PrintMeans(a);
    EvalOfText(Print(a), 0, "");
    assert Show(Print(a)) + Spaces(0) + "" == Show(Print(a));
  }

  // ---------------------------------------------------------------- the program

  /** expr_t: the text, the cursor and the error flag. */
  class Cursor {
    const text: string
    var pos: nat
    var err: nat

    ghost predicate Ok() reads this { pos <= |text| }

    constructor (text: string)
      ensures this.text == text && pos == 0 && err == 0
    {
      this.text := text;
      pos, err := 0, 0;
    }

    method SkipSpace()
      requires Ok()
      modifies this`pos
      ensures Ok() && pos == Skip(text, old(pos))
    {
      while At(text, pos) == ' '
        invariant Ok() && Skip(text, pos) == Skip(text, old(pos))
        decreases |text| - pos
      {
        pos := pos + 1;
      }
    }

    method ReadNumber() returns (value: int)
      requires Ok()
      modifies this`pos
      ensures Ok() && (value, pos) == Number(text, old(pos))
    {
      hide Digits, Wrap;
      var neg := false;
      if At(text, pos) == '-' {
        neg := true;
        pos := pos + 1;
      }
      var n := 0;
      if At(text, pos) == '0' && At(text, pos + 1) == 'x' {
        pos := pos + 2;
        ghost var start := pos;
        while IsXDigit(At(text, pos))
          invariant Ok() && Digits(text, pos, true, n) == Digits(text, start, true, 0)
          decreases |text| - pos
        {
          DigitsStep(text, pos, true, n);
          n := Wrap(n * 16 + DigitValue(At(text, pos)));
          pos := pos + 1;
        }
      } else {
        ghost var start := pos;
        while IsDigit(At(text, pos))
          invariant Ok() && Digits(text, pos, false, n) == Digits(text, start, false, 0)
          decreases |text| - pos
        {
          DigitsStep(text, pos, false, n);
          n := Wrap(n * 10 + DigitValue(At(text, pos)));
          pos := pos + 1;
        }
      }
      DigitsEnd(text, pos, n);
      value := if neg then Wrap(-n) else n;
    }

    method ReadFactor() returns (value: int)
      requires Ok()
      modifies this`pos, this`err
      ensures Ok() && Result(value, pos, err) == Factor(text, old(pos), old(err))
      decreases |text| - pos, 1
    {
      hide Eval, Number, Skip;
      SkipSpace();
      if At(text, pos) == '(' {
        pos := pos + 1;
        value := Evaluate();
        SkipSpace();
        if At(text, pos) == ')' {
          pos := pos + 1;
        } else {
          err := 1;
        }
        return;
      }
      value := ReadNumber();
    }

    method ReadTerm() returns (value: int)
      requires Ok()
      modifies this`pos, this`err
      ensures Ok() && Result(value, pos, err) == Term(text, old(pos), old(err))
      decreases |text| - pos, 2
    {
      hide Factor, Term, TermLoop, Skip, Wrap, Quotient;
      TermIs(text, pos, err);
      value := ReadFactor();
      SkipSpace();
      while At(text, pos) == '*' || At(text, pos) == '/'
        invariant Ok() && pos >= old(pos)
        invariant TermLoop(text, pos, value, err) == Term(text, old(pos), old(err))
        decreases |text| - pos
      {
        TermLoopStep(text, pos, value, err);
        var op := At(text, pos);
        pos := pos + 1;
        var num := ReadFactor();
        if op == '*' {
          value := Wrap(value * num);
        } else if op == '/' {
          if num == 0 {
            err := 2;
            return 0;
          }
          value := Wrap(Quotient(value, num));
        }
        SkipSpace();
      }
      TermLoopStops(text, pos, value, err);
    }

    method Evaluate() returns (value: int)
      requires Ok()
      modifies this`pos, this`err
      ensures Ok() && Result(value, pos, err) == Eval(text, old(pos), old(err))
      decreases |text| - pos, 3
    {
      hide Term, Eval, EvalLoop, Skip, Wrap;
      EvalIs(text, pos, err);
      value := ReadTerm();
      SkipSpace();
      while At(text, pos) == '+' || At(text, pos) == '-'
        invariant Ok() && pos >= old(pos)
        invariant EvalLoop(text, pos, value, err) == Eval(text, old(pos), old(err))
        decreases |text| - pos
      {
        EvalLoopStep(text, pos, value, err);
        var op := At(text, pos);
        pos := pos + 1;
        var num := ReadTerm();
        if op == '+' {
          value := Wrap(value + num);
        } else if op == '-' {
          value := Wrap(value - num);
        }
        SkipSpace();
      }
      EvalLoopStops(text, pos, value, err);
    }
  }
}
