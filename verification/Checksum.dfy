/**
 The Internet checksum of ipv4_checksum, against the one's-complement sum of RFC 1071 section 2.
 */
module Checksum {
  import Align
  import opened Common

  type word = x: nat | x < 0x1_0000

  // ---------------------------------------------------------------- words in memory

  /** The 16-bit word of a little-endian machine. */
  function WordOf(lo: byte, hi: byte): word { lo + 256 * hi }

  /** Word i; the odd last byte counts as the low byte of one more word. */
  function WordAt(data: seq<byte>, i: nat): word
    requires 2 * i < |data|
  {
    if 2 * i + 1 < |data| then WordOf(data[2 * i], data[2 * i + 1]) else data[2 * i]
  }

  function Words(data: seq<byte>): nat { (|data| + 1) / 2 }

  /** swap16 */
  function Swap(x: word): word { x % 256 * 256 + x / 256 }

  /** The sum of the first n words, without bound. */
  function Total(data: seq<byte>, n: nat): nat
    requires n <= Words(data)
  {
    if n == 0 then 0 else Total(data, n - 1) + WordAt(data, n - 1)
  }

  /** The one's-complement value of a sum: 0 only for 0, otherwise its residue in 1 .. 0xFFFF. */
  function Ones(t: nat): word { if t == 0 then 0 else (t - 1) % 0xFFFF + 1 }

  /** What RFC 1071 asks for: the complement of the one's-complement sum of all words. */
  function Sum16(data: seq<byte>): word { 0xFFFF - Ones(Total(data, Words(data))) }

  // ---------------------------------------------------------------- the code

  function Fold(sum: nat): nat { if sum > 0xFFFF then sum % 0x1_0000 + sum / 0x1_0000 else sum }

  /** Folding once after each addition keeps the one's-complement sum, in 16 bits. */
  lemma FoldAdds(t: nat, w: word)
    ensures Fold(Ones(t) + w) == Ones(t + w)
  {
    if t > 0 {
      var q, r := (t - 1) / 0xFFFF, (t - 1) % 0xFFFF;
      assert t + w == q * 0xFFFF + (r + 1 + w);
      Residue(q, r + 1 + w);
    }
  }

  lemma Residue(q: nat, x: nat)
    requires 0 < x <= 2 * 0xFFFF
    ensures Ones(q * 0xFFFF + x) == if x > 0xFFFF then x - 0xFFFF else x
  {
    if x > 0xFFFF {
      Align.DivModUnique(q * 0xFFFF + x - 1, 0xFFFF, q + 1, x - 1 - 0xFFFF);
    } else {
      Align.DivModUnique(q * 0xFFFF + x - 1, 0xFFFF, q, x - 1);
    }
  }

  /** ipv4_checksum */
  method Ipv4Checksum(data: seq<byte>) returns (c: word)
    ensures c == Sum16(data)
  {
    hide Ones, Fold;
    var length := |data|;
    var sum: nat := 0;
    OnesZero();
    for i := 0 to length / 2
      invariant sum == Ones(Total(data, i)) <= 0xFFFF
    {
      FoldAdds(Total(data, i), WordAt(data, i));
      sum := sum + WordOf(data[2 * i], data[2 * i + 1]);
      sum := Fold(sum);
    }
    if length % 2 == 1 {
      FoldAdds(Total(data, length / 2), WordAt(data, length / 2));
      sum := sum + data[length - 1];
      sum := Fold(sum);
    }
    c := 0xFFFF - sum;
  }

  lemma OnesZero()
    ensures Ones(0) == 0
  {}

  // ---------------------------------------------------------------- byte order

  predicate Swapped(a: seq<byte>, b: seq<byte>) {
    |a| == |b| && |a| % 2 == 0 && forall i :: 0 <= i < |a| / 2 ==> SwappedAt(a, b, i)
  }

  predicate SwappedAt(a: seq<byte>, b: seq<byte>, i: nat)
    requires |a| == |b| && 2 * i + 1 < |a|
  {
    b[2 * i] == a[2 * i + 1] && b[2 * i + 1] == a[2 * i]
  }

  /** Swapping multiplies by 256, up to multiples of 0xFFFF. */
  lemma SwapIs(x: word)
    ensures 256 * x == Swap(x) + 0xFFFF * (x / 256)
    ensures Swap(x) == 0 <==> x == 0
    ensures Swap(Swap(x)) == x
  {}

  lemma SwappedWord(a: seq<byte>, b: seq<byte>, i: nat)
    requires Swapped(a, b) && i < |a| / 2
    ensures WordAt(b, i) == Swap(WordAt(a, i))
  {
    assert SwappedAt(a, b, i);
    Align.DivModUnique(WordAt(a, i), 256, a[2 * i + 1], a[2 * i]);
  }

  /** Some multiple of 0xFFFF lies between 256 times the sum and the sum of the swapped words. */
  lemma {:induction false} SwappedTotal(a: seq<byte>, b: seq<byte>, n: nat) returns (k: nat)
    requires Swapped(a, b) && n <= |a| / 2
    ensures 256 * Total(a, n) == Total(b, n) + 0xFFFF * k
    ensures Total(b, n) == 0 <==> Total(a, n) == 0
    decreases n
  {
    hide Swap, WordAt, Swapped;
    if n == 0 {
      k := 0;
    } else {
      var j := SwappedTotal(a, b, n - 1);
      SwappedWord(a, b, n - 1);
      var x := WordAt(a, n - 1);
      SwapIs(x);
      k := j + x / 256;
    }
  }

  lemma OnesIs(t: nat) returns (q: nat)
    ensures t == q * 0xFFFF + Ones(t) && (Ones(t) == 0 <==> t == 0)
  {
    q := if t == 0 then 0 else (t - 1) / 0xFFFF;
  }

  /** The checksum does not depend on the machine's byte order. */
  lemma SwapCommutes(a: seq<byte>, b: seq<byte>)
    requires Swapped(a, b)
    ensures Sum16(b) == Swap(Sum16(a))
  {
    hide Ones, Total, Swap;
    var n := Words(a);
    var k: int := SwappedTotal(a, b, n);
    var q: int := OnesIs(Total(a, n));
    var p: int := OnesIs(Total(b, n));
    var x, y := Ones(Total(a, n)), Ones(Total(b, n));
    SwapIs(x);
    assert y - Swap(x) == 0xFFFF * (256 * q - k - p + x / 256);
    SameResidue(y, Swap(x), 256 * q - k - p + x / 256);
    SwapComplement(x);
  }

  /** Two words that are both zero or both not are equal when they differ by a multiple of 0xFFFF. */
  lemma SameResidue(x: word, y: word, k: int)
    requires x - y == 0xFFFF * k && (x == 0 <==> y == 0)
    ensures x == y
  {}

  lemma SwapComplement(x: word)
    ensures Swap(0xFFFF - x) == 0xFFFF - Swap(x)
  {
    var lo, hi := x % 256, x / 256;
    Align.DivModUnique(0xFFFF - x, 256, 255 - hi, 255 - lo);
  }

  // ---------------------------------------------------------------- verifying

  /** The data with a word stored in native order. */
  function Store(data: seq<byte>, i: nat, w: word): (r: seq<byte>)
    requires 2 * i + 1 < |data|
    ensures |r| == |data|
  {
    data[2 * i := w % 256][2 * i + 1 := w / 256]
  }

  lemma {:induction false} StoreTotal(data: seq<byte>, i: nat, w: word, n: nat)
    requires 2 * i + 1 < |data| && n <= Words(data) && WordAt(data, i) == 0
    ensures Total(Store(data, i, w), n) == Total(data, n) + (if i < n then w else 0)
    decreases n
  {
    if n > 0 {
      StoreTotal(data, i, w, n - 1);
      StoreWord(data, i, w, n - 1);
    }
  }

  lemma StoreWord(data: seq<byte>, i: nat, w: word, k: nat)
    requires 2 * i + 1 < |data| && 2 * k < |data|
    ensures WordAt(Store(data, i, w), k) == if k == i then w else WordAt(data, k)
  {}

  /**
   Data whose field was zero and now holds a word: a second run gives 0 exactly when that word
   is the checksum, or the other zero of one's complement in its place.
   */
  lemma VerifiesIff(data: seq<byte>, i: nat, w: word)
    requires 2 * i + 1 < |data| && WordAt(data, i) == 0
    ensures Sum16(Store(data, i, w)) == 0 <==> w == Sum16(data) || (w == 0xFFFF && Sum16(data) == 0)
  {
    hide Ones, Total, Store, Fold, WordAt;
    var n := Words(data);
    StoreTotal(data, i, w, n);
    FoldAdds(Total(data, n), w);
    FoldFull(Ones(Total(data, n)), w);
  }

  lemma FoldFull(x: word, w: word)
    ensures Fold(x + w) == 0xFFFF <==> x + w == 0xFFFF || x + w == 2 * 0xFFFF
  {}
}
