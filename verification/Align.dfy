/** Rounding of 64-bit addresses to a multiple of an alignment. */
module Align {
  import opened Common

  /** aalign: the product wraps around at 64 bits. */
  function Up(addr: nat, alignment: nat): (r: nat) {
    if alignment == 0 || addr % alignment == 0 then addr
    else ((addr / alignment + 1) * alignment) % WORD_64
  }

  /** aalign_down */
  function Down(addr: nat, alignment: nat): (r: nat) {
    if alignment == 0 || addr % alignment == 0 then addr else (addr / alignment) * alignment
  }

  /** Up gives the least multiple not below addr, unless that multiple does not fit in 64 bits. */
  lemma UpIsLeast(addr: nat, alignment: nat)
    requires alignment > 0 && addr + alignment <= WORD_64
    ensures Up(addr, alignment) % alignment == 0
    ensures addr <= Up(addr, alignment) < addr + alignment
  {
    var q := addr / alignment;
    assert addr == q * alignment + addr % alignment;
    if addr % alignment != 0 {
      MultipleMod(q + 1, alignment);
      assert (q + 1) * alignment == q * alignment + alignment;
      if (q + 1) * alignment < WORD_64 {
        SmallMod((q + 1) * alignment, WORD_64);
      }
    }
  }

  lemma MultipleMod(k: nat, d: nat)
    requires d > 0
    ensures (k * d) % d == 0
  {
    if k > 0 {
      MultipleMod(k - 1, d);
      assert k * d == (k - 1) * d + d;
      AddMod((k - 1) * d, d);
    }
  }

  lemma AddMod(x: nat, d: nat)
    requires d > 0
    ensures (x + d) % d == x % d
  {
    var q := x / d;
    assert x + d == (q + 1) * d + x % d;
    DivModUnique(x + d, d, q + 1, x % d);
  }

  lemma DivModUnique(x: nat, d: nat, q: nat, r: nat)
    requires d > 0 && r < d && x == q * d + r
    ensures x / d == q && x % d == r
  {
    var q', r' := x / d, x % d;
    assert x == q' * d + r';
    assert (q - q') * d == q * d - q' * d;
    if q' < q {
      AtLeastOnce(q - q', d);
    } else if q' > q {
      assert (q' - q) * d == q' * d - q * d;
      AtLeastOnce(q' - q, d);
    }
  }

  lemma AtLeastOnce(k: nat, d: nat)
    requires k > 0
    ensures k * d >= d
  {}

  lemma SmallMod(x: nat, d: nat)
    requires x < d
    ensures x % d == x
  {}
}
