/** Unsigned 64-bit words and the bit operations the replay window uses, defined on binary digits. */
module Word64 {
  const TWO_63: int := 0x8000_0000_0000_0000
  const TWO_64: int := 0x1_0000_0000_0000_0000

  type u64 = x: int | 0 <= x < TWO_64

  function Bit(a: nat, i: nat): bool {
    if i == 0 then a % 2 == 1 else Bit(a / 2, i - 1)
  }

  function Or(a: nat, b: nat): nat {
    if a == 0 && b == 0 then 0
    else 2 * Or(a / 2, b / 2) + if a % 2 == 1 || b % 2 == 1 then 1 else 0
  }

  function And(a: nat, b: nat): nat {
    if a == 0 || b == 0 then 0
    else 2 * And(a / 2, b / 2) + if a % 2 == 1 && b % 2 == 1 then 1 else 0
  }

  /** `a << s`: the bits pushed past bit 63 are lost. */
  function Shl(a: u64, s: nat): u64
    decreases s
  {
    if s == 0 then a else Shl(2 * a % TWO_64, s - 1)
  }

  function Pow2(n: nat): nat { if n == 0 then 1 else 2 * Pow2(n - 1) }

  lemma Pow2Eight(n: nat)
    ensures Pow2(n + 8) == 256 * Pow2(n)
  {
    assert Pow2(n + 2) == 4 * Pow2(n);
    assert Pow2(n + 4) == 4 * Pow2(n + 2);
    assert Pow2(n + 6) == 4 * Pow2(n + 4);
    assert Pow2(n + 8) == 4 * Pow2(n + 6);
  }

  lemma Pow2Word()
    ensures Pow2(63) == TWO_63 && Pow2(64) == TWO_64
  {
    assert Pow2(0) == 1;
    Pow2Eight(0);
    Pow2Eight(8);
    Pow2Eight(16);
    Pow2Eight(24);
    Pow2Eight(32);
    Pow2Eight(40);
    Pow2Eight(48);
    Pow2Eight(56);
    assert Pow2(64) == 2 * Pow2(63);
  }

  lemma {:induction false} ZeroBits(i: nat)
    ensures !Bit(0, i)
  {
    if i > 0 { ZeroBits(i - 1); }
  }

  lemma {:induction false} OrBit(a: nat, b: nat, i: nat)
    ensures Bit(Or(a, b), i) <==> Bit(a, i) || Bit(b, i)
    decreases i
  {
    if a == 0 && b == 0 {
      ZeroBits(i);
    } else if i > 0 {
      OrBit(a / 2, b / 2, i - 1);
    }
  }

  lemma {:induction false} AndBit(a: nat, b: nat, i: nat)
    ensures Bit(And(a, b), i) <==> Bit(a, i) && Bit(b, i)
    decreases i
  {
    if a == 0 || b == 0 {
      ZeroBits(i);
    } else if i > 0 {
      AndBit(a / 2, b / 2, i - 1);
    }
  }

  lemma {:induction false} OrFits(a: nat, b: nat, n: nat)
    requires a < Pow2(n) && b < Pow2(n)
    ensures Or(a, b) < Pow2(n)
  {
    if n > 0 { OrFits(a / 2, b / 2, n - 1); }
  }

  lemma OrIsWord(a: u64, b: u64)
    ensures Or(a, b) < TWO_64
  {
    Pow2Word();
    OrFits(a, b, 64);
  }

  /** Dropping a high digit leaves the lower ones alone. */
  lemma {:induction false} DropHighBit(a: nat, w: nat, i: nat)
    requires Pow2(w) <= a && i < w
    ensures Bit(a - Pow2(w), i) <==> Bit(a, i)
  {
    assert Pow2(w) == 2 * Pow2(w - 1);
    if i > 0 {
      assert (a - Pow2(w)) / 2 == a / 2 - Pow2(w - 1);
      DropHighBit(a / 2, w - 1, i - 1);
    }
  }

  lemma DoubleBit(a: u64, i: nat)
    requires i < 64
    ensures Bit(2 * a % TWO_64, i) <==> i > 0 && Bit(a, i - 1)
  {
    Pow2Word();
    if i > 0 && a >= TWO_63 { DropHighBit(a, 63, i - 1); }
  }

  lemma {:induction false} ShlBit(a: u64, s: nat, i: nat)
    requires i < 64
    ensures Bit(Shl(a, s), i) <==> s <= i && Bit(a, i - s)
    decreases s
  {
    if s > 0 {
      ShlBit(2 * a % TWO_64, s - 1, i);
      if s - 1 <= i { DoubleBit(a, i - (s - 1)); }
    }
  }

  lemma OneBit(i: nat)
    ensures Bit(1, i) <==> i == 0
  {
    if i > 0 { ZeroBits(i - 1); }
  }

  /** `1 << d` has bit `d` and no other. */
  lemma MaskBit(d: nat, i: nat)
    requires d < 64 && i < 64
    ensures Bit(Shl(1, d), i) <==> i == d
  {
    ShlBit(1, d, i);
    if d <= i { OneBit(i - d); }
  }

  /** A word is zero iff none of its bits is set. */
  lemma {:induction false} SomeBit(a: nat, n: nat) returns (i: nat)
    requires 0 < a < Pow2(n)
    ensures i < n && Bit(a, i)
  {
    if a % 2 == 1 {
      i := 0;
    } else {
      i := SomeBit(a / 2, n - 1);
      i := i + 1;
    }
  }

  lemma {:induction false} AndFits(a: nat, b: nat, n: nat)
    requires a < Pow2(n)
    ensures And(a, b) < Pow2(n)
  {
    if n > 0 { AndFits(a / 2, b / 2, n - 1); }
  }

  /** The test `a & (1 << d) == 0` reads bit `d`. */
  lemma TestBit(a: u64, d: nat)
    requires d < 64
    ensures And(a, Shl(1, d)) == 0 <==> !Bit(a, d)
  {
    Pow2Word();
    AndBit(a, Shl(1, d), d);
    MaskBit(d, d);
    AndFits(a, Shl(1, d), 64);
    if And(a, Shl(1, d)) == 0 {
      ZeroBits(d);
    } else {
      var i := SomeBit(And(a, Shl(1, d)), 64);
      AndBit(a, Shl(1, d), i);
      MaskBit(d, i);
    }
  }
}
