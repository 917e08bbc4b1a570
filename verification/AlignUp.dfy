/** align_up_pow2 of the kernel's core definitions: smearing the top bit downwards. */
module AlignUp {
  import opened Bits

  function Or(a: nat, b: nat): nat {
    if a == 0 then b else if b == 0 then a
    else 2 * Or(a / 2, b / 2) + (if a % 2 + b % 2 > 0 then 1 else 0)
  }

  function Shr(x: nat, s: nat): nat {
    if s == 0 then x else Shr(x / 2, s - 1)
  }

  // x |= x >> s
  function Smear(x: nat, s: nat): nat {
    Or(x, Shr(x, s))
  }

  function AlignUpPow2(v: nat): nat {
    if v == 0 then 1
    else (Smear(Smear(Smear(Smear(Smear(v - 1, 1), 2), 4), 8), 16) + 1) % 0x1_0000_0000
  }

  // The m highest of the k digits of x are ones.
  predicate TopOnes(x: nat, k: nat, m: nat) {
    if m < k then Shr(x, k - m) == Pow2(m) - 1 else x == Pow2(k) - 1
  }

  // For every 32-bit value: the least power of two not below it, or 0 when that is 2^32.
  lemma AlignUpLeast(v: nat)
    requires v < 0x1_0000_0000
    ensures v > 0x8000_0000 ==> AlignUpPow2(v) == 0
    ensures v <= 0x8000_0000 ==> IsPow2(AlignUpPow2(v)) && v <= AlignUpPow2(v) <= 0x8000_0000
    ensures v <= 0x8000_0000 ==> forall q: nat :: IsPow2(q) && v <= q ==> AlignUpPow2(v) <= q
  {
    hide Smear, Pow2, TopOnes, IsPow2, Log2;
    Pow2Values();
    if v <= 1 {
      Log2Pow2(0);
      Pow2Step(0);
      if v == 1 { SmearZero(); }
      assert AlignUpPow2(v) == 1;
      forall q: nat | IsPow2(q) ensures 1 <= q { Pow2Log2(q); }
    } else {
      var k := Log2(v - 1) + 1;
      Pow2Step(k);
      if k > 32 { Pow2Mono(32, k - 1); }
      SmearAll(v - 1, k);
      Log2Pow2(k);
      if v > 0x8000_0000 {
        if k < 32 { Pow2Mono(k, 31); }
        assert AlignUpPow2(v) == 0;
      } else {
        Pow2Mono(k, 31);
        assert AlignUpPow2(v) == Pow2(k);
        forall q: nat | IsPow2(q) && v <= q ensures Pow2(k) <= q {
          Pow2Log2(q);
          if Log2(q) < k { Pow2Mono(Log2(q), k - 1); }
          Pow2Mono(k, Log2(q));
        }
      }
    }
  }

  lemma SmearAll(x: nat, k: nat)
    requires 0 < k <= 32 && Pow2(k - 1) <= x < Pow2(k)
    ensures Smear(Smear(Smear(Smear(Smear(x, 1), 2), 4), 8), 16) == Pow2(k) - 1
  {
    hide Smear, Pow2;
    FirstOne(x, k);
    var x1 := SmearStep(x, k, 1);
    var x2 := SmearStep(x1, k, 2);
    var x3 := SmearStep(x2, k, 4);
    var x4 := SmearStep(x3, k, 8);
    var x5 := SmearStep(x4, k, 16);
  }

  // One smearing step doubles the number of ones at the top.
  lemma SmearStep(x: nat, k: nat, m: nat) returns (y: nat)
    requires TopOnes(x, k, m)
    ensures y == Smear(x, m) && TopOnes(y, k, 2 * m)
  {
    hide Pow2, Or, Shr;
    y := Smear(x, m);
    if k <= m {
      ShrSmall(k, m);
      OrZero(x);
    } else if k <= 2 * m {
      var d := k - m;
      ShrAdd(x, d, m - d);
      ShrMask(m, m - d);
      OrLow(x, d);
      Pow2Sum(m, d);
    } else {
      var e := k - 2 * m;
      ShrOr(x, Shr(x, m), e);
      ShrAdd(x, m, e);
      ShrAdd(x, e, m);
      OrLow(Shr(x, e), m);
      Pow2Sum(m, m);
    }
  }

  lemma FirstOne(x: nat, k: nat)
    requires 0 < k && Pow2(k - 1) <= x < Pow2(k)
    ensures TopOnes(x, k, 1)
  {
    hide Shr;
    ShrDiv(x, k - 1);
    ModUnique(x, Pow2(k - 1), 1, x - Pow2(k - 1));
    assert k == 1 ==> x == 1;
  }

  lemma {:induction false} ShrDiv(x: nat, s: nat)
    ensures Shr(x, s) == x / Pow2(s)
  {
    if s > 0 {
      ShrDiv(x / 2, s - 1);
      HalfDiv(x, Pow2(s - 1));
    }
  }

  lemma HalfDiv(x: nat, d: nat)
    requires d > 0
    ensures x / 2 / d == x / (2 * d)
  {
    var h := x / 2;
    var q, r := h / d, h % d;
    DivMod(h, d);
    TwiceProduct(d, q);
    ModUnique(x, 2 * d, q, 2 * r + x % 2);
  }

  lemma TwiceProduct(d: nat, q: nat)
    ensures 2 * d * q == 2 * (d * q)
  {
  }

  lemma {:induction false} ShrAdd(x: nat, a: nat, b: nat)
    ensures Shr(Shr(x, a), b) == Shr(x, a + b)
  {
    if a > 0 { ShrAdd(x / 2, a - 1, b); }
  }

  lemma {:induction false} ShrOr(a: nat, b: nat, s: nat)
    ensures Shr(Or(a, b), s) == Or(Shr(a, s), Shr(b, s))
  {
    if s > 0 {
      assert Or(a, b) / 2 == Or(a / 2, b / 2);
      ShrOr(a / 2, b / 2, s - 1);
    }
  }

  lemma {:induction false} ShrMask(m: nat, s: nat)
    requires s <= m
    ensures Shr(Pow2(m) - 1, s) == Pow2(m - s) - 1
  {
    if s > 0 {
      assert (Pow2(m) - 1) / 2 == Pow2(m - 1) - 1;
      ShrMask(m - 1, s - 1);
    }
  }

  lemma {:induction false} ShrSmall(k: nat, s: nat)
    requires k <= s
    ensures Shr(Pow2(k) - 1, s) == 0
  {
    if k > 0 {
      assert (Pow2(k) - 1) / 2 == Pow2(k - 1) - 1;
      ShrSmall(k - 1, s - 1);
    } else if s > 0 {
      ShrSmall(0, s - 1);
    }
  }

  lemma OrZero(x: nat)
    ensures Or(x, 0) == x
  {
  }

  lemma Twice(a: nat, b: nat)
    ensures a * (2 * b) == 2 * (a * b)
  {
  }

  // Setting the m lowest digits.
  lemma {:induction false} OrLow(z: nat, m: nat)
    ensures Or(z, Pow2(m) - 1) == Shr(z, m) * Pow2(m) + Pow2(m) - 1
  {
    hide Shr, Or, Pow2;
    Pow2Step(m);
    OrZero(z);
    ShrStep(z, m);
    if m > 0 {
      var w := Pow2(m - 1);
      OrLow(z / 2, m - 1);
      OrOdd(z, w - 1);
      Twice(Shr(z, m), w);
    }
  }

  lemma OrOdd(z: nat, b: nat)
    ensures Or(z, 2 * b + 1) == 2 * Or(z / 2, b) + 1
  {
    assert (2 * b + 1) / 2 == b && (2 * b + 1) % 2 == 1;
    assert Or(0, b) == b;
  }

  lemma ShrStep(z: nat, m: nat)
    ensures Shr(z, m) == if m == 0 then z else Shr(z / 2, m - 1)
  {
  }

  lemma {:induction false} Pow2Sum(a: nat, b: nat)
    ensures (Pow2(a) - 1) * Pow2(b) + Pow2(b) == Pow2(a + b)
  {
    hide Pow2;
    Pow2Step(b);
    Pow2Step(a + b);
    if b > 0 {
      Pow2Sum(a, b - 1);
      Twice(Pow2(a) - 1, Pow2(b - 1));
    }
  }

  lemma SmearZero()
    ensures forall s: nat :: Smear(0, s) == 0
  {
    forall s: nat ensures Smear(0, s) == 0 { OrZero(0); ShrZero(s); }
  }

  lemma {:induction false} ShrZero(s: nat)
    ensures Shr(0, s) == 0
  {
    if s > 0 { ShrZero(s - 1); }
  }

  lemma Pow2Values()
    ensures Pow2(31) == 0x8000_0000 && Pow2(32) == 0x1_0000_0000
  {
    assert Pow2(8) == 256 && Pow2(16) == 256 * Pow2(8) && Pow2(24) == 256 * Pow2(16);
    assert Pow2(31) == 128 * Pow2(24);
  }
}
