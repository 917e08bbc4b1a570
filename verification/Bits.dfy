/** Bit operations on natural numbers, digit by digit, and powers of two. */
module Bits {

  function Pow2(k: nat): (r: nat)
    ensures r > 0
  {
    if k == 0 then 1 else 2 * Pow2(k - 1)
  }

  predicate IsPow2(n: nat) {
    n == 1 || (n > 1 && n % 2 == 0 && IsPow2(n / 2))
  }

  function And(a: nat, b: nat): nat {
    if a == 0 || b == 0 then 0 else 2 * And(a / 2, b / 2) + (a % 2) * (b % 2)
  }

  function Xor(a: nat, b: nat): nat {
    if a == 0 then b else if b == 0 then a
    else 2 * Xor(a / 2, b / 2) + (a % 2 + b % 2) % 2
  }

  lemma {:induction false} MulMono(c: nat, a: nat, b: nat)
    requires a < b
    ensures c * a + c <= c * b
    decreases b
  {
    assert c * b == c * (b - 1) + c;
    if a < b - 1 { MulMono(c, a, b - 1); }
  }

  lemma DivMod(h: nat, c: nat)
    requires c > 0
    ensures h == c * (h / c) + h % c && h % c < c
  {
  }

  lemma ModUnique(h: nat, c: nat, q: nat, r: nat)
    requires r < c && h == c * q + r
    ensures h % c == r && h / c == q
  {
    var q' := h / c;
    DivMod(h, c);
    if q' < q { MulMono(c, q', q); }
    if q < q' { MulMono(c, q, q'); }
  }

  lemma DoubleMod(h: nat, d: nat)
    requires d > 0
    ensures h % (2 * d) == 2 * (h / 2 % d) + h % 2
  {
    var q, r := h / 2 / d, h / 2 % d;
    DivMod(h / 2, d);
    assert 2 * d * q == 2 * (d * q);
    ModUnique(h, 2 * d, q, 2 * r + h % 2);
  }

  // Masking with a power of two less one is the remainder.
  lemma {:induction false} AndMask(h: nat, c: nat)
    requires IsPow2(c)
    ensures And(h, c - 1) == h % c
    decreases c
  {
    if c > 1 {
      var d := c / 2;
      AndMask(h / 2, d);
      DoubleMod(h, d);
      assert (c - 1) / 2 == d - 1 && (c - 1) % 2 == 1;
      assert h == 0 || And(h, c - 1) == 2 * And(h / 2, d - 1) + h % 2;
    }
  }

  lemma IsPow2Double(c: nat)
    requires IsPow2(c)
    ensures IsPow2(2 * c) && c > 0
  {
  }

  // p is a multiple of 2^k.
  predicate Aligned(p: nat, k: nat) {
    k == 0 || (p % 2 == 0 && Aligned(p / 2, k - 1))
  }

  lemma {:induction false} AlignedMod(p: nat, k: nat)
    ensures Aligned(p, k) <==> p % Pow2(k) == 0
    decreases k
  {
    if k > 0 {
      AlignedMod(p / 2, k - 1);
      DoubleMod(p, Pow2(k - 1));
    }
  }

  lemma {:induction false} AlignedLess(p: nat, k: nat, j: nat)
    requires Aligned(p, k) && j <= k
    ensures Aligned(p, j)
    decreases j
  {
    if j > 0 { AlignedLess(p / 2, k - 1, j - 1); }
  }

  // Flipping one bit of an aligned number moves it to its buddy: up from the
  // lower half of the enclosing block, down from the upper half.
  lemma {:induction false} XorBuddy(p: nat, k: nat)
    requires Aligned(p, k)
    ensures Aligned(Xor(p, Pow2(k)), k) && Xor(Xor(p, Pow2(k)), Pow2(k)) == p
    ensures if Aligned(p, k + 1) then Xor(p, Pow2(k)) == p + Pow2(k) && !Aligned(p + Pow2(k), k + 1)
            else Pow2(k) <= p && Xor(p, Pow2(k)) == p - Pow2(k) && Aligned(p - Pow2(k), k + 1)
    decreases k
  {
    hide Xor, Aligned, Pow2;
    Pow2Step(k);
    if k == 0 {
      XorOne(p);
      XorOne(Xor(p, 1));
      AlignedOne(p);
      AlignedOne(Xor(p, 1));
      AlignedZero(Xor(p, 1));
    } else {
      var q, w := p / 2, Pow2(k - 1);
      var x := Xor(q, w);
      AlignedEven(p, k);
      XorBuddy(q, k - 1);
      XorEven(q, w);
      XorEven(x, w);
      AlignedDouble(q, k);
      AlignedDouble(x, k);
      AlignedDouble(x, k - 1);
      AlignedDouble(q, k - 1);
    }
  }

  lemma Pow2Step(k: nat)
    ensures Pow2(0) == 1 && (k > 0 ==> Pow2(k) == 2 * Pow2(k - 1))
  {
  }

  lemma AlignedEven(p: nat, k: nat)
    requires k > 0 && Aligned(p, k)
    ensures p == 2 * (p / 2) && Aligned(p / 2, k - 1)
  {
  }

  lemma AlignedZero(p: nat)
    ensures Aligned(p, 0)
  {
  }

  lemma AlignedOne(p: nat)
    ensures Aligned(p, 1) <==> p % 2 == 0
  {
    assert Aligned(p / 2, 0);
  }

  lemma AlignedDouble(p: nat, k: nat)
    ensures Aligned(2 * p, k + 1) <==> Aligned(p, k)
  {
    assert 2 * p / 2 == p;
  }

  lemma XorOne(p: nat)
    ensures Xor(p, 1) == if p % 2 == 0 then p + 1 else p - 1
  {
    assert Xor(p / 2, 0) == p / 2;
  }

  lemma XorEven(a: nat, b: nat)
    requires b > 0
    ensures Xor(2 * a, 2 * b) == 2 * Xor(a, b)
  {
  }

  // bsr
  function Log2(n: nat): (k: nat)
    ensures n > 0 ==> Pow2(k) <= n < 2 * Pow2(k)
  {
    if n < 2 then 0 else 1 + Log2(n / 2)
  }

  lemma {:induction false} Log2Pow2(k: nat)
    ensures Log2(Pow2(k)) == k && IsPow2(Pow2(k))
  {
    if k > 0 { Log2Pow2(k - 1); }
  }

  lemma {:induction false} Pow2Log2(n: nat)
    requires IsPow2(n)
    ensures Pow2(Log2(n)) == n
  {
    if n > 1 { Pow2Log2(n / 2); }
  }

  lemma {:induction false} Pow2Mono(a: nat, b: nat)
    requires a <= b
    ensures Pow2(a) <= Pow2(b) && (a < b ==> 2 * Pow2(a) <= Pow2(b))
    decreases b
  {
    if a < b { Pow2Mono(a, b - 1); }
  }
}
