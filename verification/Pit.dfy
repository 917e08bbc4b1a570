/** Fixed-point time of the programmable interval timer driver. Times are counted in
    units of 2^-32 ms, so the pair of 32-bit words (ms, fractions) is one 64-bit number. */
module Pit {
  import opened Defs

  // The timer runs at 3579545 / 3 Hz.
  const INPUT_CLOCK := 3579545
  const DIVISOR := 3
  const MIN_HZ := 18
  const MAX_HZ := 1193181
  const TWO_64 := 0x1_0000_0000_0000_0000

  // div_round: the nearest integer, halves going up.
  function DivRound(num: nat, div: nat): (q: nat)
    requires div > 0
    ensures 2 * num - div < 2 * (div * q) <= 2 * num + div
  {
    var q := num / div;
    assert num == div * q + num % div;
    assert div * (q + 1) == div * q + div;
    if num % div * 2 >= div then q + 1 else q
  }

  // Dividing by n and then by 3, rounding both times: n and the clock's divisor.
  function RoundTwice(n: nat): nat
    requires n > 0
  {
    DivRound(DivRound(INPUT_CLOCK, n), DIVISOR)
  }

  // r is within 1/2 of 3579545 / (3 n).
  ghost predicate Nearest(r: nat, n: nat) {
    2 * INPUT_CLOCK - 3 * n <= 6 * (n * r) <= 2 * INPUT_CLOCK + 3 * n
  }

  // Rounding twice is no worse than rounding once, because the second divisor is odd.
  lemma RoundTwiceNearest(n: nat)
    requires n > 0
    ensures Nearest(RoundTwice(n), n)
  {
    hide Nearest;
    var q := DivRound(INPUT_CLOCK, n);
    NearestFrom(n, q, DivRound(q, DIVISOR));
  }

  lemma NearestFrom(n: nat, q: int, r: nat)
    requires 2 * INPUT_CLOCK - n < 2 * (n * q) <= 2 * INPUT_CLOCK + n && q - 1 <= 3 * r <= q + 1
    ensures Nearest(r, n)
  {
    ScaleBetween(n, q - 1, 3 * r);
    ScaleBetween(n, 3 * r, q + 1);
    Distribute(n, q, -1);
    Distribute(n, q, 1);
    assert n * (3 * r) == 3 * (n * r);
  }

  lemma Distribute(n: int, a: int, b: int)
    ensures n * (a + b) == n * a + n * b
  {
  }

  lemma ScaleBetween(n: nat, a: int, b: int)
    requires a <= b
    ensures n * a <= n * b
  {
    assert n * (b - a) == n * b - n * a;
  }

  // What an accumulator of 64 bits holds after n ticks of t units.
  ghost function After(start: nat, t: nat, n: nat): nat {
    if n == 0 then start else (After(start, t, n - 1) + t) % TWO_64
  }

  // The same in one step.
  ghost function Advanced(start: nat, t: nat, n: nat): nat {
    (start + n * t) % TWO_64
  }

  // n ticks do not wrap a clock that starts at zero.
  ghost predicate Fits(t: nat, n: nat) {
    n * t < TWO_64
  }

  // After n ticks of `reload` timer cycles the clock is off by at most 4 n units.
  ghost predicate OffAtMost(time: nat, reload: nat, n: nat) {
    -4 * n * INPUT_CLOCK <= time * INPUT_CLOCK - n * (reload * 3000 * TWO_32) <= 4 * n * INPUT_CLOCK
  }

  lemma {:induction false} AfterTicks(start: nat, t: nat, n: nat)
    requires start < TWO_64
    ensures After(start, t, n) == Advanced(start, t, n)
  {
    hide After, Advanced;
    AfterStep(start, t, n);
    if n == 0 {
      AdvancedNone(start, t);
    } else {
      AfterTicks(start, t, n - 1);
      AdvancedStep(start, t, n);
    }
  }

  lemma AdvancedNone(start: nat, t: nat)
    requires start < TWO_64
    ensures Advanced(start, t, 0) == start
  {
  }

  lemma AdvancedStep(start: nat, t: nat, n: nat)
    requires n > 0
    ensures Advanced(start, t, n) == (Advanced(start, t, n - 1) + t) % TWO_64
  {
    ProductStep(t, n);
    AddMod(start + (n - 1) * t, t);
  }

  lemma ProductStep(t: nat, n: nat)
    requires n > 0
    ensures n * t == (n - 1) * t + t
  {
  }

  lemma AfterStep(start: nat, t: nat, n: nat)
    ensures After(start, t, n) == if n == 0 then start else (After(start, t, n - 1) + t) % TWO_64
  {
  }

  lemma CountStep(x: nat)
    ensures (x % TWO_32 + 1) % TWO_32 == (x + 1) % TWO_32
  {
  }

  lemma AddMod(a: nat, b: nat)
    ensures (a % TWO_64 + b) % TWO_64 == (a + b) % TWO_64
  {
  }

  // The time one tick of `reload` timer cycles adds: the multiplier is 3000 * 2^42 / 3579545, rounded.
  function PerTick(reload: nat): nat {
    reload * 0xDBB3_A062 / 1024
  }

  // One tick is off by less than four units; reload cycles take reload * 3000 / 3579545 ms.
  lemma PerTickError(reload: nat)
    requires reload <= 0xFFFF
    ensures -INPUT_CLOCK < PerTick(reload) * INPUT_CLOCK - reload * 3000 * TWO_32 < 4 * INPUT_CLOCK
    ensures PerTick(reload) < 0x40_0000_0000
  {
    var product := reload * 0xDBB3_A062;
    var t := product / 1024;
    assert 1024 * t <= product < 1024 * t + 1024;
  }

  // Before the accumulator wraps, n ticks are off by less than 4 n units.
  lemma AccumulatedError(reload: nat, n: nat)
    requires reload <= 0xFFFF && Fits(PerTick(reload), n)
    ensures After(0, PerTick(reload), n) == n * PerTick(reload)
    ensures OffAtMost(After(0, PerTick(reload), n), reload, n)
  {
    hide PerTick, After;
    AfterSmall(PerTick(reload), n, n * PerTick(reload));
    PerTickError(reload);
    ErrorScale(n, PerTick(reload), reload * 3000 * TWO_32, INPUT_CLOCK);
  }

  lemma AfterSmall(t: nat, n: nat, total: nat)
    requires total == n * t && total < TWO_64
    ensures After(0, t, n) == total
  {
    hide After;
    AfterTicks(0, t, n);
  }

  lemma ErrorScale(n: nat, t: nat, exact: nat, c: nat)
    requires -4 * c <= t * c - exact <= 4 * c
    ensures -4 * n * c <= n * t * c - n * exact <= 4 * n * c
  {
    var e := t * c - exact;
    ScaleBetween(n, -4 * c, e);
    ScaleBetween(n, e, 4 * c);
    Distribute(n, t * c, 0 - exact);
    assert n * (0 - exact) == 0 - n * exact;
    assert n * (t * c) == n * t * c && n * (4 * c) == 4 * n * c && n * (-4 * c) == -4 * n * c;
  }

  // Adding two pairs of words with a carry adds the numbers they stand for.
  lemma Carry(ms: nat, fractions: nat, tickMs: nat, tickFractions: nat)
    ensures
      var sum := fractions + tickFractions;
      (ms + (tickMs + sum / TWO_32) % TWO_32) % TWO_32 * TWO_32 + sum % TWO_32
      == (ms * TWO_32 + fractions + (tickMs * TWO_32 + tickFractions)) % TWO_64
  {
    var sum := fractions + tickFractions;
    var m := ms + tickMs + sum / TWO_32;
    assert (ms + (tickMs + sum / TWO_32) % TWO_32) % TWO_32 == m % TWO_32;
    assert ms * TWO_32 + fractions + (tickMs * TWO_32 + tickFractions) == m * TWO_32 + sum % TWO_32;
    Wrap(m, sum % TWO_32);
  }

  // A number below 2^64 as two words.
  lemma TwoWords(x: nat)
    requires x < TWO_64
    ensures x / TWO_32 % TWO_32 * TWO_32 + x % TWO_32 == x && x / TWO_32 % TWO_32 < TWO_32 && x % TWO_32 < TWO_32
  {
    assert x / TWO_32 < TWO_32;
  }

  lemma Wrap(m: nat, r: nat)
    requires r < TWO_32
    ensures m % TWO_32 * TWO_32 + r == (m * TWO_32 + r) % TWO_64
  {
    assert m * TWO_32 + r == m / TWO_32 * TWO_64 + (m % TWO_32 * TWO_32 + r);
  }

  class Timer {
    var systemMs: nat
    var systemFractions: nat
    var tickMs: nat
    var tickFractions: nat
    var reload: nat
    var hz: nat
    var tickCount: nat

    // The fields have the widths of the source's words.
    predicate Valid()
      reads this
    {
      && systemMs < TWO_32 && systemFractions < TWO_32 && tickMs < TWO_32 && tickFractions < TWO_32
      && 0 < reload <= 0xFFFF && tickCount < TWO_32 && TickTime() == PerTick(reload)
    }

    function Time(): nat
      reads this
    {
      systemMs * TWO_32 + systemFractions
    }

    function TickTime(): nat
      reads this
    {
      tickMs * TWO_32 + tickFractions
    }

    lemma TimeFits()
      requires Valid()
      ensures Time() < TWO_64
    {
    }

    // set_pit_vars, compute_tick_frequency and compute_per_tick_time
    method SetVars(desired: nat)
      requires systemMs < TWO_32 && systemFractions < TWO_32 && tickCount < TWO_32
      modifies this`reload, this`hz, this`tickMs, this`tickFractions
      ensures Valid() && Nearest(hz, reload)
      ensures MIN_HZ < desired < MAX_HZ ==> Nearest(reload, desired)
      ensures desired <= MIN_HZ ==>
        reload == 0xFFFF && forall r: nat :: desired > 0 && Nearest(r, desired) ==> r > 0xFFFF
      ensures desired >= MAX_HZ ==> reload == 1 && forall r: nat :: Nearest(r, desired) ==> r <= 1
    {
      hide Nearest, RoundTwice, PerTick;
      if desired <= MIN_HZ {
        reload := 0xFFFF;
      } else if desired >= MAX_HZ {
        reload := 1;
      } else {
        RoundTwiceNearest(desired);
        ReloadFits(desired, RoundTwice(desired));
        reload := AtLeastOne(RoundTwice(desired) % 0x1_0000);
        assert reload == RoundTwice(desired);
      }
      Clamped(desired);
      RoundTwiceNearest(reload);
      hz := RoundTwice(reload);
      PerTickError(reload);
      var product := PerTick(reload);
      TwoWords(product);
      tickMs := product / TWO_32 % TWO_32;
      tickFractions := product % TWO_32;
    }

    // The accumulator of pit_timer_dispatch
    method Tick()
      requires Valid()
      modifies this`systemMs, this`systemFractions, this`tickCount
      ensures Valid() && Time() == (old(Time()) + TickTime()) % TWO_64
      ensures tickCount == (old(tickCount) + 1) % TWO_32
    {
      Carry(systemMs, systemFractions, tickMs, tickFractions);
      var sum := systemFractions + tickFractions;
      systemFractions := sum % TWO_32;
      systemMs := (systemMs + (tickMs + sum / TWO_32) % TWO_32) % TWO_32;
      tickCount := (tickCount + 1) % TWO_32;
    }

    // n timer interrupts: the clock advances by n ticks modulo 2^64 units, and from zero
    // it is off by at most 4 n units until it wraps.
    method Ticks(n: nat)
      requires Valid()
      modifies this`systemMs, this`systemFractions, this`tickCount
      ensures Valid() && Time() == Advanced(old(Time()), TickTime(), n)
      ensures tickCount == (old(tickCount) + n) % TWO_32
      ensures old(Time()) == 0 && Fits(TickTime(), n) ==> OffAtMost(Time(), reload, n)
    {
      hide After, PerTick, Advanced, Fits, OffAtMost;
      ghost var start, t, count := Time(), TickTime(), tickCount;
      TimeFits();
      AfterStep(start, t, 0);
      for i := 0 to n
        invariant Valid() && Time() == After(start, t, i) && TickTime() == t && tickCount == (count + i) % TWO_32
      {
        AfterStep(start, t, i + 1);
        CountStep(count + i);
        Tick();
      }
      AfterTicks(start, t, n);
      if start == 0 && Fits(t, n) { AccumulatedError(reload, n); }
    }
  }

  function AtLeastOne(r: nat): nat {
    if r == 0 then 1 else r
  }

  // Within the range the reload value fits its 16-bit register and is not zero.
  lemma ReloadFits(hz: nat, r: nat)
    requires MIN_HZ < hz < MAX_HZ && Nearest(r, hz)
    ensures 0 < r <= 0xFFFF
  {
    assert r == 0 ==> hz * r == 0;
    assert r * hz == hz * r;
    ScaleBetween(r, 19, hz);
  }

  // Outside the range no reload value comes closer than the clamped one.
  lemma Clamped(hz: nat)
    ensures 0 < hz <= MIN_HZ ==> forall r: nat :: Nearest(r, hz) ==> r > 0xFFFF
    ensures hz >= MAX_HZ ==> forall r: nat :: Nearest(r, hz) ==> r <= 1
  {
    if 0 < hz <= MIN_HZ {
      forall r: nat | Nearest(r, hz) ensures r > 0xFFFF {
        ScaleBetween(r, hz, 18);
        assert r * hz == hz * r;
      }
    }
    if hz >= MAX_HZ {
      forall r: nat | Nearest(r, hz) ensures r <= 1 {
        if r >= 2 { ScaleBetween(hz, 2, r); }
      }
    }
  }
}
