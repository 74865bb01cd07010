/** The C operator `&` on unsigned integers of any width, and what masking a
    free-running counter with `n - 1` does to it. */
module Bits {

  function Pow2(k: nat): (p: nat)
    ensures p >= 1
  {
    if k == 0 then 1 else 2 * Pow2(k - 1)
  }

  ghost predicate IsPow2(n: nat) {
    exists k: nat :: Pow2(k) == n
  }

  /** Bit `i` of `a`. */
  predicate Bit(a: nat, i: nat) {
    if i == 0 then a % 2 == 1 else Bit(a / 2, i - 1)
  }

  /** The bitwise conjunction; AndBit says that it is one. */
  function And(a: nat, b: nat): (r: nat)
    ensures r <= a && r <= b
  {
    if a == 0 || b == 0 then 0
    else 2 * And(a / 2, b / 2) + (if a % 2 == 1 && b % 2 == 1 then 1 else 0)
  }

  lemma {:induction false} ZeroHasNoBits(i: nat)
    ensures !Bit(0, i)
  {
    if i > 0 { ZeroHasNoBits(i - 1); }
  }

  lemma {:induction false} AndBit(a: nat, b: nat, i: nat)
    ensures Bit(And(a, b), i) <==> Bit(a, i) && Bit(b, i)
    decreases i
  {
    if a == 0 || b == 0 {
      ZeroHasNoBits(i);
    } else if i > 0 {
      AndBit(a / 2, b / 2, i - 1);
    }
  }

  lemma {:induction false} AndSelf(a: nat)
    ensures And(a, a) == a
  {
    if a > 0 { AndSelf(a / 2); }
  }

  lemma {:induction false} Pow2Monotone(i: nat, j: nat)
    ensures i <= j ==> Pow2(i) <= Pow2(j)
    ensures i < j ==> Pow2(i) < Pow2(j)
    decreases j
  {
    if i < j { Pow2Monotone(i, j - 1); }
  }

  lemma {:induction false} Pow2Add(i: nat, j: nat)
    ensures Pow2(i + j) == Pow2(i) * Pow2(j)
  {
    if i > 0 {
      Pow2Add(i - 1, j);
      assert (2 * Pow2(i - 1)) * Pow2(j) == 2 * (Pow2(i - 1) * Pow2(j));
    }
  }

  lemma DoubleIsPow2(m: nat)
    requires m > 0
    ensures IsPow2(2 * m) <==> IsPow2(m)
  {
    if IsPow2(m) {
      var k: nat :| Pow2(k) == m;
      assert Pow2(k + 1) == 2 * m;
    }
    if IsPow2(2 * m) {
      var k: nat :| Pow2(k) == 2 * m;
      assert k > 0;
      assert Pow2(k - 1) == m;
    }
  }

  lemma EvenProduct(m: nat)
    ensures (2 * m) % 2 == 0
  {
  }

  lemma OddIsPow2(n: nat)
    requires n % 2 == 1
    ensures IsPow2(n) <==> n == 1
  {
    assert Pow2(0) == 1;
    if IsPow2(n) && n != 1 {
      var k: nat :| Pow2(k) == n;
      EvenProduct(Pow2(k - 1));
    }
  }

  /** The constructor's bit trick recognises exactly the powers of two. */
  lemma {:induction false} PredecessorTest(n: nat)
    requires n > 0
    ensures And(n - 1, n) == 0 <==> IsPow2(n)
  {
    if n % 2 == 1 {
      OddIsPow2(n);
      if n > 1 { AndSelf(n / 2); }
    } else {
      PredecessorTest(n / 2);
      DoubleIsPow2(n / 2);
      assert (n - 1) / 2 == n / 2 - 1;
    }
  }

  lemma MultipleGrows(m: int, d: int)
    requires m > 0
    ensures d >= 1 ==> m * d >= m
    ensures d <= -1 ==> m * d <= -m
  {
    if d >= 1 { assert m * (d - 1) >= 0; }
    if d <= -1 { assert m * (-1 - d) >= 0; }
  }

  lemma SmallMultiple(m: int, d: int)
    requires m > 0 && -m < m * d < m
    ensures d == 0
  {
    MultipleGrows(m, d);
  }

  lemma DivModUnique(x: int, m: int, q: int, r: int)
    requires m > 0 && x == m * q + r && 0 <= r < m
    ensures x % m == r && x / m == q
  {
    var d := x / m - q;
    assert x == m * (x / m) + x % m;
    assert m * d == m * (x / m) - m * q;
    assert m * d == r - x % m;
    SmallMultiple(m, d);
  }

  /** Adding a multiple of the modulus changes nothing. */
  lemma ModShift(x: int, m: int, k: int)
    requires m > 0
    ensures (x + m * k) % m == x % m
  {
    var q, r := x / m, x % m;
    assert x + m * k == m * (q + k) + r;
    DivModUnique(x + m * k, m, q + k, r);
  }

  /** Reducing modulo a multiple of `a` first does not disturb the residue modulo `a`. */
  lemma ModOfMod(x: int, a: int, b: int)
    requires a > 0 && b > 0 && a * b > 0
    ensures (x % (a * b)) % a == x % a
  {
    var q, r := x / (a * b), x % (a * b);
    assert x == r + a * (b * q);
    ModShift(r, a, b * q);
  }

  lemma SameResidue(x: int, y: int, m: int)
    requires m > 0 && x % m == y % m && x < y
    ensures y - x >= m
  {
    var q := y / m - x / m;
    assert y - x == m * (y / m) - m * (x / m) == m * q;
    if y - x < m { SmallMultiple(m, q); }
  }

  lemma HalveMod(x: nat, p: nat)
    requires p > 0
    ensures x % (2 * p) == 2 * (x / 2 % p) + x % 2
  {
    var h, b := x / 2, x % 2;
    var q, r := h / p, h % p;
    assert h == p * q + r;
    assert x == (2 * p) * q + (2 * r + b);
    DivModUnique(x, 2 * p, q, 2 * r + b);
  }

  lemma OddHalf(p: nat)
    requires p > 0
    ensures (2 * p - 1) % 2 == 1 && (2 * p - 1) / 2 == p - 1
  {
  }

  lemma AndOdd(x: nat, m: nat)
    requires m % 2 == 1
    ensures And(x, m) == 2 * And(x / 2, m / 2) + x % 2
  {
  }

  /** Masking with an all-ones word is reduction modulo a power of two. */
  lemma {:induction false} MaskIsMod(x: nat, k: nat)
    ensures And(x, Pow2(k) - 1) == x % Pow2(k)
    decreases k
  {
    if k > 0 {
      MaskIsMod(x / 2, k - 1);
      OddHalf(Pow2(k - 1));
      AndOdd(x, Pow2(k) - 1);
      HalveMod(x, Pow2(k - 1));
    }
  }

  /** Masking a wrapped counter of width `w` finds the residue of the counter that never wrapped. */
  lemma MaskOfWrapped(x: nat, k: nat, w: nat)
    requires k <= w
    ensures And(x % Pow2(w), Pow2(k) - 1) == x % Pow2(k)
  {
    MaskIsMod(x % Pow2(w), k);
    Pow2Add(k, w - k);
    ModOfMod(x, Pow2(k), Pow2(w - k));
  }

  /** A position below `n` where `n - 1` has a zero, when `n` is no power of two. */
  lemma {:induction false} ZeroBitBelow(n: nat) returns (p: nat)
    requires n > 0 && !IsPow2(n)
    ensures Pow2(p) < n && !Bit(n - 1, p)
  {
    if n % 2 == 1 {
      OddIsPow2(n);
      p := 0;
    } else {
      DoubleIsPow2(n / 2);
      var p' := ZeroBitBelow(n / 2);
      assert (n - 1) / 2 == n / 2 - 1;
      p := p' + 1;
    }
  }

  lemma {:induction false} Pow2Bit(p: nat)
    ensures Bit(Pow2(p), p)
  {
    if p > 0 { Pow2Bit(p - 1); }
  }

  lemma {:induction false} AndSingleBit(p: nat, b: nat)
    requires !Bit(b, p)
    ensures And(Pow2(p), b) == 0
    decreases p
  {
    if p > 0 {
      AndSingleBit(p - 1, b / 2);
    } else if b > 0 {
      assert And(0, b / 2) == 0;
      assert 1 / 2 == 0;
    }
  }

  /** The slot a counter `x` selects in a ring of `n` items. */
  function Mask(x: nat, n: nat): nat
    requires n > 0
  {
    And(x, n - 1)
  }

  /** The slot selected by the counter `x` kept in an index of `w` bits. */
  function WrappedMask(x: nat, n: nat, w: nat): nat
    requires n > 0
  {
    Mask(x % Pow2(w), n)
  }

  /** `mask` sends the counters of every window of `n` consecutive wrapping values to distinct slots. */
  ghost predicate WindowInjective(n: nat, w: nat)
    requires n > 0
  {
    forall x: nat, y: nat :: x < y < x + n ==> WrappedMask(x, n, w) != WrappedMask(y, n, w)
  }

  ghost predicate Reached(v: nat, n: nat)
    requires n > 0
  {
    exists x: nat :: Mask(x, n) == v
  }

  /** Every slot below `n` is the image of some counter. */
  ghost predicate ReachesEverySlot(n: nat)
    requires n > 0
  {
    forall v: nat :: v < n ==> Reached(v, n)
  }

  lemma PowersMaskWell(n: nat, w: nat)
    requires 0 < n < Pow2(w) && IsPow2(n)
    ensures WindowInjective(n, w) && ReachesEverySlot(n)
  {
    var k: nat :| Pow2(k) == n;
    Pow2Monotone(w, k);
    forall x: nat, y: nat | x < y < x + n
      ensures WrappedMask(x, n, w) != WrappedMask(y, n, w)
    {
      MaskOfWrapped(x, k, w);
      MaskOfWrapped(y, k, w);
      if x % n == y % n { SameResidue(x, y, n); }
    }
    forall v: nat | v < n
      ensures Reached(v, n)
    {
      MaskIsMod(v, k);
      DivModUnique(v, n, 0, v);
      assert Mask(v, n) == v;
    }
  }

  lemma OthersMaskBadly(n: nat, w: nat)
    requires 0 < n < Pow2(w) && !IsPow2(n)
    ensures !WindowInjective(n, w) && !ReachesEverySlot(n)
  {
    var p := ZeroBitBelow(n);
    AndSingleBit(p, n - 1);
    var y := Pow2(p);
    DivModUnique(0, Pow2(w), 0, 0);
    DivModUnique(y, Pow2(w), 0, y);
    assert WrappedMask(0, n, w) == WrappedMask(y, n, w);
    if Reached(y, n) {
      var x: nat :| Mask(x, n) == y;
      AndBit(x, n - 1, p);
      Pow2Bit(p);
    }
  }

  /** The assertion in the ring's constructor is exactly the condition under which its
      masking works: necessary and sufficient, for every index width. */
  lemma CapacityTestIsExact(n: nat, w: nat)
    requires 0 < n < Pow2(w)
    ensures And(n - 1, n) == 0 <==> IsPow2(n)
    ensures And(n - 1, n) == 0 <==> WindowInjective(n, w)
    ensures And(n - 1, n) == 0 <==> ReachesEverySlot(n)
  {
    PredecessorTest(n);
    if IsPow2(n) { PowersMaskWell(n, w); } else { OthersMaskBadly(n, w); }
  }
}
