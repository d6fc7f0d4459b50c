/** pow2gt: the next power of two, by smearing the highest bit downwards. */
module JsonGrowth {

  import opened Powers

  /** Bitwise or of two naturals. */
  function Or(a: nat, b: nat): nat
    decreases a + b
  {
    if a == 0 then b else if b == 0 then a
    else 2 * Or(a / 2, b / 2) + (if a % 2 == 1 || b % 2 == 1 then 1 else 0)
  }

  /** x >> n */
  function Shr(x: nat, n: nat): nat { if n == 0 then x else Shr(x / 2, n - 1) }

  predicate Bit(x: nat, i: nat)
    decreases i
  {
    if i == 0 then x % 2 == 1 else Bit(x / 2, i - 1)
  }

  lemma {:induction false} BitOfZero(i: nat)
    ensures !Bit(0, i)
  {
    if i > 0 {
      BitOfZero(i - 1);
    }
  }

  lemma {:induction false} BitOr(a: nat, b: nat, i: nat)
    ensures Bit(Or(a, b), i) == (Bit(a, i) || Bit(b, i))
    decreases i
  {
    BitOfZero(i);
    if a != 0 && b != 0 && i > 0 {
      BitOr(a / 2, b / 2, i - 1);
      assert Or(a, b) / 2 == Or(a / 2, b / 2);
    }
  }

  lemma {:induction false} BitShr(x: nat, n: nat, i: nat)
    ensures Bit(Shr(x, n), i) == Bit(x, i + n)
    decreases n
  {
    if n > 0 {
      BitShr(x / 2, n - 1, i);
    }
  }

  /** One of w bits from i on is set. */
  predicate Run(x: nat, i: nat, w: nat) { exists j :: i <= j < i + w && Bit(x, j) }

  /** Bit i of y tells whether x has a bit in the run of w from i on. */
  ghost predicate Smeared(x: nat, y: nat, w: nat) { forall i: nat :: Bit(y, i) == Run(x, i, w) }

  lemma SmearStart(x: nat)
    ensures Smeared(x, x, 1)
  {
    forall i: nat ensures Bit(x, i) == Run(x, i, 1) {
      if Bit(x, i) {
        assert i <= i < i + 1;
      }
    }
  }

  /** Or-ing with itself shifted by the run's width doubles the run. */
  lemma SmearDoubles(x: nat, y: nat, w: nat)
    requires Smeared(x, y, w)
    ensures Smeared(x, Or(y, Shr(y, w)), 2 * w)
  {
    forall i: nat ensures Bit(Or(y, Shr(y, w)), i) == Run(x, i, 2 * w) {
      BitOr(y, Shr(y, w), i);
      BitShr(y, w, i);
      assert Bit(y, i) == Run(x, i, w) && Bit(y, i + w) == Run(x, i + w, w);
      if Run(x, i, 2 * w) {
        var j :| i <= j < i + 2 * w && Bit(x, j);
        assert if j < i + w then Run(x, i, w) else Run(x, i + w, w);
      }
    }
  }

  lemma {:induction false} HighBitsAreZero(x: nat, k: nat, i: nat)
    requires x < Pow2(k) && i >= k
    ensures !Bit(x, i)
    decreases k
  {
    if k == 0 {
      BitOfZero(i);
    } else {
      HighBitsAreZero(x / 2, k - 1, i - 1);
    }
  }

  lemma {:induction false} FromBits(x: nat, k: nat)
    requires forall i: nat :: i >= k ==> !Bit(x, i)
    ensures x < Pow2(k)
    decreases k, x
  {
    if k == 0 {
      if x > 0 {
        var i := SomeBit(x);
      }
    } else {
      forall i: nat | i >= k - 1 ensures !Bit(x / 2, i) {
        assert !Bit(x, i + 1);
      }
      FromBits(x / 2, k - 1);
    }
  }

  lemma {:induction false} SomeBit(x: nat) returns (i: nat)
    requires x > 0
    ensures Bit(x, i)
  {
    if x % 2 == 1 {
      i := 0;
    } else {
      i := SomeBit(x / 2);
      i := i + 1;
    }
  }

  /** Every bit below a set bit is set. */
  ghost predicate Closed(z: nat) { forall i: nat, j: nat :: i <= j && Bit(z, j) ==> Bit(z, i) }

  lemma {:induction false} ClosedIsPower(z: nat) returns (k: nat)
    requires Closed(z)
    ensures z + 1 == Pow2(k)
  {
    if z == 0 {
      k := 0;
    } else {
      var j := SomeBit(z);
      assert Bit(z, 0);
      forall i: nat, j: nat | i <= j && Bit(z / 2, j) ensures Bit(z / 2, i) {
        assert Bit(z, j + 1) && Bit(z, i + 1);
      }
      k := ClosedIsPower(z / 2);
      k := k + 1;
    }
  }

  lemma {:induction false} OrIsAtLeast(a: nat, b: nat)
    ensures Or(a, b) >= a
    decreases a + b
  {
    if a != 0 && b != 0 {
      OrIsAtLeast(a / 2, b / 2);
    }
  }

  lemma SmearedAllBits(x: nat, z: nat)
    requires x < Pow2(30) && Smeared(x, z, 32)
    ensures Closed(z)
    ensures forall n: nat :: x < Pow2(n) ==> z < Pow2(n)
  {
    forall i: nat, j: nat | i <= j && Bit(z, j) ensures Bit(z, i) {
      assert Run(x, j, 32);
      var b :| j <= b < j + 32 && Bit(x, b);
      if b >= 30 {
        HighBitsAreZero(x, 30, b);
      }
      assert i <= b < i + 32;
      assert Run(x, i, 32);
    }
    forall n: nat | x < Pow2(n) ensures z < Pow2(n) {
      SmearedBelow(x, z, n);
    }
  }

  /** Smearing a number leaves it below the powers of two it was below. */
  lemma SmearedBelow(x: nat, z: nat, n: nat)
    requires x < Pow2(n) && Smeared(x, z, 32)
    ensures z < Pow2(n)
  {
    forall i: nat | i >= n ensures !Bit(z, i) {
      if Run(x, i, 32) {
        var b :| i <= b < i + 32 && Bit(x, b);
        HighBitsAreZero(x, n, b);
      }
    }
    FromBits(z, n);
  }

  const CAPACITY := 0x4000_0000

  lemma Capacity()
    ensures Pow2(30) == CAPACITY
  {
    assert Pow2(10) == 1024;
    assert Pow2(20) == 1024 * Pow2(10);
    assert Pow2(30) == 1024 * Pow2(20);
  }

  /** pow2gt: the least power of two that is not less than x. */
  method Pow2gt(x0: nat) returns (r: nat)
    requires 0 < x0 <= CAPACITY
    ensures x0 <= r <= CAPACITY && exists k: nat :: r == Pow2(k)
    ensures forall n: nat :: x0 <= Pow2(n) ==> r <= Pow2(n)
  {
    Capacity();
    hide Or, Shr, Smeared, Pow2;
    var x: nat := x0 - 1;
    ghost var y := x;
    SmearStart(x);
    x := SmearBy(y, x, 1);
    x := SmearBy(y, x, 2);
    x := SmearBy(y, x, 4);
    x := SmearBy(y, x, 8);
    x := SmearBy(y, x, 16);
    SmearedAllBits(y, x);
    ghost var k := ClosedIsPower(x);
    r := x + 1;
  }

  /** x |= x >> n */
  method SmearBy(ghost start: nat, x: nat, n: nat) returns (r: nat)
    requires Smeared(start, x, n) && start <= x
    ensures Smeared(start, r, 2 * n) && start <= r
  {
    SmearDoubles(start, x, n);
    OrIsAtLeast(x, Shr(x, n));
    r := Or(x, Shr(x, n));
  }
}
