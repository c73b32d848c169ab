/** Positions wrapped onto a ring of n slots. */
module Wrapping {
  // The slot of a position: positions n apart share one.
  function Wrap(pos: nat, n: nat): (i: nat)
    requires n > 0
    ensures i < n
  {
    if pos < n then pos else Wrap(pos - n, n)
  }

  lemma {:induction false} WrapIsModulo(pos: nat, n: nat)
    requires n > 0
    ensures Wrap(pos, n) == pos % n
    decreases pos
  {
    if n <= pos {
      WrapIsModulo(pos - n, n);
      ModuloLap(pos - n, n);
    }
  }

  lemma ModuloLap(a: nat, n: nat)
    requires n > 0
    ensures (a + n) % n == a % n
  {
    var q, r := a / n, a % n;
    assert a == n * q + r;
    assert a + n == n * (q + 1) + r;
    UniqueRemainder(a + n, n, q + 1, r);
  }

  lemma UniqueRemainder(x: nat, n: nat, q: nat, r: nat)
    requires n > 0 && r < n && x == n * q + r
    ensures x % n == r && x / n == q
  {
    var p := x / n;
    assert x == n * p + x % n;
    if q < p {
      MulGap(n, q, p);
    } else if p < q {
      MulGap(n, p, q);
    }
  }

  lemma {:induction false} MulGap(n: nat, p: int, q: int)
    requires p < q
    ensures n * p + n <= n * q
    decreases q - p
  {
    assert n * q == n * (q - 1) + n;
    if p + 1 < q {
      MulGap(n, p, q - 1);
    }
  }

  // Two different positions in the same slot are at least a lap apart.
  lemma {:induction false} SameSlotGap(a: nat, b: nat, n: nat)
    requires n > 0 && Wrap(a, n) == Wrap(b, n) && a < b
    ensures a + n <= b
    decreases b
  {
    if n <= a {
      SameSlotGap(a - n, b - n, n);
    }
  }

  lemma NextSlotDiffers(a: nat, n: nat)
    requires n >= 2
    ensures Wrap(a + 1, n) != Wrap(a, n)
  {
    if Wrap(a + 1, n) == Wrap(a, n) {
      SameSlotGap(a, a + 1, n);
    }
  }

  // ----- The mask -------------------------------------------------------

  function BitAnd(x: nat, y: nat): nat {
    if x == 0 || y == 0 then 0
    else 2 * BitAnd(x / 2, y / 2) + (if x % 2 == 1 && y % 2 == 1 then 1 else 0)
  }

  function Pow2(k: nat): (p: nat)
    ensures p >= 1
  {
    if k == 0 then 1 else 2 * Pow2(k - 1)
  }

  lemma ModuloDoubled(pos: nat, n: nat)
    requires n > 0
    ensures pos % (2 * n) == 2 * ((pos / 2) % n) + pos % 2
  {
    var q, r, b := (pos / 2) / n, (pos / 2) % n, pos % 2;
    assert pos / 2 == n * q + r;
    assert pos == 2 * (n * q + r) + b;
    assert (2 * n) * q == 2 * (n * q);
    UniqueRemainder(pos, 2 * n, q, 2 * r + b);
  }

  // For a power-of-two slot count, masking a position is wrapping it.
  lemma {:induction false} MaskIsWrap(pos: nat, k: nat)
    ensures BitAnd(pos, Pow2(k) - 1) == Wrap(pos, Pow2(k))
    decreases k
  {
    if k > 0 {
      var n := Pow2(k - 1);
      MaskIsWrap(pos / 2, k - 1);
      WrapIsModulo(pos, 2 * n);
      WrapIsModulo(pos / 2, n);
      ModuloDoubled(pos, n);
      HalfMask(pos, n);
    } else {
      WrapIsModulo(pos, 1);
    }
  }

  lemma HalfMask(pos: nat, n: nat)
    requires n >= 1
    ensures BitAnd(pos, 2 * n - 1) == 2 * BitAnd(pos / 2, n - 1) + pos % 2
  {
    var y := 2 * n - 1;
    assert y / 2 == n - 1 && y % 2 == 1;
  }
}
