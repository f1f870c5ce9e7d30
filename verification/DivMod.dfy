/** Facts about Euclidean division by a positive divisor that the index arithmetic of the
    byte path, the interleaver and the timestamp clock all rely on. */
module DivMod {

  /** Quotient and remainder are determined by the equation they satisfy. */
  lemma Unique(x: int, n: int, q: int, r: int)
    requires n > 0 && 0 <= r < n && x == q * n + r
    ensures x / n == q && x % n == r
  {
    var d := x / n - q;
    assert d * n == r - x % n by {
      assert x == (x / n) * n + x % n;
      assert d * n == (x / n) * n - q * n;
    }
    assert d >= 1 ==> d * n >= n;
    assert d <= -1 ==> d * n <= -n;
  }

  /** Moving one position forward either stays inside the block or opens the next one. */
  lemma Step(x: nat, n: nat)
    requires n > 0
    ensures x % n + 1 < n ==> (x + 1) / n == x / n && (x + 1) % n == x % n + 1
    ensures x % n + 1 == n ==> (x + 1) / n == x / n + 1 && (x + 1) % n == 0
  {
    assert x == (x / n) * n + x % n;
    if x % n + 1 < n {
      Unique(x + 1, n, x / n, x % n + 1);
    } else {
      assert (x / n + 1) * n == (x / n) * n + n;
      Unique(x + 1, n, x / n + 1, 0);
    }
  }

  lemma MulLe(a: int, b: int, n: int)
    requires a <= b && n >= 0
    ensures a * n <= b * n
  {
    assert (b - a) * n >= 0;
    assert (b - a) * n == b * n - a * n;
  }

  /** Division is monotone. */
  lemma DivLe(x: int, y: int, n: int)
    requires n > 0 && x <= y
    ensures x / n <= y / n
  {
    assert (y / n + 1) * n == (y / n) * n + n;
    assert x == (x / n) * n + x % n && y == (y / n) * n + y % n;
    if y / n < x / n {
      MulLe(y / n + 1, x / n, n);
    }
  }

  /** A position is below a boundary exactly when its block is before that boundary. */
  lemma BelowBoundary(x: int, q: int, n: int)
    requires n > 0
    ensures x / n < q <==> x < q * n
  {
    assert x == (x / n) * n + x % n;
    if x / n < q {
      MulLe(x / n + 1, q, n);
      assert (x / n + 1) * n == (x / n) * n + n;
    } else {
      MulLe(q, x / n, n);
    }
  }

  /** The smallest block boundary at or above `x`, as `(x + (n - 1)) / n`. */
  function CeilDiv(x: nat, n: nat): (q: nat)
    requires n > 0
  {
    (x + (n - 1)) / n
  }

  lemma CeilDivBounds(x: nat, n: nat)
    requires n > 0
    ensures x <= CeilDiv(x, n) * n < x + n
    ensures forall q: nat {:trigger q * n} :: x <= q * n ==> CeilDiv(x, n) <= q
    ensures x % n == 0 ==> CeilDiv(x, n) * n == x && CeilDiv(x, n) == x / n
    ensures x % n != 0 ==> CeilDiv(x, n) == x / n + 1
  {
    var y := x + (n - 1);
    var c := CeilDiv(x, n);
    assert y == c * n + y % n;
    forall q: nat {:trigger q * n} | x <= q * n ensures c <= q {
      assert (q + 1) * n == q * n + n;
      if q < c {
        MulLe(q + 1, c, n);
      }
    }
    assert x == (x / n) * n + x % n;
    if x % n == 0 {
      Unique(y, n, x / n, n - 1);
    } else {
      assert (x / n + 1) * n == (x / n) * n + n;
      Unique(y, n, x / n + 1, x % n - 1);
    }
  }

  /** The start of block `k`, that is `k * n` (see BoundaryIsMul). */
  ghost function Boundary(k: nat, n: nat): (x: nat) {
    if k == 0 then 0 else Boundary(k - 1, n) + n
  }

  lemma {:induction false} BoundaryIsMul(k: nat, n: nat)
    ensures Boundary(k, n) == k * n
  {
    if k > 0 {
      BoundaryIsMul(k - 1, n);
      assert k * n == (k - 1) * n + n;
    }
  }

  lemma {:induction false} BoundaryLe(a: nat, b: nat, n: nat)
    requires a <= b
    ensures Boundary(a, n) <= Boundary(b, n)
    ensures a < b ==> Boundary(a, n) + n <= Boundary(b, n)
  {
    if a < b {
      BoundaryLe(a, b - 1, n);
    }
  }

  lemma {:induction false} BoundaryAdd(a: nat, b: nat, n: nat)
    ensures Boundary(a + b, n) == Boundary(a, n) + Boundary(b, n)
  {
    if b > 0 {
      BoundaryAdd(a, b - 1, n);
    }
  }

  /** A position inside block `k` divides to `k`. */
  lemma InBlock(x: nat, n: nat, k: nat)
    requires Boundary(k, n) <= x < Boundary(k, n) + n
    ensures n > 0 && x / n == k && x % n == x - Boundary(k, n)
  {
    BoundaryIsMul(k, n);
    Unique(x, n, k, x - Boundary(k, n));
  }

  /** The least boundary at or above `x`. */
  lemma CeilBoundary(x: nat, n: nat)
    requires n > 0
    ensures var c := CeilDiv(x, n);
            && CeilDiv(x, n) * n == Boundary(c, n)
            && x <= Boundary(c, n) < x + n
  {
    CeilDivBounds(x, n);
    BoundaryIsMul(CeilDiv(x, n), n);
  }
}
