/** The quadratic probe sequence (cc.h:2897-2903, cc.h:3029-3050). */
module Probe {

  function Quadratic(d: nat): nat {
    (d * d + d) / 2
  }

  /** The bucket that stands d quadratic steps after home when indices are reduced by the capacity mask, one less
      than a power of two. */
  function Bucket(mask: nat, home: nat, d: nat): (b: nat)
    ensures b <= mask
  {
    (home + Quadratic(d)) % (mask + 1)
  }

  function Pow2(k: nat): (p: nat)
    ensures 0 < p
  {
    if k == 0 then 1 else 2 * Pow2(k - 1)
  }

  ghost predicate IsPow2(n: nat) {
    exists k: nat :: Pow2(k) == n
  }

  lemma DoubleIsPow2(n: nat)
    requires IsPow2(n)
    ensures IsPow2(2 * n)
  {
    var k: nat :| Pow2(k) == n;
    assert Pow2(k + 1) == 2 * n;
  }

  /** Bitwise conjunction of numbers. */
  function BitAnd(x: nat, y: nat): nat {
    if x == 0 || y == 0 then 0 else 2 * BitAnd(x / 2, y / 2) + (if x % 2 == 1 && y % 2 == 1 then 1 else 0)
  }

  /** x & (2^k - 1) is x modulo 2^k. */
  lemma {:induction false} MaskIsModulo(x: nat, k: nat)
    ensures BitAnd(x, Pow2(k) - 1) == x % Pow2(k)
  {
    if k == 0 {
      assert x % 1 == 0;
    } else if x == 0 {
      Remainder(0, 0, Pow2(k));
    } else {
      var p := Pow2(k - 1);
      MaskIsModulo(x / 2, k - 1);
      assert (2 * p - 1) / 2 == p - 1 && (2 * p - 1) % 2 == 1;
      HalfRemainder(x, p);
    }
  }

  lemma HalfRemainder(x: nat, p: nat)
    requires 0 < p
    ensures x % (2 * p) == 2 * (x / 2 % p) + x % 2
  {
    var y, r := x / 2, x % 2;
    var q, t := y / p, y % p;
    assert y == q * p + t;
    assert x == q * (2 * p) + (2 * t + r);
    Remainder(q, 2 * t + r, 2 * p);
  }

  lemma Remainder(q: nat, r: nat, m: nat)
    requires r < m
    ensures (q * m + r) % m == r
  {
    var x := q * m + r;
    var q', r' := x / m, x % m;
    assert x == q' * m + r';
    DivisionIsUnique(q, r, q', r', m);
  }

  lemma DivisionIsUnique(q: int, r: nat, q': int, r': nat, m: nat)
    requires r < m && r' < m && q * m + r == q' * m + r'
    ensures q == q' && r == r'
  {
    assert (q' - q) * m == q' * m - q * m;
    if q < q' {
      AtLeast(q' - q, m);
    } else if q' < q {
      assert (q - q') * m == q * m - q' * m;
      AtLeast(q - q', m);
    }
  }

  lemma AtLeast(a: nat, m: nat)
    requires 0 < a
    ensures m <= a * m
  {}

  /** The running sum of displacements is the closed form. */
  lemma QuadraticStep(d: nat)
    ensures Quadratic(0) == 0
    ensures Quadratic(d + 1) == Quadratic(d) + d + 1
  {
    assert (d + 1) * (d + 1) + (d + 1) == d * d + d + 2 * (d + 1);
  }

  lemma {:induction false} TwiceQuadratic(d: nat)
    ensures 2 * Quadratic(d) == d * (d + 1)
  {
    if d != 0 {
      TwiceQuadratic(d - 1);
      QuadraticStep(d - 1);
      assert (d - 1) * d + 2 * d == d * (d + 1);
    }
  }

  /** From one bucket of the sequence to the next: the step grows by one each time. */
  lemma BucketStep(mask: nat, home: nat, d: nat)
    ensures Bucket(mask, home, d + 1) == (Bucket(mask, home, d) + d + 1) % (mask + 1)
  {
    QuadraticStep(d);
    var x := home + Quadratic(d);
    RemainderOfSum(x, d + 1, mask + 1);
  }

  lemma RemainderOfSum(x: nat, y: nat, n: nat)
    requires 0 < n
    ensures (x + y) % n == (x % n + y) % n
  {
    var q, r := x / n, x % n;
    assert x == q * n + r;
    var z := r + y;
    assert x + y == (q + z / n) * n + z % n by {
      assert (q + z / n) * n == q * n + z / n * n;
      assert z == z / n * n + z % n;
    }
    Remainder(q + z / n, z % n, n);
  }

  lemma HomeIsFirst(mask: nat, home: nat)
    requires home <= mask
    ensures Bucket(mask, home, 0) == home
  {
    assert Quadratic(0) == 0;
  }

  /** A power of two that divides a product with an odd factor divides the other factor. */
  lemma {:induction false} OddFactor(a: nat, b: nat, m: nat, k: nat) returns (q: nat)
    requires a % 2 == 1 && a * b == m * Pow2(k)
    ensures b == q * Pow2(k)
  {
    if k == 0 {
      q := b;
    } else {
      var p := Pow2(k - 1);
      assert m * (2 * p) == 2 * (m * p);
      var h := EvenCofactor(a, b, m * p);
      q := OddFactor(a, h, m, k - 1);
      assert q * (2 * p) == 2 * (q * p);
    }
  }

  lemma EvenCofactor(a: nat, b: nat, c: nat) returns (h: nat)
    requires a % 2 == 1 && a * b == 2 * c
    ensures b == 2 * h && a * h == c
  {
    var a', b' := a / 2, b / 2;
    h := b';
    assert a == 2 * a' + 1;
    assert a * b == 2 * (a' * b) + b;
    assert a * (2 * h) == 2 * (a * h);
  }

  /** Modulo a power of two, the first that many triangular numbers are pairwise different. */
  lemma ProbeIsInjective(k: nat, home: nat, d: nat, e: nat)
    requires d < e < Pow2(k)
    ensures Bucket(Pow2(k) - 1, home, d) != Bucket(Pow2(k) - 1, home, e)
  {
    if Bucket(Pow2(k) - 1, home, d) == Bucket(Pow2(k) - 1, home, e) {
      TwiceQuadratic(d);
      TwiceQuadratic(e);
      MoreSteps(d, e);
      var m := DifferenceIsMultiple(home + Quadratic(d), home + Quadratic(e), Pow2(k));
      NoCommonMultiple(k, d, e, m);
    }
  }

  lemma MoreSteps(d: nat, e: nat)
    requires d < e
    ensures e * (e + 1) - d * (d + 1) == (e - d) * (e + d + 1) > 0
  {}

  lemma NoCommonMultiple(k: nat, d: nat, e: nat, m: nat)
    requires d < e < Pow2(k)
    ensures (e - d) * (e + d + 1) != 2 * (m * Pow2(k))
  {
    assert m * (2 * Pow2(k)) == 2 * (m * Pow2(k));
    OneFactorIsOdd(e - d, e + d + 1, m, k + 1);
  }

  lemma OneFactorIsOdd(x: nat, y: nat, m: nat, k: nat)
    requires 0 < x < Pow2(k) && 0 < y < Pow2(k) && (x + y) % 2 == 1
    ensures x * y != m * Pow2(k)
  {
    assert x % 2 == 1 || y % 2 == 1;
    if x * y == m * Pow2(k) {
      if x % 2 == 1 {
        var q := OddFactor(x, y, m, k);
        NotAMultiple(y, Pow2(k), q);
      } else {
        assert y * x == x * y;
        var q := OddFactor(y, x, m, k);
        NotAMultiple(x, Pow2(k), q);
      }
    }
  }

  lemma NotAMultiple(x: nat, n: nat, q: nat)
    requires 0 < x < n
    ensures x != q * n
  {
    if q != 0 {
      AtLeast(q, n);
    }
  }

  lemma DifferenceIsMultiple(x: nat, y: nat, n: nat) returns (m: nat)
    requires 0 < n && x % n == y % n && x <= y
    ensures y - x == m * n
  {
    var a, b := x / n, y / n;
    assert y == b * n + y % n && x == a * n + x % n;
    assert (b - a) * n == b * n - a * n;
    if b < a {
      assert (a - b) * n == a * n - b * n;
      AtLeast(a - b, n);
      assert false;
    }
    m := b - a;
  }

  /** The buckets that displacements below count reach. */
  ghost function Reached(mask: nat, home: nat, count: nat): set<nat> {
    if count == 0 then {} else Reached(mask, home, count - 1) + {Bucket(mask, home, count - 1)}
  }

  lemma {:induction false} ReachedAt(mask: nat, home: nat, count: nat, b: nat) returns (d: nat)
    requires b in Reached(mask, home, count)
    ensures d < count && Bucket(mask, home, d) == b
  {
    hide Bucket;
    d := count - 1;
    if Bucket(mask, home, d) != b {
      d := ReachedAt(mask, home, count - 1, b);
    }
  }

  lemma {:induction false} ReachedOnce(k: nat, home: nat, count: nat)
    requires count <= Pow2(k)
    ensures |Reached(Pow2(k) - 1, home, count)| == count
    ensures Reached(Pow2(k) - 1, home, count) <= Below(Pow2(k))
  {
    hide Bucket;
    if count != 0 {
      var mask, last := Pow2(k) - 1, Bucket(Pow2(k) - 1, home, count - 1);
      ReachedOnce(k, home, count - 1);
      if last in Reached(mask, home, count - 1) {
        var d := ReachedAt(mask, home, count - 1, last);
        ProbeIsInjective(k, home, d, count - 1);
      }
    }
  }

  /** The first 2^k displacements visit all 2^k buckets. */
  lemma ProbeIsComplete(k: nat, home: nat, b: nat) returns (d: nat)
    requires b < Pow2(k)
    ensures d < Pow2(k) && Bucket(Pow2(k) - 1, home, d) == b
  {
    hide Bucket;
    ReachedOnce(k, home, Pow2(k));
    SubsetOfSameSize(Reached(Pow2(k) - 1, home, Pow2(k)), Below(Pow2(k)));
    d := ReachedAt(Pow2(k) - 1, home, Pow2(k), b);
  }

  function Below(n: nat): (s: set<nat>)
    ensures |s| == n
    ensures forall i: nat :: i in s <==> i < n
  {
    if n == 0 then {} else Below(n - 1) + {n - 1}
  }

  lemma SubsetOfSameSize<T>(s: set<T>, t: set<T>)
    requires s <= t && |t| <= |s|
    ensures s == t
  {
    if x :| x in t && x !in s {
      SubsetSize(s, t - {x});
    }
  }

  lemma {:induction false} SubsetSize<T>(s: set<T>, t: set<T>)
    requires s <= t
    ensures |s| <= |t|
  {
    if x :| x in s {
      SubsetSize(s - {x}, t - {x});
    }
  }
}
