/** The pseudo-random scan of the learning loop: positions advance by three times a prime,
    wrapped to the buffer length.  Proved here: which lengths make the scan meet every pixel
    exactly once, and that every length that fits the source's `int` is one of them. */
module Scan {
  import opened CArith

  /** The prime picked for a buffer of `len` bytes; 503 is the fallback, taken unchecked. */
  function ChoosePrime(len: nat): (p: nat)
    ensures p in {499, 491, 487, 503}
    ensures p == 499 || len % 499 == 0
    ensures p in {499, 491} || len % 491 == 0
    ensures p in {499, 491, 487} || len % 487 == 0
    ensures len % p == 0 <==> len % 499 == 0 && len % 491 == 0 && len % 487 == 0 && len % 503 == 0
  {
    if len % 499 != 0 then 499
    else if len % 491 != 0 then 491
    else if len % 487 != 0 then 487
    else 503
  }

  /** The byte position of sample k in a buffer of `len` bytes. */
  function ScanPos(len: nat, k: nat): (pos: nat)
    requires len > 0
    ensures pos < len
  {
    if k == 0 then 0 else (ScanPos(len, k - 1) + 3 * ChoosePrime(len)) % len
  }

  lemma ScanStart(len: nat)
    requires len > 0
    ensures ScanPos(len, 0) == 0
  {
  }

  lemma ScanNext(len: nat, k: nat)
    requires len > 0
    ensures ScanPos(len, k + 1) == (ScanPos(len, k) + 3 * ChoosePrime(len)) % len
  {
  }

  /** n samples of an image of n pixels meet pairwise distinct pixels, and meet all of them. */
  ghost predicate VisitsEachPixelOnce(n: nat)
    requires n > 0
  {
    && (forall j: nat, k: nat :: j < k < n ==> ScanPos(3 * n, j) != ScanPos(3 * n, k))
    && (forall m: nat :: m < n ==> Sampled(n, m))
  }

  /** Pixel m is met by one of the first n samples. */
  ghost predicate Sampled(n: nat, m: nat)
    requires n > 0
  {
    exists k: nat :: k < n && ScanPos(3 * n, k) == 3 * m
  }

  predicate AllFourDivide(len: nat) {
    len % 499 == 0 && len % 491 == 0 && len % 487 == 0 && len % 503 == 0
  }

  // ---------- division ----------

  ghost predicate Divides(d: int, a: int) {
    exists q: int :: a == q * d
  }

  lemma ModMinus(x: int, n: int)
    requires n > 0
    ensures (x - n) % n == x % n
  {
    assert x - n == (x / n - 1) * n + x % n;
    ModUnique(x - n, n, x / n - 1, x % n);
  }

  lemma ModAddMod(x: int, y: int, n: int)
    requires n > 0
    ensures (x % n + y) % n == (x + y) % n
  {
    var z := x % n + y;
    assert x + y == (x / n + z / n) * n + z % n by {
      assert z == (z / n) * n + z % n && x == (x / n) * n + x % n;
    }
    ModUnique(x + y, n, x / n + z / n, z % n);
  }

  lemma ModScale3(y: int, n: int)
    requires n > 0
    ensures (3 * y) % (3 * n) == 3 * (y % n)
  {
    assert 3 * y == (y / n) * (3 * n) + 3 * (y % n);
    ModUnique(3 * y, 3 * n, y / n, 3 * (y % n));
  }

  lemma DividesIsMod(d: int, a: int)
    requires d > 0
    ensures Divides(d, a) <==> a % d == 0
  {
    if a % d == 0 {
      assert a == (a / d) * d;
    }
    if Divides(d, a) {
      var q :| a == q * d;
      ModUnique(a, d, q, 0);
    }
  }

  // ---------- greatest common divisor with its Bezout coefficients ----------

  lemma {:induction false} Bezout(a: nat, b: nat) returns (g: int, u: int, v: int)
    requires a > 0 || b > 0
    ensures g > 0 && g == u * a + v * b
    ensures Divides(g, a) && Divides(g, b)
    decreases b
  {
    if b == 0 {
      g, u, v := a, 1, 0;
      assert a == 1 * a && b == 0 * a;
    } else {
      var u', v';
      g, u', v' := Bezout(b, a % b);
      var q := a / b;
      u, v := v', u' - q * v';
      assert a == q * b + a % b;
      assert u * a + v * b == v' * (a - q * b) + u' * b by {
        assert v' * (a - q * b) == v' * a - q * v' * b;
      }
      var s: int :| b == s * g;
      var t: int :| a % b == t * g;
      assert a == (q * s + t) * g;
    }
  }

  // ---------- the four primes ----------

  ghost predicate IsPrime(p: nat) {
    p > 1 && forall d: int :: d > 0 && Divides(d, p) ==> d == 1 || d == p
  }

  predicate NoFactorBelow23(p: nat) {
    && p % 2 != 0 && p % 3 != 0 && p % 4 != 0 && p % 5 != 0 && p % 6 != 0 && p % 7 != 0
    && p % 8 != 0 && p % 9 != 0 && p % 10 != 0 && p % 11 != 0 && p % 12 != 0 && p % 13 != 0
    && p % 14 != 0 && p % 15 != 0 && p % 16 != 0 && p % 17 != 0 && p % 18 != 0 && p % 19 != 0
    && p % 20 != 0 && p % 21 != 0 && p % 22 != 0
  }

  lemma NoSmallDivisor(p: nat, d: nat)
    requires NoFactorBelow23(p) && 1 < d < 23
    ensures p % d != 0
  {
    assert d == 2 || d == 3 || d == 4 || d == 5 || d == 6 || d == 7 || d == 8 || d == 9 || d == 10 || d == 11
        || d == 12 || d == 13 || d == 14 || d == 15 || d == 16 || d == 17 || d == 18 || d == 19 || d == 20
        || d == 21 || d == 22;
  }

  lemma SmallPrime(p: nat)
    requires 1 < p < 529 && NoFactorBelow23(p)
    ensures IsPrime(p)
  {
    hide NoFactorBelow23;
    forall d: int | d > 0 && Divides(d, p)
      ensures d == 1 || d == p
    {
      var q: int :| p == q * d;
      FactorPair(p, d, q);
    }
  }

  lemma FactorPair(p: nat, d: int, q: int)
    requires 1 < p < 529 && NoFactorBelow23(p) && p == q * d && d > 0
    ensures d == 1 || d == p
  {
    hide NoFactorBelow23;
    assert q <= 0 ==> q * d <= 0;
    ModUnique(p, d, q, 0);
    ModUnique(p, q, d, 0);
    if 1 < d < 23 {
      NoSmallDivisor(p, d);
    }
    if 1 < q < 23 {
      NoSmallDivisor(p, q);
    }
    assert d >= 23 && q >= 23 ==> q * d >= 23 * d >= 529;
  }

  lemma ChosenIsPrime(len: nat)
    ensures IsPrime(ChoosePrime(len))
  {
    SmallPrime(ChoosePrime(len));
  }

  /** A prime that does not divide n has an inverse modulo n. */
  lemma InverseModulo(p: nat, n: nat) returns (u: int, v: int)
    requires IsPrime(p) && n > 0 && n % p != 0
    ensures u * p + v * n == 1
  {
    var g;
    g, u, v := Bezout(p, n);
    DividesIsMod(p, n);
    assert g == 1 || g == p;
  }

  /** Euclid's lemma. */
  lemma EuclidsLemma(p: nat, a: nat, b: nat)
    requires IsPrime(p) && Divides(p, a * b) && !Divides(p, a)
    ensures Divides(p, b)
  {
    assert 0 == 0 * p;
    DividesIsMod(p, a);
    var u, v := InverseModulo(p, a);
    var q: int :| a * b == q * p;
    CombineInverse(p, a, b, u, v, q);
  }

  lemma CombineInverse(p: int, a: int, b: int, u: int, v: int, q: int)
    requires u * p + v * a == 1 && a * b == q * p
    ensures b == (u * b + v * q) * p
  {
    calc {
      b;
      b * (u * p + v * a);
      u * b * p + v * (a * b);
      u * b * p + v * (q * p);
      (u * b + v * q) * p;
    }
  }

  // ---------- the scan ----------

  lemma {:induction false} ScanClosedForm(n: nat, k: nat)
    requires n > 0
    ensures ScanPos(3 * n, k) == 3 * ((ChoosePrime(3 * n) * k) % n)
  {
    var p := ChoosePrime(3 * n);
    if k > 0 {
      ScanClosedForm(n, k - 1);
      assert p * k == p * (k - 1) + p;
      ModAddMod(p * (k - 1), p, n);
      ModScale3(p * (k - 1) % n + p, n);
    } else {
      assert p * k == 0;
      ModUnique(0, n, 0, 0);
    }
  }

  lemma PrimeDividesPixels(n: nat)
    requires n > 0
    ensures n % ChoosePrime(3 * n) == 0 <==> AllFourDivide(3 * n)
  {
    var p := ChoosePrime(3 * n);
    ChosenIsPrime(3 * n);
    DividesIsMod(p, n);
    DividesIsMod(p, 3 * n);
    if Divides(p, n) {
      var q: int :| n == q * p;
      assert 3 * n == (3 * q) * p;
    }
    if Divides(p, 3 * n) {
      DividesIsMod(p, 3);
      assert 3 % p == 3;
      EuclidsLemma(p, 3, n);
    }
  }

  lemma ModSub(x: int, y: int, n: int)
    requires n > 0 && x % n == y % n
    ensures (y - x) % n == 0
  {
    assert y - x == (y / n - x / n) * n by {
      assert y == (y / n) * n + y % n && x == (x / n) * n + x % n;
    }
    ModUnique(y - x, n, y / n - x / n, 0);
  }

  lemma ModMulMod(p: int, x: int, n: int)
    requires n > 0
    ensures (p * (x % n)) % n == (p * x) % n
  {
    var y := p * (x % n);
    assert p * x == (p * (x / n) + y / n) * n + y % n by {
      assert p * x == p * ((x / n) * n + x % n) == p * (x / n) * n + y;
      assert y == (y / n) * n + y % n;
    }
    ModUnique(p * x, n, p * (x / n) + y / n, y % n);
  }

  lemma CancelCoprime(p: int, d: int, n: int, u: int, v: int)
    requires n > 0 && u * p + v * n == 1 && (p * d) % n == 0
    ensures d % n == 0
  {
    var q := (p * d) / n;
    assert p * d == q * n;
    CombineInverse(n, p, d, v, u, q);
    ModUnique(d, n, v * d + u * q, 0);
  }

  lemma MultiplesDistinct(p: int, n: nat, u: int, v: int, j: nat, k: nat)
    requires j < k < n && u * p + v * n == 1
    ensures (p * j) % n != (p * k) % n
  {
    if (p * j) % n == (p * k) % n {
      ModSub(p * j, p * k, n);
      assert p * k - p * j == p * (k - j);
      CancelCoprime(p, k - j, n, u, v);
      ModUnique(k - j, n, 0, k - j);
      assert false;
    }
  }

  lemma MultiplesCover(p: int, n: nat, u: int, v: int, m: nat) returns (k: nat)
    requires m < n && u * p + v * n == 1
    ensures k < n && (p * k) % n == m
  {
    k := (m * u) % n;
    ModMulMod(p, m * u, n);
    ScaledInverse(p, n, u, v, m);
    ModUnique(p * (m * u), n, -(m * v), m);
  }

  lemma ScaledInverse(p: int, n: int, u: int, v: int, m: int)
    requires u * p + v * n == 1
    ensures p * (m * u) == (-(m * v)) * n + m
  {
    calc {
      p * (m * u);
      m * (u * p);
      m * (1 - v * n);
      (-(m * v)) * n + m;
    }
  }

  lemma CoprimeScanVisitsAll(n: nat)
    requires n > 0 && n % ChoosePrime(3 * n) != 0
    ensures VisitsEachPixelOnce(n)
  {
    var p := ChoosePrime(3 * n);
    ChosenIsPrime(3 * n);
    var u, v := InverseModulo(p, n);
    forall j: nat, k: nat | j < k < n
      ensures ScanPos(3 * n, j) != ScanPos(3 * n, k)
    {
      ScanClosedForm(n, j);
      ScanClosedForm(n, k);
      MultiplesDistinct(p, n, u, v, j, k);
    }
    forall m: nat | m < n
      ensures Sampled(n, m)
    {
      var k := MultiplesCover(p, n, u, v, m);
      ScanClosedForm(n, k);
    }
  }

  lemma DividedScanRepeats(n: nat)
    requires n > 0 && n % 503 == 0 && ChoosePrime(3 * n) == 503
    ensures 0 < n / 503 < n && ScanPos(3 * n, n / 503) == ScanPos(3 * n, 0)
  {
    assert n == 503 * (n / 503);
    ScanClosedForm(n, n / 503);
    ModUnique(n, n, 1, 0);
  }

  /** The scan meets every pixel exactly once exactly when some candidate prime does not divide
      the buffer length; otherwise it is back at the first pixel after n / 503 samples. */
  lemma ScanExact(n: nat)
    requires n > 0
    ensures VisitsEachPixelOnce(n) <==> !AllFourDivide(3 * n)
    ensures AllFourDivide(3 * n) ==> 0 < n / 503 < n && ScanPos(3 * n, n / 503) == ScanPos(3 * n, 0)
  {
    PrimeDividesPixels(n);
    if AllFourDivide(3 * n) {
      DividedScanRepeats(n);
      assert ScanPos(3 * n, 0) == ScanPos(3 * n, n / 503);
    } else {
      CoprimeScanVisitsAll(n);
    }
  }

  lemma PrimeProductDivides(p: nat, q: nat, a: nat) returns (b: nat)
    requires IsPrime(q) && p > 0 && !Divides(q, p)
    requires Divides(q, a * p)
    ensures a == b * q
  {
    assert a * p == p * a;
    EuclidsLemma(q, p, a);
    var c: int :| a == c * q;
    assert c < 0 ==> c * q < 0;
    b := c;
  }

  /** Four distinct primes divide a number only if their product does. */
  lemma AllFourTogether(len: nat) returns (d: nat)
    requires AllFourDivide(len)
    ensures len == d * 60017649649
  {
    SmallPrime(491);
    SmallPrime(487);
    SmallPrime(503);
    DividesIsMod(491, 499);
    DividesIsMod(487, 499 * 491);
    DividesIsMod(503, 499 * 491 * 487);
    DividesIsMod(491, len);
    DividesIsMod(487, len);
    DividesIsMod(503, len);
    var a := len / 499;
    assert len == a * 499;
    var b := PrimeProductDivides(499, 491, a);
    assert len == b * (499 * 491);
    var c := PrimeProductDivides(499 * 491, 487, b);
    assert len == c * (499 * 491 * 487);
    d := PrimeProductDivides(499 * 491 * 487, 503, c);
  }

  /** The header comment assumes that no image has a length divisible by all four primes.  That
      holds of every length an `int` can carry: their product is above 2^31. */
  lemma Int32LengthsAreSafe(len: nat)
    requires 0 < len <= INT_MAX
    ensures !AllFourDivide(len)
  {
    hide AllFourDivide;
    if AllFourDivide(len) {
      var d := AllFourTogether(len);
      assert false;
    }
  }

  /** What the learning loop relies on, for every image it accepts. */
  lemma EveryAcceptedImageIsScannedOnce(width: nat, height: nat)
    requires width * height > 0 && width * height * 3 <= INT_MAX
    ensures VisitsEachPixelOnce(width * height)
  {
    Int32LengthsAreSafe(3 * (width * height));
    ScanExact(width * height);
  }

  /** The first `samples` positions are at most `limit`. */
  ghost predicate AllWithin(len: nat, samples: nat, limit: int)
    requires len > 0
  {
    forall k: nat :: k < samples ==> ScanPos(len, k) <= limit
  }

  /** Positions are at most the last pixel's, and a full scan meets the last pixel. */
  lemma PositionsWithin(n: nat, samples: nat, limit: int)
    requires n > 0
    ensures 3 * n - 3 <= limit ==> AllWithin(3 * n, samples, limit)
    ensures VisitsEachPixelOnce(n) ==> (AllWithin(3 * n, n, limit) <==> 3 * n - 3 <= limit)
  {
    hide ScanPos, ChoosePrime;
    var len := 3 * n;
    forall k: nat
      ensures ScanPos(len, k) <= len - 3
    {
      ScanClosedForm(n, k);
    }
    if VisitsEachPixelOnce(n) {
      assert Sampled(n, n - 1);
      var last: nat :| last < n && ScanPos(len, last) == 3 * (n - 1);
      assert AllWithin(len, n, limit) ==> ScanPos(len, last) <= limit;
    }
  }

  /** The number of the last sample of sweep t, if the scan gets that far. */
  function SweepEnd(n: nat, t: nat): nat
    requires n > 0
  {
    Quotient((t + 1) * n - 1, ChoosePrime(3 * n))
  }

  /** Its position, three times this. */
  function EndOfSweep(n: nat, t: nat): int
    requires n > 0
  {
    ChoosePrime(3 * n) * SweepEnd(n, t) - t * n
  }

  lemma SweepEndIs(n: nat, t: nat)
    requires n > 0
    ensures EndOfSweep(n, t) < n
    ensures n >= ChoosePrime(3 * n) ==> ScanPos(3 * n, SweepEnd(n, t)) == 3 * EndOfSweep(n, t)
  {
    hide ChoosePrime, ScanPos;
    var p, a, q := ChoosePrime(3 * n), (t + 1) * n - 1, SweepEnd(n, t);
    assert a == p * q + a % p && a == t * n + n - 1;
    if n >= p {
      ModUnique(p * q, n, t, p * q - t * n);
      ScanClosedForm(n, q);
    }
  }

  /** A sample that a step takes to the end of the image or behind it is the last of its sweep. */
  lemma LastOfSweep(n: nat, k: nat) returns (t: nat)
    requires n > 0 && ScanPos(3 * n, k) + 3 * ChoosePrime(3 * n) >= 3 * n
    ensures k == SweepEnd(n, t) && ScanPos(3 * n, k) == 3 * EndOfSweep(n, t)
  {
    hide ChoosePrime, ScanPos;
    var p := ChoosePrime(3 * n);
    ScanClosedForm(n, k);
    t := Quotient(p * k, n);
    var r := (p * k) % n;
    assert p * k == t * n + r;
    var a := (t + 1) * n - 1;
    assert a == t * n + n - 1 == p * k + (n - 1 - r);
    ModUnique(a, p, k, n - 1 - r);
  }

  /** No position and step add up to more than an int holds, exactly if they do not at the ends of the
      sweeps. */
  lemma SweepsDecide(n: nat, samples: nat)
    requires 0 < 3 * n <= INT_MAX
    ensures AllWithin(3 * n, samples, INT_MAX - 3 * ChoosePrime(3 * n))
            <==> forall t: nat :: SweepEnd(n, t) < samples ==> 3 * EndOfSweep(n, t) + 3 * ChoosePrime(3 * n) <= INT_MAX
  {
    hide ScanPos, SweepEnd, EndOfSweep;
    var p := ChoosePrime(3 * n);
    forall t: nat | SweepEnd(n, t) < samples
      ensures AllWithin(3 * n, samples, INT_MAX - 3 * p) ==> 3 * EndOfSweep(n, t) + 3 * p <= INT_MAX
    {
      SweepEndIs(n, t);
    }
    forall k: nat | k < samples && ScanPos(3 * n, k) + 3 * p >= 3 * n
      ensures exists t: nat :: SweepEnd(n, t) == k && ScanPos(3 * n, k) == 3 * EndOfSweep(n, t)
    {
      var t := LastOfSweep(n, k);
    }
  }
}
