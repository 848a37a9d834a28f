/** Integer operators of the C sources that differ from Dafny's.

    Dafny's `/` rounds so that the remainder is never negative; C's rounds toward zero.  An
    arithmetic right shift by k is Dafny's `/` by 2^k, for negative operands too. */
module CArith {

  const INT_MAX := 0x7FFF_FFFF

  type Byte = x: int | 0 <= x < 0x100
  type Dword = x: int | 0 <= x < 0x1_0000_0000

  datatype Option<+T> = None | Some(value: T)

  predicate IsInt32(x: int) {
    -0x8000_0000 <= x <= INT_MAX
  }

  /** C's division: the quotient is rounded toward zero. */
  function TruncDiv(a: int, d: int): (q: int)
    requires d > 0
    ensures a >= 0 ==> q >= 0
    ensures a <= 0 ==> q <= 0
  {
    if a >= 0 then a / d else -((-a) / d)
  }

  /** C's remainder: it takes the sign of the dividend. */
  function TruncMod(a: int, d: int): (r: int)
    requires d > 0
    ensures -d < r < d
    ensures a >= 0 ==> r >= 0
    ensures a <= 0 ==> r <= 0
  {
    if a >= 0 then a % d else -((-a) % d)
  }

  lemma DivAtMost(a: int, m: int, d: int)
    requires d > 0 && 0 <= a <= m * d
    ensures 0 <= a / d <= m
  {
    var q := a / d;
    assert a == q * d + a % d;
    assert q > m ==> q * d >= (m + 1) * d;
    assert (m + 1) * d == m * d + d;
  }

  lemma MulInRange(a: int, x: int, m: int, n: int)
    requires 0 <= m && 0 <= n && -m <= a <= m && -n <= x <= n
    ensures -(m * n) <= a * x <= m * n
  {
    assert Abs(a) * Abs(x) <= m * Abs(x) <= m * n;
    assert a * x == Abs(a) * Abs(x) || a * x == -(Abs(a) * Abs(x));
  }

  lemma MulGrows(a: int, d: int)
    requires a >= 0 && d > 0
    ensures a <= a * d
  {
    assert a * (d - 1) >= 0;
  }

  lemma DivShrinks(a: int, d: int)
    requires a >= 0 && d > 0
    ensures 0 <= a / d <= a
  {
    MulGrows(a, d);
    DivAtMost(a, a, d);
  }

  lemma DivBelow(a: int, m: int, d: int)
    requires d > 0 && 0 <= a < m * d
    ensures 0 <= a / d < m
  {
    var q := a / d;
    assert a == q * d + a % d;
    assert q >= m ==> q * d >= m * d;
  }

  /** The comparison by division is the comparison of the product. */
  lemma ProductFits(size: nat, count: nat, room: nat)
    requires size > 0
    ensures count <= room / size <==> size * count <= room
    ensures 0 <= room / size
  {
    var q := room / size;
    assert room == q * size + room % size;
    assert count <= q ==> count * size <= q * size;
    assert count > q ==> count * size >= (q + 1) * size;
  }

  /** Division of lengths and counts. */
  function Quotient(a: nat, d: nat): (q: nat)
    requires d > 0
    ensures q <= a
  {
    DivShrinks(a, d);
    a / d
  }

  function Remainder(a: nat, d: nat): (r: nat)
    requires d > 0
    ensures r < d
  {
    a % d
  }

  /** A quotient and a remainder in range are the quotient and the remainder. */
  lemma ModUnique(a: int, n: int, q: int, r: int)
    requires n > 0 && 0 <= r < n && a == q * n + r
    ensures a / n == q && a % n == r
  {
    var d := a / n - q;
    assert d * n == r - a % n by {
      assert a == (a / n) * n + a % n;
      assert d * n == (a / n) * n - q * n;
    }
    assert d >= 1 ==> d * n >= n;
    assert d <= -1 ==> d * n <= -n;
  }

  /** A comparison of a quotient, without the division. */
  lemma DivLess(a: nat, d: int, m: int)
    requires d > 0
    ensures a / d < m <==> a < m * d
  {
    var q := a / d;
    assert a == q * d + a % d;
    assert q < m ==> (q + 1) * d <= m * d;
    assert q >= m ==> q * d >= m * d;
  }

  function Abs(x: int): nat {
    if x < 0 then -x else x
  }

  function Min(a: int, b: int): int {
    if a <= b then a else b
  }

  function Max(a: int, b: int): int {
    if a >= b then a else b
  }
}
