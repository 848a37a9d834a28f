/** Ordered dithering with a Bayer matrix of 2^order by 2^order. */
module Bayer {
  import opened CArith

  const WHITE: Byte := 255
  const BLACK: Byte := 0

  function Pow2(n: nat): (p: nat)
    ensures p >= 1
  {
    if n == 0 then 1 else 2 * Pow2(n - 1)
  }

  function Pow4(n: nat): (p: nat)
    ensures p >= 1
  {
    if n == 0 then 1 else 4 * Pow4(n - 1)
  }

  lemma {:induction false} Pow4IsSquare(n: nat)
    ensures Pow4(n) == Pow2(n) * Pow2(n)
  {
    if n > 0 {
      Pow4IsSquare(n - 1);
      assert 2 * Pow2(n - 1) * (2 * Pow2(n - 1)) == 4 * (Pow2(n - 1) * Pow2(n - 1));
    }
  }

  // ---------- the rank of a cell ----------

  /** Two bits of a rank: whether the parities of x and y differ, and the parity of y. */
  function Digit(x: nat, y: nat): (q: nat)
    ensures q < 4
  {
    2 * ((x + y) % 2) + y % 2
  }

  /** The rank of a cell: its lowest coordinate bits make the highest digit. */
  function Rank(x: nat, y: nat, n: nat): (d: nat)
    ensures d < Pow4(n)
  {
    if n == 0 then 0
    else
      ThreeTimes(Digit(x, y), Pow4(n - 1));
      Digit(x, y) * Pow4(n - 1) + Rank(x / 2, y / 2, n - 1)
  }

  lemma ThreeTimes(q: nat, p: nat)
    requires q < 4
    ensures 0 <= q * p <= 3 * p
  {
    assert q == 0 || q == 1 || q == 2 || q == 3;
  }

  /** The highest digit of a rank, and the rest. */
  function Top(d: nat, n: nat): (q: nat)
    requires n > 0 && d < Pow4(n)
    ensures q < 4
  {
    DivBelow(d, 4, Pow4(n - 1));
    d / Pow4(n - 1)
  }

  function Low(d: nat, n: nat): (r: nat)
    requires n > 0
    ensures r < Pow4(n - 1)
  {
    d % Pow4(n - 1)
  }

  lemma SplitRank(d: nat, n: nat)
    requires n > 0 && d < Pow4(n)
    ensures d == Top(d, n) * Pow4(n - 1) + Low(d, n)
  {
  }

  lemma JoinRank(q: nat, r: nat, n: nat)
    requires n > 0 && q < 4 && r < Pow4(n - 1)
    ensures var d := q * Pow4(n - 1) + r;
      0 <= d < Pow4(n) && Top(d, n) == q && Low(d, n) == r
  {
    ThreeTimes(q, Pow4(n - 1));
    ModUnique(q * Pow4(n - 1) + r, Pow4(n - 1), q, r);
  }

  /** The coordinates of the cell with rank d. */
  function Cell(d: nat, n: nat): (c: (nat, nat))
    requires d < Pow4(n)
    ensures c.0 < Pow2(n) && c.1 < Pow2(n)
  {
    if n == 0 then (0, 0)
    else
      var q, c := Top(d, n), Cell(Low(d, n), n - 1);
      ((q / 2 + q) % 2 + 2 * c.0, q % 2 + 2 * c.1)
  }

  lemma RankParts(x: nat, y: nat, n: nat)
    requires n > 0
    ensures Top(Rank(x, y, n), n) == Digit(x, y) && Low(Rank(x, y, n), n) == Rank(x / 2, y / 2, n - 1)
  {
    hide Top, Low, Digit;
    JoinRank(Digit(x, y), Rank(x / 2, y / 2, n - 1), n);
  }

  /** Every cell is the cell of its rank. */
  lemma {:induction false} CellOfRank(x: nat, y: nat, n: nat)
    requires x < Pow2(n) && y < Pow2(n)
    ensures Cell(Rank(x, y, n), n) == (x, y)
  {
    hide Top, Low, Digit, Rank, Pow4;
    if n > 0 {
      RankParts(x, y, n);
      CellOfRank(x / 2, y / 2, n - 1);
      DigitBits(x, y);
    }
  }

  /** Every rank is the rank of its cell: the ranks of the cells are all numbers below 4^n. */
  lemma {:induction false} RankOfCell(d: nat, n: nat)
    requires d < Pow4(n)
    ensures Rank(Cell(d, n).0, Cell(d, n).1, n) == d
  {
    hide Top, Low, Digit, Rank, Pow4;
    if n == 0 {
      LastTurn(0, Cell(d, n).0, Cell(d, n).1);
      OnlyRank(d);
    } else {
      var q, c := Top(d, n), Cell(Low(d, n), n - 1);
      SplitRank(d, n);
      RankOfCell(Low(d, n), n - 1);
      BitsDigit(q, c.0, c.1);
      RankSum(Cell(d, n).0, Cell(d, n).1, n);
    }
  }

  lemma OnlyRank(d: nat)
    requires d < Pow4(0)
    ensures d == 0
  {
  }

  lemma RankSum(x: nat, y: nat, n: nat)
    requires n > 0
    ensures Rank(x, y, n) == Digit(x, y) * Pow4(n - 1) + Rank(x / 2, y / 2, n - 1)
  {
  }

  /** The digit tells the two low bits. */
  lemma DigitBits(x: nat, y: nat)
    ensures var q := Digit(x, y);
      (q / 2 + q) % 2 + 2 * (x / 2) == x && q % 2 + 2 * (y / 2) == y
  {
    assert x == 2 * (x / 2) + x % 2 && y == 2 * (y / 2) + y % 2;
  }

  lemma BitsDigit(q: nat, x: nat, y: nat)
    requires q < 4
    ensures Digit((q / 2 + q) % 2 + 2 * x, q % 2 + 2 * y) == q
    ensures ((q / 2 + q) % 2 + 2 * x) / 2 == x && (q % 2 + 2 * y) / 2 == y
  {
  }

  /** One turn of dithervalue's loop. */
  lemma RankTurn(d: nat, x: nat, y: nat, n: nat)
    requires n > 0
    ensures d * Pow4(n) + Rank(x, y, n) == (4 * d + Digit(x, y)) * Pow4(n - 1) + Rank(x / 2, y / 2, n - 1)
  {
    hide Digit;
    assert d * (4 * Pow4(n - 1)) == (4 * d) * Pow4(n - 1);
    assert (4 * d + Digit(x, y)) * Pow4(n - 1) == (4 * d) * Pow4(n - 1) + Digit(x, y) * Pow4(n - 1);
  }

  /** dithervalue: the loop puts two bits into d and drops a bit of x and of y. */
  method DitherValue(x: nat, y: nat, size: nat) returns (d: nat)
    ensures d == Rank(x, y, size)
  {
    hide Rank, Pow4;
    d := 0;
    var x': nat, y': nat, left := x, y, size;
    assert 0 * Pow4(size) == 0;
    while left > 0
      invariant d * Pow4(left) + Rank(x', y', left) == Rank(x, y, size)
    {
      RankTurn(d, x', y', left);
      left := left - 1;
      var bit := (x' + y') % 2;               // x&1 ^ y&1
      d := 2 * (2 * d + bit) + y' % 2;        // the shifts bring in zeros, so | adds
      x', y' := x' / 2, y' / 2;
    }
    LastTurn(d, x', y');
  }

  lemma LastTurn(d: nat, x: nat, y: nat)
    ensures d * Pow4(0) + Rank(x, y, 0) == d
  {
  }

  // ---------- the digits of a rank ----------

  /** Bit i of a number, the lowest first. */
  function BitOf(v: nat, i: nat): (b: nat)
    ensures b < 2
  {
    if i == 0 then v % 2 else BitOf(v / 2, i - 1)
  }

  /** Digit k of a number to the base 4, the lowest first. */
  function QuarterOf(d: nat, k: nat): (q: nat)
    ensures q < 4
  {
    if k == 0 then d % 4 else QuarterOf(d / 4, k - 1)
  }

  /** The product at one level, and what a division by 4 leaves of it. */
  lemma QuarterDown(q: nat, r: nat, m: nat)
    requires m > 0
    ensures 0 <= q * Pow4(m - 1) && 0 <= q * Pow4(m) + r
    ensures (q * Pow4(m) + r) / 4 == q * Pow4(m - 1) + r / 4 && (q * Pow4(m) + r) % 4 == r % 4
  {
    var a := q * Pow4(m - 1);
    MulNat(q, Pow4(m - 1));
    assert q * Pow4(m) == 4 * a;
    FourTimes(a, r);
  }

  lemma FourTimes(a: nat, r: nat)
    ensures (4 * a + r) / 4 == a + r / 4 && (4 * a + r) % 4 == r % 4
  {
  }

  lemma {:induction false} DigitsBelow(q: nat, r: nat, m: nat, k: nat)
    requires k < m
    ensures q * Pow4(m) + r >= 0 && QuarterOf(q * Pow4(m) + r, k) == QuarterOf(r, k)
    decreases k
  {
    hide Pow4;
    QuarterDown(q, r, m);
    if k > 0 {
      DigitsBelow(q, r / 4, m - 1, k - 1);
    }
  }

  lemma {:induction false} DigitAbove(q: nat, r: nat, m: nat)
    requires q < 4 && r < Pow4(m)
    ensures q * Pow4(m) + r >= 0 && QuarterOf(q * Pow4(m) + r, m) == q
  {
    if m > 0 {
      QuarterDown(q, r, m);
      DigitAbove(q, r / 4, m - 1);
    }
  }

  /** Two bits of the rank at each level, the lowest bits of row and column in the highest digit: whether
      the two differ, and that of the column. */
  ghost predicate IsRank(d: nat, row: nat, column: nat, n: nat) {
    && d < Pow4(n)
    && forall i :: 0 <= i < n ==>
         QuarterOf(d, n - 1 - i) == 2 * (if BitOf(row, i) != BitOf(column, i) then 1 else 0) + BitOf(column, i)
  }

  lemma LowBits(row: nat, column: nat, i: nat)
    ensures Digit(row, column) == 2 * (if BitOf(row, 0) != BitOf(column, 0) then 1 else 0) + BitOf(column, 0)
    ensures i > 0 ==> BitOf(row, i) == BitOf(row / 2, i - 1) && BitOf(column, i) == BitOf(column / 2, i - 1)
  {
  }

  lemma {:induction false} RankDigit(row: nat, column: nat, n: nat, i: nat)
    requires i < n
    ensures QuarterOf(Rank(row, column, n), n - 1 - i)
            == 2 * (if BitOf(row, i) != BitOf(column, i) then 1 else 0) + BitOf(column, i)
    decreases n
  {
    hide Rank, QuarterOf, Pow4, BitOf, Digit;
    RankSum(row, column, n);
    LowBits(row, column, i);
    var rest := Rank(row / 2, column / 2, n - 1);
    if i == 0 {
      DigitAbove(Digit(row, column), rest, n - 1);
    } else {
      DigitsBelow(Digit(row, column), rest, n - 1, n - 1 - i);
      RankDigit(row / 2, column / 2, n - 1, i - 1);
    }
  }

  /** Only the low bits count, so the place in the tile can be taken for the place in the image. */
  lemma {:induction false} RankInTile(row: nat, column: nat, n: nat)
    ensures Rank(row % Pow2(n), column % Pow2(n), n) == Rank(row, column, n)
  {
    hide Rank, Pow4, Digit;
    if n == 0 {
      OnlyRank(Rank(row % Pow2(n), column % Pow2(n), n));
      OnlyRank(Rank(row, column, n));
    } else {
      HalfOfRest(row, Pow2(n - 1));
      HalfOfRest(column, Pow2(n - 1));
      RankInTile(row / 2, column / 2, n - 1);
      RankSum(row, column, n);
      RankSum(row % Pow2(n), column % Pow2(n), n);
      SameDigit(row % Pow2(n), column % Pow2(n), row, column);
    }
  }

  lemma SameDigit(x: nat, y: nat, u: nat, v: nat)
    requires x % 2 == u % 2 && y % 2 == v % 2
    ensures Digit(x, y) == Digit(u, v)
  {
  }

  lemma HalfOfRest(v: nat, p: nat)
    requires p > 0
    ensures (v % (2 * p)) % 2 == v % 2 && (v % (2 * p)) / 2 == (v / 2) % p
  {
    var h := v / 2;
    var q, r := h / p, h % p;
    assert v == 2 * h + v % 2 && h == q * p + r;
    assert v == q * (2 * p) + (2 * r + v % 2);
    ModUnique(v, 2 * p, q, 2 * r + v % 2);
  }

  lemma TileRank(row: nat, column: nat, n: nat)
    ensures IsRank(Rank(row % Pow2(n), column % Pow2(n), n), row, column, n)
  {
    hide Rank, QuarterOf, BitOf, Pow2;
    RankInTile(row, column, n);
    forall i | 0 <= i < n
      ensures QuarterOf(Rank(row, column, n), n - 1 - i)
              == 2 * (if BitOf(row, i) != BitOf(column, i) then 1 else 0) + BitOf(column, i)
    {
      RankDigit(row, column, n, i);
    }
  }

  /** Exactly one number has these digits. */
  lemma {:induction false} RankUnique(d: nat, e: nat, n: nat)
    requires d < Pow4(n) && e < Pow4(n) && forall k :: 0 <= k < n ==> QuarterOf(d, k) == QuarterOf(e, k)
    ensures d == e
  {
    if n > 0 {
      assert QuarterOf(d, 0) == QuarterOf(e, 0);
      forall k | 0 <= k < n - 1
        ensures QuarterOf(d / 4, k) == QuarterOf(e / 4, k)
      {
        assert QuarterOf(d, k + 1) == QuarterOf(e, k + 1);
      }
      RankUnique(d / 4, e / 4, n - 1);
    }
  }

  // ---------- the matrix ----------

  /** The grey value that a pixel must exceed to turn white at rank d: 255 (d + 1/2) / 4^n, cut. */
  function Level(d: nat, n: nat): (t: Byte)
    requires d < Pow4(n)
    ensures t < 255
  {
    DivBelow(255 * (2 * d + 1), 255, 2 * Pow4(n));
    255 * (2 * d + 1) / (2 * Pow4(n))
  }

  /** Level(d) < g, without the division. */
  lemma BelowGrey(d: nat, g: Byte, n: nat)
    requires d < Pow4(n)
    ensures Level(d, n) < g <==> 255 * (2 * d + 1) < 2 * (g * Pow4(n))
  {
    DivLess(255 * (2 * d + 1), 2 * Pow4(n), g);
    assert g * (2 * Pow4(n)) == 2 * (g * Pow4(n));
  }

  predicate IsWhite(g: Byte, x: nat, y: nat, n: nat) {
    g > Level(Rank(y % Pow2(n), x % Pow2(n), n), n)
  }

  /** Entry i of the matrix. */
  function Entry(i: nat, n: nat): Byte {
    Level(Rank(Quotient(i, Pow2(n)), Remainder(i, Pow2(n)), n), n)
  }

  /** The matrix is read at the row and the column of the pixel in its tile. */
  lemma EntryFor(x: nat, y: nat, n: nat)
    ensures var l := Pow2(n);
      var i := x % l + l * (y % l);
      0 <= i < Pow4(n) && Entry(i, n) == Level(Rank(y % l, x % l, n), n)
  {
    hide Level, Rank, Quotient, Remainder;
    var l := Pow2(n);
    InMatrix(x % l, y % l, l);
    PlaceInMatrix(x % l, y % l, l);
    Pow4IsSquare(n);
  }

  lemma InMatrix(column: nat, row: nat, l: nat)
    requires column < l && row < l
    ensures 0 <= column + l * row < l * l
  {
    var k := l - 1 - row;
    assert l * (row + 1 + k) == l * row + l + l * k;
    MulNat(l, k);
    MulNat(l, row);
  }

  lemma MulNat(a: nat, b: nat)
    ensures a * b >= 0
  {
  }

  lemma PlaceInMatrix(column: nat, row: nat, l: nat)
    requires column < l && row < l && column + l * row >= 0
    ensures Quotient(column + l * row, l) == row && Remainder(column + l * row, l) == column
  {
    ModUnique(column + l * row, l, row, column);
  }

  lemma {:induction false} Pow4Grows(m: nat, n: nat)
    requires m <= n
    ensures Pow4(m) <= Pow4(n)
    decreases n
  {
    if m < n {
      Pow4Grows(m, n - 1);
    }
  }

  /** The size of the matrix, above all its indices and ranks, fits an int exactly up to order 15. */
  lemma OrderFitsExactly(order: nat)
    ensures Pow2(order) * Pow2(order) <= INT_MAX <==> order <= 15
  {
    Pow4IsSquare(order);
    assert Pow4(8) == 0x1_0000;
    assert Pow4(12) == 0x100_0000;
    assert Pow4(15) == 0x4000_0000 && Pow4(16) == 0x1_0000_0000;
    if order <= 15 {
      Pow4Grows(order, 15);
    } else {
      Pow4Grows(16, order);
    }
  }

  method BuildMatrix(order: nat) returns (matrix: array<Byte>)
    ensures matrix.Length == Pow4(order) && fresh(matrix)
    ensures forall i :: 0 <= i < matrix.Length ==> matrix[i] == Entry(i, order)
  {
    hide Entry;
    var l := Pow2(order);
    Pow4IsSquare(order);
    matrix := new Byte[l * l];
    var i := 0;
    while i < l * l
      invariant 0 <= i <= l * l
      invariant forall k :: 0 <= k < i ==> matrix[k] == Entry(k, order)
    {
      matrix[i] := BuildEntry(i, l, order);
      i := i + 1;
    }
  }

  method BuildEntry(i: nat, l: nat, order: nat) returns (t: Byte)
    requires l == Pow2(order) && l * l == Pow4(order)
    ensures t == Entry(i, order)
  {
    hide Rank;
    var d := DitherValue(Quotient(i, l), Remainder(i, l), order);
    DivBelow(255 * (2 * d + 1), 255, 2 * Pow4(order));
    t := 255 * (2 * d + 1) / (2 * (l * l));
  }

  method OrderedDispersedDot(bits: array2<Byte>, order: nat) returns (newBits: array2<Byte>)
    ensures fresh(newBits) && newBits.Length0 == bits.Length0 && newBits.Length1 == bits.Length1
    ensures forall y, x :: 0 <= y < bits.Length0 && 0 <= x < bits.Length1 ==>
              newBits[y, x] == if IsWhite(bits[y, x], x, y, order) then WHITE else BLACK
    ensures forall y, x :: 0 <= y < bits.Length0 && 0 <= x < bits.Length1 ==>
              IsDot(bits[y, x], x, y, order, newBits[y, x])
  {
    hide Entry, IsWhite, Rank, Level, Pow2, Pow4, IsDot;
    newBits := new Byte[bits.Length0, bits.Length1];
    var l := Pow2(order);
    var matrix := BuildMatrix(order);
    var y := 0;
    while y < bits.Length0
      invariant 0 <= y <= bits.Length0
      invariant forall i :: 0 <= i < matrix.Length ==> matrix[i] == Entry(i, order)
      invariant forall v, u :: 0 <= v < y && 0 <= u < bits.Length1 ==>
                  newBits[v, u] == if IsWhite(bits[v, u], u, v, order) then WHITE else BLACK
    {
      var x := 0;
      while x < bits.Length1
        invariant 0 <= x <= bits.Length1
        invariant forall i :: 0 <= i < matrix.Length ==> matrix[i] == Entry(i, order)
        invariant forall v, u :: 0 <= v < y && 0 <= u < bits.Length1 ==>
                    newBits[v, u] == if IsWhite(bits[v, u], u, v, order) then WHITE else BLACK
        invariant forall u :: 0 <= u < x ==>
                    newBits[y, u] == if IsWhite(bits[y, u], u, y, order) then WHITE else BLACK
      {
        newBits[y, x] := Halftone(bits[y, x], matrix, l, x, y, order);
        x := x + 1;
      }
      y := y + 1;
    }
    forall y, x | 0 <= y < bits.Length0 && 0 <= x < bits.Length1
      ensures IsDot(bits[y, x], x, y, order, newBits[y, x])
    {
      WhiteIsDot(bits[y, x], x, y, order);
    }
  }

  /** A pixel is white exactly if the share of its grey in the tile exceeds the middle of its rank. */
  ghost predicate IsDot(g: Byte, x: nat, y: nat, n: nat, out: Byte) {
    exists d: nat :: IsRank(d, y, x, n) && out == if 2 * (g * Pow4(n)) > 255 * (2 * d + 1) then 255 else 0
  }

  lemma WhiteIsDot(g: Byte, x: nat, y: nat, n: nat)
    ensures IsDot(g, x, y, n, if IsWhite(g, x, y, n) then WHITE else BLACK)
  {
    hide Rank, Level, Pow2, Pow4, IsRank;
    var d := Rank(y % Pow2(n), x % Pow2(n), n);
    BelowGrey(d, g, n);
    TileRank(y, x, n);
    assert IsRank(d, y, x, n);
  }

  method Halftone(g: Byte, matrix: array<Byte>, l: nat, x: nat, y: nat, ghost order: nat) returns (p: Byte)
    requires l == Pow2(order) && matrix.Length == Pow4(order)
    requires forall i :: 0 <= i < matrix.Length ==> matrix[i] == Entry(i, order)
    ensures p == if IsWhite(g, x, y, order) then WHITE else BLACK
  {
    hide Entry, Rank, Level, Pow2, Pow4;
    EntryFor(x, y, order);
    p := if g > matrix[x % l + l * (y % l)] then WHITE else BLACK;
  }

  // ---------- what a tile of constant grey becomes ----------

  /** How many of the ranks below k turn white. */
  function WhiteRanks(g: Byte, k: nat, n: nat): (c: nat)
    requires k <= Pow4(n)
    ensures c <= k
  {
    if k == 0 then 0 else WhiteRanks(g, k - 1, n) + if Level(k - 1, n) < g then 1 else 0
  }

  /** The white ranks are the lowest ones. */
  lemma {:induction false} WhiteIsPrefix(g: Byte, k: nat, n: nat)
    requires k <= Pow4(n)
    ensures forall d :: 0 <= d < k ==> (Level(d, n) < g <==> d < WhiteRanks(g, k, n))
  {
    hide Level, Pow4;
    if k > 0 {
      WhiteIsPrefix(g, k - 1, n);
      BelowGrey(k - 1, g, n);
      if k > 1 {
        BelowGrey(k - 2, g, n);
      }
    }
  }

  /** The share of white is the grey value, to within half a rank: the count is g 4^n / 255 rounded
      to the nearest whole number. */
  lemma WhiteShare(g: Byte, n: nat)
    ensures var c := WhiteRanks(g, Pow4(n), n);
      && -255 <= 2 * (255 * c - g * Pow4(n)) <= 255
      && (g == 0 ==> c == 0) && (g == 255 ==> c == Pow4(n))
  {
    hide Level, Pow4, WhiteRanks;
    var p, c := Pow4(n), WhiteRanks(g, Pow4(n), n);
    WhiteIsPrefix(g, p, n);
    if c > 0 {
      BelowGrey(c - 1, g, n);
    }
    if c < p {
      BelowGrey(c, g, n);
    }
    assert g * p <= 255 * p;
  }

  /** The white cells of the tile whose corner is (tx 2^n, ty 2^n), if it is all of grey g. */
  ghost function WhiteCells(g: Byte, tx: nat, ty: nat, n: nat): set<(nat, nat)> {
    set x: nat, y: nat | tx * Pow2(n) <= x < (tx + 1) * Pow2(n) && ty * Pow2(n) <= y < (ty + 1) * Pow2(n)
                         && IsWhite(g, x, y, n) :: (x, y)
  }

  /** Where rank d stands in the tile. */
  ghost function At(d: nat, tx: nat, ty: nat, n: nat): (nat, nat)
    requires d < Pow4(n)
  {
    (tx * Pow2(n) + Cell(d, n).1, ty * Pow2(n) + Cell(d, n).0)
  }

  lemma CellInTile(d: nat, tx: nat, ty: nat, n: nat)
    requires d < Pow4(n)
    ensures var l, p := Pow2(n), At(d, tx, ty, n);
      && tx * l <= p.0 < (tx + 1) * l && ty * l <= p.1 < (ty + 1) * l
      && Rank(p.1 % l, p.0 % l, n) == d
  {
    hide Cell, Rank, Pow2, Pow4;
    var l, c := Pow2(n), Cell(d, n);
    ModUnique(tx * l + c.1, l, tx, c.1);
    ModUnique(ty * l + c.0, l, ty, c.0);
    assert (tx + 1) * l == tx * l + l && (ty + 1) * l == ty * l + l;
    RankOfCell(d, n);
  }

  lemma CellHasRank(x: nat, y: nat, tx: nat, ty: nat, n: nat)
    requires tx * Pow2(n) <= x < (tx + 1) * Pow2(n) && ty * Pow2(n) <= y < (ty + 1) * Pow2(n)
    ensures At(Rank(y % Pow2(n), x % Pow2(n), n), tx, ty, n) == (x, y)
  {
    hide Cell, Rank, Pow2, Pow4;
    var l := Pow2(n);
    assert (tx + 1) * l == tx * l + l && (ty + 1) * l == ty * l + l;
    ModUnique(x, l, tx, x - tx * l);
    ModUnique(y, l, ty, y - ty * l);
    CellOfRank(y % l, x % l, n);
  }

  function Numbers(c: nat): (s: set<nat>)
    ensures forall d: nat :: d in s <==> d < c
    ensures |s| == c
  {
    if c == 0 then {} else Numbers(c - 1) + {c - 1}
  }

  /** A tile of constant grey g turns white at exactly as many cells as there are white ranks,
      wherever it stands. */
  lemma TileCount(g: Byte, tx: nat, ty: nat, n: nat)
    ensures |WhiteCells(g, tx, ty, n)| == WhiteRanks(g, Pow4(n), n)
  {
    hide Cell, Rank, Pow2, Pow4, Level, WhiteRanks, Numbers, At;
    var cells, ranks := WhiteCells(g, tx, ty, n), Numbers(WhiteRanks(g, Pow4(n), n));
    WhiteIsPrefix(g, Pow4(n), n);
    forall d | d in ranks
      ensures At(d, tx, ty, n) in cells && Rank(At(d, tx, ty, n).1 % Pow2(n), At(d, tx, ty, n).0 % Pow2(n), n) == d
    {
      CellInTile(d, tx, ty, n);
    }
    forall p | p in cells
      ensures exists d :: d in ranks && At(d, tx, ty, n) == p
    {
      CellHasRank(p.0, p.1, tx, ty, n);
      assert Rank(p.1 % Pow2(n), p.0 % Pow2(n), n) in ranks;
    }
    SameSize(ranks, cells, (d: nat) requires d < Pow4(n) => At(d, tx, ty, n));
  }

  /** Sets between which a function is one to one have the same size. */
  lemma {:induction false} SameSize<A, B>(s: set<A>, t: set<B>, f: A --> B)
    requires forall a :: a in s ==> f.requires(a) && f(a) in t
    requires forall a, b :: a in s && b in s && f(a) == f(b) ==> a == b
    requires forall b :: b in t ==> exists a :: a in s && f(a) == b
    ensures |s| == |t|
  {
    if s == {} {
      assert t == {};
    } else {
      var a :| a in s;
      SameSize(s - {a}, t - {f(a)}, f);
    }
  }

  /** Black stays black, white stays white, and the mean brightness of any tile of constant grey is
      kept to within half a rank. */
  lemma TileBrightness(g: Byte, tx: nat, ty: nat, n: nat)
    ensures var c := |WhiteCells(g, tx, ty, n)|;
      && -255 <= 2 * (255 * c - g * Pow4(n)) <= 255
      && (g == 0 ==> c == 0) && (g == 255 ==> c == Pow4(n))
  {
    hide WhiteCells, WhiteRanks, Pow4;
    TileCount(g, tx, ty, n);
    WhiteShare(g, n);
  }
}
