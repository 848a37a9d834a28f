/** Floyd and Steinberg error diffusion. */
module FloydSteinberg {
  import opened CArith

  const WHITE: Byte := 255
  const BLACK: Byte := 0

  // ---------- the random thresholds of the borders ----------

  /** A 32-bit int after an overflow. */
  function Wrap32(x: int): (r: int)
    ensures IsInt32(r)
  {
    (x + 0x8000_0000) % 0x1_0000_0000 - 0x8000_0000
  }

  function SeedAfter(seed: int, draws: nat): int {
    if draws == 0 then seed else Wrap32(1103515245 * SeedAfter(seed, draws - 1) + 12345)
  }

  /** WHITE / 2 + RAND(129) - 64.  The shift is arithmetic and C's remainder may be negative. */
  function ThresholdOf(seed: int): (t: int)
    ensures -65 <= t <= 191
  {
    127 + TruncMod(seed / 4096, 129) - 64
  }

  function Draws(seed: int): nat -> int {
    (k: nat) => ThresholdOf(SeedAfter(seed, k + 1))
  }

  // ---------- a border: the whole error goes to the next pixel ----------

  datatype Chain = Chain(out: seq<Byte>, error: int)

  function ChainUpTo(ins: seq<Byte>, t: nat -> int, k: nat): (c: Chain)
    requires k <= |ins|
    ensures |c.out| == k && forall i :: 0 <= i < k ==> c.out[i] == WHITE || c.out[i] == BLACK
  {
    if k == 0 then Chain([], 0)
    else
      var c := ChainUpTo(ins, t, k - 1);
      var pixel := ins[k - 1] + c.error;
      var p := if pixel > t(k - 1) then WHITE else BLACK;
      Chain(c.out + [p], pixel - p)
  }

  /** One more pixel of a border. */
  lemma ChainStep(ins: seq<Byte>, seed: int, k: nat)
    requires k < |ins|
    ensures ChainUpTo(ins, Draws(seed), 0) == Chain([], 0)
    ensures SeedAfter(SeedAfter(seed, k), 1) == SeedAfter(seed, k + 1)
    ensures var c := ChainUpTo(ins, Draws(seed), k);
      var pixel := ins[k] + c.error;
      var p := if pixel > ThresholdOf(SeedAfter(seed, k + 1)) then WHITE else BLACK;
      ChainUpTo(ins, Draws(seed), k + 1) == Chain(c.out + [p], pixel - p)
  {
    hide ThresholdOf;
    assert SeedAfter(SeedAfter(seed, k), 0) == SeedAfter(seed, k);
  }

  function Sum(s: seq<Byte>, k: nat): int
    requires k <= |s|
  {
    if k == 0 then 0 else Sum(s, k - 1) + s[k - 1]
  }

  lemma {:induction false} SumOfPrefix(s: seq<Byte>, b: Byte, k: nat)
    requires k <= |s|
    ensures Sum(s + [b], k) == Sum(s, k)
  {
    if k > 0 {
      SumOfPrefix(s, b, k - 1);
    }
  }

  ghost predicate InRange(t: nat -> int) {
    forall k: nat :: -65 <= t(k) <= 191
  }

  /** Whatever the thresholds, the carried error is the input so far minus the output so far, and it
      never accumulates. */
  lemma {:induction false} ChainKeepsBrightness(ins: seq<Byte>, t: nat -> int, k: nat)
    requires k <= |ins| && InRange(t)
    ensures var c := ChainUpTo(ins, t, k);
      c.error == Sum(ins, k) - Sum(c.out, k) && -319 <= c.error <= 191
  {
    if k > 0 {
      ChainKeepsBrightness(ins, t, k - 1);
      var c := ChainUpTo(ins, t, k - 1);
      var out := ChainUpTo(ins, t, k).out;
      SumOfPrefix(c.out, out[k - 1], k - 1);
      assert out == c.out + [out[k - 1]];
    }
  }

  // ---------- the errors of border pixels, and the rows ----------

  /** The error that a border pixel x passes on if it becomes y: half of what it is above or below the
      middle between y and the mean grey, so a white pixel always owes and a black one always gives. */
  ghost predicate BorderError(x: Byte, y: Byte, e: int) {
    && (y == WHITE ==> -192 <= e <= -64) && (y == BLACK ==> 63 <= e <= 191)
    && (x <= 127 ==> 0 <= (x + 127 - 2 * y) - 2 * e <= 1)
    && (x > 127 ==> 0 <= 2 * e - (x + 127 - 2 * y) <= 1)
  }

  /** INITERR */
  function InitErr(x: Byte, y: Byte): (e: int)
    ensures y == WHITE || y == BLACK ==> BorderError(x, y, e) && -192 <= e <= 191
  {
    x - (if y != 0 then WHITE else BLACK) + TruncDiv(127 - x, 2)
  }

  datatype Row = Row(out: seq<Byte>, err: seq<int>)

  /** Columns 0 to k - 1 of a row whose first pixel is given, below a row with errors prev. */
  function RowUpTo(prev: seq<int>, ins: seq<Byte>, first: Byte, k: nat): (r: Row)
    requires 1 <= k <= |ins| == |prev| && (k > 1 ==> k < |ins|)
    ensures |r.out| == |r.err| == k
  {
    if k == 1 then Row([first], [InitErr(ins[0], first)])
    else
      var r, x := RowUpTo(prev, ins, first, k - 1), k - 1;
      var pixel := ins[x] + TruncDiv(prev[x - 1] + 5 * prev[x] + 3 * prev[x + 1] + 7 * r.err[x - 1], 16);
      if pixel > 127 then Row(r.out + [WHITE], r.err + [pixel - WHITE])
      else Row(r.out + [BLACK], r.err + [pixel - BLACK])
  }

  /** A whole row, with its last pixel given too. */
  function FullRow(prev: seq<int>, ins: seq<Byte>, first: Byte, last: Byte): (r: Row)
    requires 1 <= |ins| == |prev|
    ensures |r.out| == |r.err| == |ins|
  {
    if |ins| == 1 then RowUpTo(prev, ins, last, 1)
    else
      var r := RowUpTo(prev, ins, first, |ins| - 1);
      Row(r.out + [last], r.err + [InitErr(ins[|ins| - 1], last)])
  }

  /** Only black and white come out, and every error that is passed on stays small. */
  ghost predicate Tame(r: Row) {
    && (forall i :: 0 <= i < |r.out| ==> r.out[i] == WHITE || r.out[i] == BLACK)
    && ErrorsSmall(r.err)
  }

  ghost predicate ErrorsSmall(err: seq<int>) {
    forall i :: 0 <= i < |err| ==> -192 <= err[i] <= 191
  }

  /** The diffused error of one pixel: the four weights add up to 16, so the mean of four small
      errors is a small error, and so is what the new pixel leaves over. */
  lemma PixelStaysTame(a: int, b: int, c: int, d: int, x: Byte)
    requires -192 <= a <= 191 && -192 <= b <= 191 && -192 <= c <= 191 && -192 <= d <= 191
    ensures var pixel := x + TruncDiv(a + 5 * b + 3 * c + 7 * d, 16);
      -192 <= (if pixel > 127 then pixel - WHITE else pixel - BLACK) <= 191
  {
  }

  lemma {:induction false} RowStaysTame(prev: seq<int>, ins: seq<Byte>, first: Byte, k: nat)
    requires 1 <= k <= |ins| == |prev| && (k > 1 ==> k < |ins|)
    requires ErrorsSmall(prev) && (first == WHITE || first == BLACK)
    ensures Tame(RowUpTo(prev, ins, first, k))
  {
    if k > 1 {
      RowStaysTame(prev, ins, first, k - 1);
      var x := k - 1;
      var d := RowUpTo(prev, ins, first, k - 1).err[x - 1];
      PixelStaysTame(prev[x - 1], prev[x], prev[x + 1], d, ins[x]);
    }
  }

  lemma FullRowStaysTame(prev: seq<int>, ins: seq<Byte>, first: Byte, last: Byte)
    requires 1 <= |ins| == |prev| && ErrorsSmall(prev)
    requires (first == WHITE || first == BLACK) && (last == WHITE || last == BLACK)
    ensures Tame(FullRow(prev, ins, first, last))
  {
    hide RowUpTo, InitErr;
    if |ins| == 1 {
      RowStaysTame(prev, ins, last, 1);
    } else {
      RowStaysTame(prev, ins, first, |ins| - 1);
    }
  }

  // ---------- the whole image ----------

  type Picture = p: seq<seq<Byte>> | |p| >= 1 && |p[0]| >= 1 && forall y :: 0 <= y < |p| ==> |p[y]| == |p[0]|
    witness [[0]]

  function ColumnOf(p: Picture, x: nat): (s: seq<Byte>)
    requires x < |p[0]|
    ensures |s| == |p| && forall y :: 0 <= y < |p| ==> s[y] == p[y][x]
  {
    seq(|p|, y requires 0 <= y < |p| => p[y][x])
  }

  /** The three borders, dithered one after the other with one run of random numbers. */
  function LeftOf(p: Picture): (s: seq<Byte>)
    ensures |s| == |p|
  {
    ChainUpTo(ColumnOf(p, 0), Draws(0), |p|).out
  }

  function RightOf(p: Picture): (s: seq<Byte>)
    ensures |s| == |p|
  {
    ChainUpTo(ColumnOf(p, |p[0]| - 1), Draws(SeedAfter(0, |p|)), |p|).out
  }

  function TopOf(p: Picture): (s: seq<Byte>)
    ensures |s| == |p[0]|
  {
    ChainUpTo(p[0], Draws(SeedAfter(SeedAfter(0, |p|), |p|)), |p[0]|).out
  }

  /** Row y of the dithered image, and the errors it passes on. */
  function RowOf(p: Picture, y: nat): (r: Row)
    requires y < |p|
    ensures |r.out| == |r.err| == |p[0]|
  {
    if y == 0 then Row(TopOf(p), seq(|p[0]|, x requires 0 <= x < |p[0]| => InitErr(p[0][x], TopOf(p)[x])))
    else FullRow(RowOf(p, y - 1).err, p[y], LeftOf(p)[y], RightOf(p)[y])
  }

  /** In an image of any size every pixel turns black or white and no diffused error leaves
      [-192, 191]. */
  lemma {:induction false} ErrorsNeverAccumulate(p: Picture, y: nat)
    requires y < |p|
    ensures Tame(RowOf(p, y))
  {
    hide ChainUpTo, FullRow;
    BordersBlackOrWhite(p);
    if y > 0 {
      ErrorsNeverAccumulate(p, y - 1);
      FullRowStaysTame(RowOf(p, y - 1).err, p[y], LeftOf(p)[y], RightOf(p)[y]);
    }
  }

  predicate BlackOrWhite(s: seq<Byte>) {
    forall i :: 0 <= i < |s| ==> s[i] == WHITE || s[i] == BLACK
  }

  lemma BordersBlackOrWhite(p: Picture)
    ensures BlackOrWhite(LeftOf(p)) && BlackOrWhite(RightOf(p)) && BlackOrWhite(TopOf(p))
  {
    hide ChainUpTo, Draws;
  }

  /** The first row keeps its brightness as a whole: its output differs from its input by at most
      319 grey levels, less than two white pixels, however long it is. */
  lemma FirstRowBrightness(p: Picture)
    ensures -319 <= Sum(p[0], |p[0]|) - Sum(RowOf(p, 0).out, |p[0]|) <= 191
  {
    ChainKeepsBrightness(p[0], Draws(SeedAfter(SeedAfter(0, |p|), |p|)), |p[0]|);
  }

  // ---------- the dithered image, told from its pixels ----------

  /** A border: a pixel is white exactly if the input up to it exceeds the output before it by more than
      its threshold. */
  ghost predicate ChainIs(ins: seq<Byte>, t: nat -> int, out: seq<Byte>) {
    && |out| == |ins|
    && forall k :: 0 <= k < |ins| ==>
         && (out[k] == WHITE || out[k] == BLACK)
         && (out[k] == WHITE <==> Sum(ins, k + 1) - Sum(out, k) > t(k))
  }

  /** An inner pixel: it gets a sixteenth, cut toward zero, of four errors with the weights 1, 5, 3 and 7,
      is white exactly if it then exceeds 127, and passes on what is left. */
  ghost predicate PixelDiffused(x: Byte, a: int, b: int, c: int, d: int, out: Byte, e: int) {
    var total, got := 1 * a + 5 * b + 3 * c + 7 * d, e + out - x;
    && (if total >= 0 then 0 <= total - 16 * got < 16 else -16 < total - 16 * got <= 0)
    && (out == WHITE || out == BLACK) && (out == WHITE <==> x + got > 127)
  }

  /** A row below a row with errors prev: above left, above, above right, left. */
  ghost predicate RowDiffused(ins: seq<Byte>, prev: seq<int>, out: seq<Byte>, err: seq<int>, first: Byte, last: Byte) {
    && |ins| == |prev| == |out| == |err| >= 1
    && out[|ins| - 1] == last && (|ins| > 1 ==> out[0] == first)
    && BorderError(ins[0], out[0], err[0]) && BorderError(ins[|ins| - 1], out[|ins| - 1], err[|ins| - 1])
    && forall x :: 1 <= x < |ins| - 1 ==>
         PixelDiffused(ins[x], prev[x - 1], prev[x], prev[x + 1], err[x - 1], out[x], err[x])
  }

  /** The image: three borders with one run of random thresholds, the left one first, and rows that are
      diffused downward.  The right border wins in an image of one column, and the top one in the corners. */
  ghost predicate Diffused(p: Picture, out: seq<seq<Byte>>, errs: seq<seq<int>>, left: seq<Byte>, right: seq<Byte>) {
    var h, w := |p|, |p[0]|;
    && |out| == |errs| == h
    && ChainIs(ColumnOf(p, 0), Draws(0), left)
    && ChainIs(ColumnOf(p, w - 1), Draws(SeedAfter(0, h)), right)
    && ChainIs(p[0], Draws(SeedAfter(SeedAfter(0, h), h)), out[0])
    && |errs[0]| == w && (forall x :: 0 <= x < w ==> BorderError(p[0][x], out[0][x], errs[0][x]))
    && forall y :: 1 <= y < h ==> RowDiffused(p[y], errs[y - 1], out[y], errs[y], left[y], right[y])
  }

  lemma ChainGrows(ins: seq<Byte>, t: nat -> int, k: nat)
    requires k < |ins|
    ensures Sum(ins, k + 1) == Sum(ins, k) + ins[k]
    ensures var c, pixel := ChainUpTo(ins, t, k), ins[k] + ChainUpTo(ins, t, k).error;
      var p := if pixel > t(k) then WHITE else BLACK;
      ChainUpTo(ins, t, k + 1) == Chain(c.out + [p], pixel - p) && Sum(c.out + [p], k + 1) == Sum(c.out + [p], k) + p
  {
  }

  lemma {:induction false} ChainSoFar(ins: seq<Byte>, t: nat -> int, k: nat)
    requires k <= |ins|
    ensures var c := ChainUpTo(ins, t, k);
      && c.error == Sum(ins, k) - Sum(c.out, k)
      && forall i :: 0 <= i < k ==> (c.out[i] == WHITE <==> Sum(ins, i + 1) - Sum(c.out, i) > t(i))
  {
    hide Sum, ChainUpTo;
    if k == 0 {
      NoChain(ins, t);
    } else {
      ChainSoFar(ins, t, k - 1);
      ChainGrows(ins, t, k - 1);
      var c, out := ChainUpTo(ins, t, k - 1).out, ChainUpTo(ins, t, k).out;
      forall i | 0 <= i < k
        ensures Sum(out, i) == Sum(c, i)
      {
        SumOfPrefix(c, out[k - 1], i);
      }
    }
  }

  lemma NoChain(ins: seq<Byte>, t: nat -> int)
    ensures ChainUpTo(ins, t, 0) == Chain([], 0) && Sum(ins, 0) == 0 && Sum([], 0) == 0
  {
  }

  lemma ChainIsUpTo(ins: seq<Byte>, t: nat -> int)
    ensures ChainIs(ins, t, ChainUpTo(ins, t, |ins|).out)
  {
    ChainSoFar(ins, t, |ins|);
  }

  lemma {:induction false} RowSoFarDiffused(prev: seq<int>, ins: seq<Byte>, first: Byte, k: nat)
    requires 1 <= k <= |ins| == |prev| && (k > 1 ==> k < |ins|)
    ensures var r := RowUpTo(prev, ins, first, k);
      forall x :: 1 <= x < k ==>
        PixelDiffused(ins[x], prev[x - 1], prev[x], prev[x + 1], r.err[x - 1], r.out[x], r.err[x])
  {
    if k > 1 {
      RowSoFarDiffused(prev, ins, first, k - 1);
      RowStep(prev, ins, first, k - 1);
    }
  }

  lemma FullRowDiffused(prev: seq<int>, ins: seq<Byte>, first: Byte, last: Byte)
    requires 1 <= |ins| == |prev| && (first == WHITE || first == BLACK) && (last == WHITE || last == BLACK)
    ensures var r := FullRow(prev, ins, first, last);
      RowDiffused(ins, prev, r.out, r.err, first, last)
  {
    hide RowUpTo, PixelDiffused, InitErr;
    var k, r := if |ins| == 1 then 1 else |ins| - 1, FullRow(prev, ins, first, last);
    var top := if |ins| == 1 then last else first;
    RowSoFarDiffused(prev, ins, top, k);
    FirstColumn(prev, ins, top, k);
    assert forall x :: 1 <= x < |ins| - 1 ==>
        PixelDiffused(ins[x], prev[x - 1], prev[x], prev[x + 1], r.err[x - 1], r.out[x], r.err[x]);
    InitErrIs(ins[0], r.out[0]);
    InitErrIs(ins[|ins| - 1], last);
  }

  lemma InitErrIs(x: Byte, y: Byte)
    requires y == WHITE || y == BLACK
    ensures BorderError(x, y, InitErr(x, y))
  {
  }

  ghost function OutOf(p: Picture): (out: seq<seq<Byte>>)
    ensures |out| == |p| && forall y :: 0 <= y < |p| ==> out[y] == RowOf(p, y).out
  {
    seq(|p|, y requires 0 <= y < |p| => RowOf(p, y).out)
  }

  ghost function ErrorsOf(p: Picture): (errs: seq<seq<int>>)
    ensures |errs| == |p| && forall y :: 0 <= y < |p| ==> errs[y] == RowOf(p, y).err
  {
    seq(|p|, y requires 0 <= y < |p| => RowOf(p, y).err)
  }

  lemma ImageIsDiffused(p: Picture)
    ensures Diffused(p, OutOf(p), ErrorsOf(p), LeftOf(p), RightOf(p))
  {
    hide ChainUpTo, Draws, SeedAfter, ChainIs, RowDiffused, InitErr, FullRow;
    var h, w := |p|, |p[0]|;
    ChainIsUpTo(ColumnOf(p, 0), Draws(0));
    ChainIsUpTo(ColumnOf(p, w - 1), Draws(SeedAfter(0, h)));
    ChainIsUpTo(p[0], Draws(SeedAfter(SeedAfter(0, h), h)));
    BordersBlackOrWhite(p);
    forall x | 0 <= x < w
      ensures BorderError(p[0][x], OutOf(p)[0][x], ErrorsOf(p)[0][x])
    {
      InitErrIs(p[0][x], TopOf(p)[x]);
    }
    forall y | 1 <= y < h
      ensures RowDiffused(p[y], ErrorsOf(p)[y - 1], OutOf(p)[y], ErrorsOf(p)[y], LeftOf(p)[y], RightOf(p)[y])
    {
      FullRowDiffused(RowOf(p, y - 1).err, p[y], LeftOf(p)[y], RightOf(p)[y]);
    }
  }

  /** The random numbers: a step of the generator modulo 2^32, and a threshold that is the seed's upper
      twenty bits modulo 129, with the seed's sign, above 63. */
  lemma ThresholdIs(seed: int, k: nat)
    ensures exists q: int :: SeedAfter(seed, k + 1) == 1103515245 * SeedAfter(seed, k) + 12345 - q * 0x1_0000_0000
    ensures -0x8000_0000 <= SeedAfter(seed, k + 1) <= 0x7FFF_FFFF
    ensures exists q: int :: ThresholdOf(seed) == 63 + seed / 4096 - 129 * q
    ensures if seed >= 0 then 63 <= ThresholdOf(seed) < 63 + 129 else 63 - 129 < ThresholdOf(seed) <= 63
  {
    var x := 1103515245 * SeedAfter(seed, k) + 12345;
    var q := (x + 0x8000_0000) / 0x1_0000_0000;
    assert x + 0x8000_0000 == q * 0x1_0000_0000 + (x + 0x8000_0000) % 0x1_0000_0000;
    assert SeedAfter(seed, k + 1) == x - q * 0x1_0000_0000;
    var s := seed / 4096;
    if s >= 0 {
      assert s == 129 * (s / 129) + s % 129;
      assert ThresholdOf(seed) == 63 + seed / 4096 - 129 * (s / 129);
    } else {
      assert -s == 129 * (-s / 129) + (-s) % 129;
      assert ThresholdOf(seed) == 63 + seed / 4096 - 129 * (-((-s) / 129));
    }
  }

  // ---------- the code ----------

  ghost function PictureOf(bits: array2<Byte>): (p: Picture)
    requires bits.Length0 >= 1 && bits.Length1 >= 1
    reads bits
    ensures |p| == bits.Length0 && |p[0]| == bits.Length1
    ensures forall y, x :: 0 <= y < |p| && 0 <= x < |p[0]| ==> p[y][x] == bits[y, x]
  {
    seq(bits.Length0, y requires 0 <= y < bits.Length0 reads bits =>
      seq(bits.Length1, x requires 0 <= x < bits.Length1 reads bits => bits[y, x]))
  }

  /** One use of the RAND macro. */
  method NextThreshold(seed: int) returns (threshold: int, seed': int)
    ensures seed' == SeedAfter(seed, 1) && threshold == ThresholdOf(seed')
  {
    seed' := Wrap32(1103515245 * seed + 12345);
    threshold := 127 + TruncMod(seed' / 4096, 129) - 64;
    assert SeedAfter(seed, 0) == seed;
  }

  /** The left or the right border. */
  method BorderColumn(bits: array2<Byte>, newBits: array2<Byte>, column: nat, seed: int, ghost ins: seq<Byte>)
    returns (seed': int)
    requires bits != newBits && bits.Length0 == newBits.Length0 == |ins| >= 1 && bits.Length1 == newBits.Length1
    requires column < bits.Length1 && forall y :: 0 <= y < |ins| ==> ins[y] == bits[y, column]
    modifies newBits
    ensures seed' == SeedAfter(seed, |ins|)
    ensures forall y :: 0 <= y < |ins| ==> newBits[y, column] == ChainUpTo(ins, Draws(seed), |ins|).out[y]
    ensures forall y, x :: 0 <= y < bits.Length0 && 0 <= x < bits.Length1 && x != column ==>
              newBits[y, x] == old(newBits[y, x])
  {
    hide SeedAfter, ThresholdOf, ChainUpTo, Draws;
    seed' := seed;
    NoDraws(seed);
    ChainStep(ins, seed, 0);
    var error, y := 0, 0;
    while y < bits.Length0
      invariant 0 <= y <= bits.Length0 && seed' == SeedAfter(seed, y)
      invariant error == ChainUpTo(ins, Draws(seed), y).error
      invariant forall v :: 0 <= v < y ==> newBits[v, column] == ChainUpTo(ins, Draws(seed), y).out[v]
      invariant forall v, x :: 0 <= v < bits.Length0 && 0 <= x < bits.Length1 && x != column ==>
                  newBits[v, x] == old(newBits[v, x])
    {
      ChainStep(ins, seed, y);
      var threshold;
      threshold, seed' := NextThreshold(seed');
      var pixel := bits[y, column] + error;
      var p := if pixel > threshold then WHITE else BLACK;
      error := pixel - p;
      newBits[y, column] := p;
      y := y + 1;
    }
  }

  lemma NoDraws(seed: int)
    ensures SeedAfter(seed, 0) == seed
  {
  }

  /** The top border, which also starts the error row. */
  method TopBorder(bits: array2<Byte>, newBits: array2<Byte>, lerr: array<int>, seed: int, ghost ins: seq<Byte>)
    requires bits != newBits && bits.Length0 == newBits.Length0 >= 1
    requires bits.Length1 == newBits.Length1 == lerr.Length == |ins| >= 1
    requires forall x :: 0 <= x < |ins| ==> ins[x] == bits[0, x]
    modifies newBits, lerr
    ensures forall x :: 0 <= x < |ins| ==> newBits[0, x] == ChainUpTo(ins, Draws(seed), |ins|).out[x]
    ensures forall x :: 0 <= x < |ins| ==> lerr[x] == InitErr(ins[x], ChainUpTo(ins, Draws(seed), |ins|).out[x])
    ensures forall y, x :: 0 < y < bits.Length0 && 0 <= x < bits.Length1 ==> newBits[y, x] == old(newBits[y, x])
  {
    hide SeedAfter, ThresholdOf, InitErr, ChainUpTo, Draws;
    var seed', error, x := seed, 0, 0;
    NoDraws(seed);
    ChainStep(ins, seed, 0);
    while x < bits.Length1
      invariant 0 <= x <= bits.Length1 && seed' == SeedAfter(seed, x)
      invariant error == ChainUpTo(ins, Draws(seed), x).error
      invariant forall u :: 0 <= u < x ==> newBits[0, u] == ChainUpTo(ins, Draws(seed), x).out[u]
      invariant forall u :: 0 <= u < x ==> lerr[u] == InitErr(ins[u], ChainUpTo(ins, Draws(seed), x).out[u])
      invariant forall v, u :: 0 < v < bits.Length0 && 0 <= u < bits.Length1 ==> newBits[v, u] == old(newBits[v, u])
    {
      ChainStep(ins, seed, x);
      var threshold;
      threshold, seed' := NextThreshold(seed');
      var pixel := bits[0, x] + error;
      var p := if pixel > threshold then WHITE else BLACK;
      error := pixel - p;
      newBits[0, x] := p;
      lerr[x] := InitialError(bits[0, x], p);
      x := x + 1;
    }
  }

  /** The INITERR macro. */
  method InitialError(x: Byte, y: Byte) returns (e: int)
    ensures e == InitErr(x, y)
  {
    e := x - (if y != 0 then WHITE else BLACK) + TruncDiv(127 - x, 2);
  }

  /** The pixels of row y so far, and the errors so far. */
  ghost predicate RowSoFar(newBits: array2<Byte>, cerr: array<int>, y: nat, r: Row)
    requires y < newBits.Length0 && |r.out| == |r.err| && |r.out| <= newBits.Length1 == cerr.Length
    reads newBits, cerr
  {
    forall u :: 0 <= u < |r.out| ==> newBits[y, u] == r.out[u] && cerr[u] == r.err[u]
  }

  /** One more pixel of a row. */
  lemma RowStep(prev: seq<int>, ins: seq<Byte>, first: Byte, x: nat)
    requires 1 <= x < |ins| - 1 && |ins| == |prev|
    ensures var r := RowUpTo(prev, ins, first, x);
      var pixel := ins[x] + TruncDiv(prev[x - 1] + 5 * prev[x] + 3 * prev[x + 1] + 7 * r.err[x - 1], 16);
      var p := if pixel > 127 then WHITE else BLACK;
      RowUpTo(prev, ins, first, x + 1) == Row(r.out + [p], r.err + [pixel - p])
  {
  }

  lemma {:induction false} FirstColumn(prev: seq<int>, ins: seq<Byte>, first: Byte, k: nat)
    requires 1 <= k <= |ins| == |prev| && (k > 1 ==> k < |ins|)
    ensures RowUpTo(prev, ins, first, k).out[0] == first && RowUpTo(prev, ins, first, k).err[0] == InitErr(ins[0], first)
  {
    if k > 1 {
      FirstColumn(prev, ins, first, k - 1);
    }
  }

  lemma RowEnds(prev: seq<int>, ins: seq<Byte>, first: Byte, last: Byte, k: nat)
    requires 1 <= |ins| == |prev| && k == (if |ins| == 1 then 1 else |ins| - 1) && (|ins| == 1 ==> first == last)
    ensures var r, w := FullRow(prev, ins, first, last), |ins|;
      && r.err[0] == InitErr(ins[0], first) && r.err[w - 1] == InitErr(ins[w - 1], last)
      && r.out[0] == first && r.out[w - 1] == last
      && (forall u :: 0 <= u < k ==> r.err[u] == RowUpTo(prev, ins, first, k).err[u])
      && (forall u :: 0 <= u < k ==> r.out[u] == RowUpTo(prev, ins, first, k).out[u])
  {
    hide RowUpTo, InitErr;
    FirstColumn(prev, ins, first, k);
  }

  /** One row of the interior, between ends that are already dithered. */
  method InteriorRow(bits: array2<Byte>, newBits: array2<Byte>, lerr: array<int>, cerr: array<int>, y: nat, ghost ins: seq<Byte>)
    requires bits != newBits && bits.Length0 == newBits.Length0 && 0 < y < bits.Length0
    requires bits.Length1 == newBits.Length1 == lerr.Length == cerr.Length == |ins| >= 1 && lerr != cerr
    requires forall x :: 0 <= x < |ins| ==> ins[x] == bits[y, x]
    modifies newBits, cerr
    ensures RowSoFar(newBits, cerr, y, FullRow(lerr[..], ins, old(newBits[y, 0]), old(newBits[y, bits.Length1 - 1])))
    ensures forall v, x :: 0 <= v < bits.Length0 && v != y && 0 <= x < bits.Length1 ==>
              newBits[v, x] == old(newBits[v, x])
  {
    hide InitErr, RowUpTo, FullRow;
    var w := bits.Length1;
    ghost var prev, first, last := lerr[..], newBits[y, 0], newBits[y, w - 1];
    cerr[0] := InitialError(bits[y, 0], newBits[y, 0]);
    FirstColumn(prev, ins, first, 1);
    var x := 1;
    while x < w - 1
      invariant 1 <= x && (w > 1 ==> x <= w - 1) && (w == 1 ==> x == 1)
      invariant newBits[y, w - 1] == last && lerr[..] == prev
      invariant RowSoFar(newBits, cerr, y, RowUpTo(prev, ins, first, x))
      invariant forall v, u :: 0 <= v < bits.Length0 && v != y && 0 <= u < w ==> newBits[v, u] == old(newBits[v, u])
    {
      RowStep(prev, ins, first, x);
      var error := TruncDiv(lerr[x - 1] + 5 * lerr[x] + 3 * lerr[x + 1] + 7 * cerr[x - 1], 16);
      var pixel := bits[y, x] + error;
      if pixel > 127 {
        newBits[y, x] := WHITE;
        cerr[x] := pixel - WHITE;
      } else {
        newBits[y, x] := BLACK;
        cerr[x] := pixel - BLACK;
      }
      x := x + 1;
    }
    FirstColumn(prev, ins, first, x);
    RowEnds(prev, ins, first, last, x);
    cerr[0] := InitialError(bits[y, 0], newBits[y, 0]);
    cerr[w - 1] := InitialError(bits[y, w - 1], newBits[y, w - 1]);
  }

  ghost predicate RowsDone(newBits: array2<Byte>, p: Picture, y: nat)
    requires y <= |p| == newBits.Length0 && |p[0]| == newBits.Length1
    reads newBits
  {
    forall v, x :: 0 <= v < y && 0 <= x < |p[0]| ==> newBits[v, x] == RowOf(p, v).out[x]
  }

  /** From row y on both borders are dithered; the right one wins in an image of one column. */
  ghost predicate BordersDone(newBits: array2<Byte>, p: Picture, y: nat)
    requires y <= |p| == newBits.Length0 && |p[0]| == newBits.Length1
    reads newBits
  {
    forall v :: y <= v < |p| ==>
      newBits[v, |p[0]| - 1] == RightOf(p)[v] && newBits[v, 0] == if |p[0]| == 1 then RightOf(p)[v] else LeftOf(p)[v]
  }

  /** The first column of a single-column image is its last. */
  lemma OneColumn(prev: seq<int>, ins: seq<Byte>, first: Byte, last: Byte)
    requires |ins| == |prev| == 1
    ensures FullRow(prev, ins, first, last) == FullRow(prev, ins, last, last)
  {
  }

  lemma AfterBorders(newBits: array2<Byte>, lerr: array<int>, p: Picture)
    requires newBits.Length0 == |p| && newBits.Length1 == lerr.Length == |p[0]|
    requires forall x :: 0 <= x < |p[0]| ==> newBits[0, x] == TopOf(p)[x] && lerr[x] == InitErr(p[0][x], TopOf(p)[x])
    requires forall y :: 1 <= y < |p| ==>
               newBits[y, |p[0]| - 1] == RightOf(p)[y] && (|p[0]| > 1 ==> newBits[y, 0] == LeftOf(p)[y])
    ensures lerr[..] == RowOf(p, 0).err && RowsDone(newBits, p, 1) && BordersDone(newBits, p, 1)
  {
    hide InitErr, TopOf, LeftOf, RightOf;
  }

  /** The ends of row y decide the row. */
  lemma RowEndsFrom(newBits: array2<Byte>, p: Picture, y: nat, prev: seq<int>)
    requires newBits.Length0 == |p| && newBits.Length1 == |p[0]| && 0 < y < |p| && BordersDone(newBits, p, y)
    requires prev == RowOf(p, y - 1).err
    ensures FullRow(prev, p[y], newBits[y, 0], newBits[y, |p[0]| - 1]) == RowOf(p, y)
  {
    hide TopOf, LeftOf, RightOf, FullRow;
    if |p[0]| == 1 {
      OneColumn(prev, p[y], LeftOf(p)[y], RightOf(p)[y]);
    }
  }

  method NextRow(bits: array2<Byte>, newBits: array2<Byte>, lerr: array<int>, cerr: array<int>, y: nat, ghost p: Picture)
    requires bits != newBits && bits.Length0 == newBits.Length0 == |p| && 0 < y < |p|
    requires bits.Length1 == newBits.Length1 == lerr.Length == cerr.Length == |p[0]| && lerr != cerr
    requires forall x :: 0 <= x < |p[0]| ==> p[y][x] == bits[y, x]
    requires lerr[..] == RowOf(p, y - 1).err && RowsDone(newBits, p, y) && BordersDone(newBits, p, y)
    modifies newBits, cerr
    ensures RowsDone(newBits, p, y + 1) && BordersDone(newBits, p, y + 1) && cerr[..] == RowOf(p, y).err
  {
    hide TopOf, LeftOf, RightOf, RowOf, FullRow;
    RowEndsFrom(newBits, p, y, lerr[..]);
    InteriorRow(bits, newBits, lerr, cerr, y, p[y]);
  }

  ghost predicate HoldsImage(newBits: array2<Byte>, out: seq<seq<Byte>>)
    reads newBits
  {
    && |out| == newBits.Length0
    && forall y, x :: 0 <= y < |out| && 0 <= x < newBits.Length1 ==> |out[y]| == newBits.Length1 && newBits[y, x] == out[y][x]
  }

  lemma HoldsRows(newBits: array2<Byte>, p: Picture)
    requires newBits.Length0 == |p| && newBits.Length1 == |p[0]| && RowsDone(newBits, p, |p|)
    ensures HoldsImage(newBits, OutOf(p))
  {
    hide RowOf;
  }

  method FloydSteinberg(bits: array2<Byte>) returns (newBits: array2<Byte>)
    requires bits.Length0 >= 1 && bits.Length1 >= 1
    ensures fresh(newBits) && newBits.Length0 == bits.Length0 && newBits.Length1 == bits.Length1
    ensures RowsDone(newBits, PictureOf(bits), bits.Length0)
    ensures exists out, errs, left, right ::
              Diffused(PictureOf(bits), out, errs, left, right) && HoldsImage(newBits, out)
  {
    hide Diffused, ChainUpTo, Draws, SeedAfter, FullRow, InitErr, PictureOf, RowsDone, BordersDone, RowOf;
    var height, width := bits.Length0, bits.Length1;
    ghost var p := PictureOf(bits);
    newBits := new Byte[height, width];
    var lerr, cerr := new int[width], new int[width];
    NoDraws(0);
    var seed := BorderColumn(bits, newBits, 0, 0, ColumnOf(p, 0));
    seed := BorderColumn(bits, newBits, width - 1, seed, ColumnOf(p, width - 1));
    TopBorder(bits, newBits, lerr, seed, p[0]);
    AfterBorders(newBits, lerr, p);
    var y := 1;
    while y < height
      invariant 1 <= y <= height && fresh(lerr) && fresh(cerr) && lerr != cerr && lerr.Length == cerr.Length == width
      invariant lerr[..] == RowOf(p, y - 1).err
      invariant RowsDone(newBits, p, y) && BordersDone(newBits, p, y)
    {
      NextRow(bits, newBits, lerr, cerr, y, p);
      lerr, cerr := cerr, lerr;
      y := y + 1;
    }
    ImageIsDiffused(p);
    HoldsRows(newBits, p);
  }
}
