/** NeuQuant's learning phase as a function of the image: one step a sample, and what every
    number of steps keeps. */
module NetLearn {
  import opened CArith
  import Scan

  const NCYCLES := 100
  const INT_BIAS := 0x1_0000      // intbias: 1.0 in freq
  const GAMMA := 0x400            // 1 << gammashift
  const BETA := 64                // intbias >> betashift
  const BETA_GAMMA := 0x1_0000    // intbias << (gammashift - betashift)
  const RADIUS_BIAS := 64
  const RADIUS_DEC := 30
  const INIT_ALPHA := 0x400
  const RAD_BIAS := 0x100
  const ALPHA_RAD_BIAS := 0x4_0000
  const MAX_LEVEL := 4080         // 255 << netbiasshift

  /** A neuron, or after unbiasing a palette colour with the palette place it was written to. */
  datatype Neuron = Neuron(b: int, g: int, r: int, c: int)

  datatype Bgr = Bgr(b: Byte, g: Byte, r: Byte)

  /** A sample: a pixel's components shifted left by netbiasshift. */
  datatype Sample = Sample(b: int, g: int, r: int) {
    predicate Valid() {
      0 <= b <= MAX_LEVEL && 0 <= g <= MAX_LEVEL && 0 <= r <= MAX_LEVEL
    }
  }

  datatype Image = Image(width: nat, height: nat, rows: seq<seq<Bgr>>) {
    /** The bytes of the image: lengthcount. */
    function Length(): nat {
      width * height * 3
    }

    /** The dimensions are those whose buffer length fits the source's `int`. */
    ghost predicate Valid() {
      && 0 < width && 0 < height && Length() <= INT_MAX
      && |rows| == height && forall y :: 0 <= y < height ==> |rows[y]| == width
    }
  }

  function Dist(n: Neuron, px: Sample): nat {
    Abs(n.b - px.b) + Abs(n.g - px.g) + Abs(n.r - px.r)
  }

  // ---------- the contest ----------

  ghost predicate IsFirstMin(s: seq<int>, k: nat) {
    && k < |s|
    && (forall i :: 0 <= i < |s| ==> s[k] <= s[i])
    && (forall i :: 0 <= i < k ==> s[k] < s[i])
  }

  /** The first place of a smallest element. */
  function FirstMin(s: seq<int>): (k: nat)
    requires |s| > 0
    ensures IsFirstMin(s, k)
  {
    var n := |s| - 1;
    if n == 0 then 0
    else
      var k := FirstMin(s[..n]);
      assert forall i :: 0 <= i < n ==> s[..n][i] == s[i];
      if s[n] < s[k] then n else k
  }

  lemma FirstMinUnique(s: seq<int>, j: nat, k: nat)
    requires IsFirstMin(s, j) && IsFirstMin(s, k)
    ensures j == k
  {
    assert s[j] <= s[k] <= s[j];
  }

  /** The running best over the first i elements: none yet, or the first smallest of them. */
  ghost predicate BestSoFar(s: seq<int>, i: nat, k: int, best: int) {
    && i <= |s|
    && if i == 0 then best == INT_MAX else 0 <= k < i && best == s[k] && IsFirstMin(s[..i], k)
  }

  lemma NoneYet(s: seq<int>, k: int)
    ensures BestSoFar(s, 0, k, INT_MAX)
  {
  }

  lemma NextBest(s: seq<int>, i: nat, k: int, best: int)
    requires BestSoFar(s, i, k, best) && i < |s| && s[i] < INT_MAX
    ensures BestSoFar(s, i + 1, if s[i] < best then i else k, if s[i] < best then s[i] else best)
  {
    assert s[..i + 1][..i] == s[..i] && s[..i + 1][i] == s[i];
  }

  lemma LastBest(s: seq<int>, k: int, best: int)
    requires BestSoFar(s, |s|, k, best) && |s| > 0
    ensures k == FirstMin(s)
  {
    assert s[..|s|] == s;
    FirstMinUnique(s, k, FirstMin(s));
  }

  function Dists(net: seq<Neuron>, px: Sample): (s: seq<int>)
    ensures |s| == |net|
  {
    seq(|net|, i requires 0 <= i < |net| => Dist(net[i], px))
  }

  /** Distances less the bias, shifted right by intbiasshift - netbiasshift. */
  function BiasDists(net: seq<Neuron>, bias: seq<int>, px: Sample): (s: seq<int>)
    requires |bias| == |net|
    ensures |s| == |net|
  {
    seq(|net|, i requires 0 <= i < |net| => Dist(net[i], px) - bias[i] / 0x1000)
  }

  function FreqAfter(freq: seq<int>, hit: nat): (s: seq<int>)
    ensures |s| == |freq|
  {
    seq(|freq|, i requires 0 <= i < |freq| => freq[i] - freq[i] / 0x400 + if i == hit then BETA else 0)
  }

  function BiasAfter(bias: seq<int>, freq: seq<int>, hit: nat): (s: seq<int>)
    requires |bias| == |freq|
    ensures |s| == |bias|
  {
    seq(|bias|, i requires 0 <= i < |bias| =>
      bias[i] + (freq[i] / 0x400) * GAMMA - if i == hit then BETA_GAMMA else 0)
  }

  // ---------- moving neurons ----------

  function Pull(x: int, target: int, a: int, scale: int): int
    requires scale > 0
  {
    x - TruncDiv(a * (x - target), scale)
  }

  function Toward(n: Neuron, px: Sample, a: int, scale: int): Neuron
    requires scale > 0
  {
    Neuron(Pull(n.b, px.b, a, scale), Pull(n.g, px.g, a, scale), Pull(n.r, px.r, a, scale), n.c)
  }

  /** The radius in neurons; a radius of one or less moves no neighbour. */
  function RadOf(radius: int): int {
    if radius / RADIUS_BIAS <= 1 then 0 else radius / RADIUS_BIAS
  }

  lemma RadIsNotOne(radius: int)
    ensures RadOf(radius) != 1 && RadOf(radius) >= 0
  {
  }

  /** radpower[d]: alpha * (1 - d^2 / rad^2), biased by 18 bits. */
  function RadPower(alpha: int, rad: int, d: int): int
    requires rad > 0
  {
    assert rad * rad > 0;
    alpha * (((rad * rad - d * d) * RAD_BIAS) / (rad * rad))
  }

  /** Neurons nearer than rad to the winner move by their distance's power, the winner stays. */
  function PullNeighbours(net: seq<Neuron>, alpha: int, rad: int, i: int, px: Sample): (s: seq<Neuron>)
    requires rad > 0
    ensures |s| == |net|
  {
    seq(|net|, k requires 0 <= k < |net| =>
      if k != i && Abs(k - i) < rad then Toward(net[k], px, RadPower(alpha, rad, Abs(k - i)), ALPHA_RAD_BIAS)
      else net[k])
  }

  /** `now` is `net` with the neurons strictly between k and j pulled, all but the winner i. */
  ghost predicate PulledBetween(net: seq<Neuron>, now: seq<Neuron>, alpha: int, rad: int, i: int, px: Sample, k: int, j: int)
    requires rad > 0
  {
    && |now| == |net|
    && forall t :: 0 <= t < |net| ==>
         now[t] == if k < t < j && t != i then Toward(net[t], px, RadPower(alpha, rad, Abs(t - i)), ALPHA_RAD_BIAS)
                   else net[t]
  }

  lemma PullsStart(net: seq<Neuron>, alpha: int, rad: int, i: int, px: Sample)
    requires rad > 0
    ensures PulledBetween(net, net, alpha, rad, i, px, i - 1, i + 1)
  {
  }

  lemma PullsGrow(net: seq<Neuron>, now: seq<Neuron>, alpha: int, rad: int, i: int, px: Sample, k: int, j: int, t: int)
    requires rad > 0 && PulledBetween(net, now, alpha, rad, i, px, k, j) && k < i < j && 0 <= t < |net| == |now|
    ensures var next := now[t := Toward(now[t], px, RadPower(alpha, rad, Abs(t - i)), ALPHA_RAD_BIAS)];
      && (t == j ==> PulledBetween(net, next, alpha, rad, i, px, k, j + 1))
      && (t == k ==> PulledBetween(net, next, alpha, rad, i, px, k - 1, j))
  {
  }

  lemma PullsEnd(net: seq<Neuron>, now: seq<Neuron>, alpha: int, rad: int, i: int, px: Sample, n: nat)
    requires rad > 0 && n <= |net| && 0 <= i < n
    requires PulledBetween(net, now, alpha, rad, i, px, Max(i - rad, -1), Min(i + rad, n))
    ensures |now| == |net| && now[..n] == PullNeighbours(net[..n], alpha, rad, i, px) && now[n..] == net[n..]
  {
  }

  // ---------- one step, any number of steps ----------

  /** What `learn` fixes before its loop. */
  datatype Params = Params(len: nat, step: nat, delta: nat, alphadec: nat) {
    predicate Valid() {
      len > 0 && delta > 0 && alphadec >= 30
    }
  }

  datatype Learner = Learner(net: seq<Neuron>, bias: seq<int>, freq: seq<int>, alpha: int, radius: int, pos: nat)

  function ParamsOf(img: Image, sampling: nat): Params
    requires sampling > 0
  {
    var len := img.Length();
    var delta := SampleCount(img, sampling) / NCYCLES;
    Params(len, 3 * Scan.ChoosePrime(len), if delta == 0 then 1 else delta, 30 + (sampling - 1) / 3)
  }

  function SampleCount(img: Image, sampling: nat): nat
    requires sampling > 0
  {
    DivShrinks(img.Length(), 3 * sampling);
    (img.Length()) / (3 * sampling)
  }

  /** The pixel that holds byte `pos` of the image. */
  function SampleAt(img: Image, pos: nat): (px: Sample)
    requires img.Valid() && pos < img.Length()
    ensures px.Valid()
  {
    RowInRange(img.width, img.height, pos);
    var p := img.rows[pos / (3 * img.width)][(pos % (3 * img.width)) / 3];
    Sample(p.b * 16, p.g * 16, p.r * 16)
  }

  lemma RowInRange(width: nat, height: nat, pos: nat)
    requires 0 < width && pos < width * height * 3
    ensures 0 <= pos / (3 * width) < height
    ensures 0 <= (pos % (3 * width)) / 3 < width
  {
    assert height * (3 * width) == width * height * 3;
    DivBelow(pos, height, 3 * width);
  }

  datatype Core = Core(net: seq<Neuron>, bias: seq<int>, freq: seq<int>) {
    ghost predicate Sized() {
      |net| == |bias| == |freq| > 0
    }
  }

  /** The frequencies and biases after a contest with nearest neuron `hit`. */
  function Contested(c: Core, hit: nat): Core
    requires c.Sized()
  {
    Core(c.net, BiasAfter(c.bias, c.freq, hit), FreqAfter(c.freq, hit))
  }

  /** The first i neurons have passed a part of their frequency on to their bias. */
  ghost predicate Decayed(c: Core, now: Core, i: nat)
    requires c.Sized()
  {
    && now.net == c.net && |now.bias| == |now.freq| == |c.net|
    && forall k :: 0 <= k < |c.net| ==>
         if k < i then now.freq[k] == c.freq[k] - c.freq[k] / 0x400
                    && now.bias[k] == c.bias[k] + (c.freq[k] / 0x400) * GAMMA
         else now.freq[k] == c.freq[k] && now.bias[k] == c.bias[k]
  }

  lemma DecayStart(c: Core)
    requires c.Sized()
    ensures Decayed(c, c, 0)
  {
  }

  lemma DecayOne(c: Core, now: Core, i: nat)
    requires c.Sized() && i < |c.net| && Decayed(c, now, i)
    ensures |now.bias| == |now.freq| == |c.net| && now.bias[i] == c.bias[i]
    ensures var part := now.freq[i] / 0x400;
      Decayed(c, Core(now.net, now.bias[i := now.bias[i] + part * GAMMA], now.freq[i := now.freq[i] - part]), i + 1)
  {
  }

  lemma DecayEnd(c: Core, now: Core, hit: nat)
    requires c.Sized() && hit < |c.net| && Decayed(c, now, |c.net|)
    ensures |now.bias| == |now.freq| == |c.net|
    ensures Core(now.net, now.bias[hit := now.bias[hit] - BETA_GAMMA], now.freq[hit := now.freq[hit] + BETA])
            == Contested(c, hit)
  {
  }

  /** What one sample does to the network: the contest, the winner's move, the neighbours' moves. */
  function Absorb(c: Core, px: Sample, alpha: int, rad: int): (c': Core)
    requires c.Sized()
    ensures c'.Sized() && |c'.net| == |c.net|
  {
    var hit := FirstMin(Dists(c.net, px));
    var won := FirstMin(BiasDists(c.net, c.bias, px));
    var net1 := c.net[won := Toward(c.net[won], px, alpha, INIT_ALPHA)];
    Contested(c, hit).(net := if rad > 0 then PullNeighbours(net1, alpha, rad, won, px) else net1)
  }

  /** One turn of the learning loop; i samples were taken before it. */
  function LearnStep(img: Image, p: Params, i: nat, st: Learner): Learner
    requires img.Valid() && p.Valid() && p.len == img.Length()
    requires |st.net| == |st.bias| == |st.freq| > 0 && st.pos < p.len
  {
    var c := Absorb(Core(st.net, st.bias, st.freq), SampleAt(img, st.pos), st.alpha, RadOf(st.radius));
    var decay := (i + 1) % p.delta == 0;
    Learner(c.net, c.bias, c.freq,
            if decay then st.alpha - TruncDiv(st.alpha, p.alphadec) else st.alpha,
            if decay then st.radius - TruncDiv(st.radius, RADIUS_DEC) else st.radius,
            (st.pos + p.step) % p.len)
  }

  function LearnRun(img: Image, p: Params, st: Learner, k: nat): (st': Learner)
    requires img.Valid() && p.Valid() && p.len == img.Length()
    requires |st.net| == |st.bias| == |st.freq| > 0 && st.pos < p.len
    ensures |st'.net| == |st'.bias| == |st'.freq| == |st.net| && st'.pos < p.len
  {
    if k == 0 then st else LearnStep(img, p, k - 1, LearnRun(img, p, st, k - 1))
  }

  function InitialNeuron(i: int, n: nat, c: int): Neuron
    requires n > 0
  {
    var level := (i * 0x1000) / n;
    Neuron(level, level, level, c)
  }

  // ---------- what every step keeps ----------

  ghost predicate InRange(n: Neuron) {
    0 <= n.b <= MAX_LEVEL && 0 <= n.g <= MAX_LEVEL && 0 <= n.r <= MAX_LEVEL
  }

  ghost predicate NetInRange(net: seq<Neuron>) {
    forall i :: 0 <= i < |net| ==> InRange(net[i])
  }

  ghost predicate FreqInRange(freq: seq<int>) {
    forall i :: 0 <= i < |freq| ==> 0 <= freq[i] <= INT_BIAS
  }

  /** bias = gamma * (1/netsize - freq), with 1/netsize as the source rounds it. */
  ghost predicate Balanced(bias: seq<int>, freq: seq<int>) {
    && |bias| == |freq| > 0
    && forall i :: 0 <= i < |bias| ==> bias[i] + GAMMA * freq[i] == GAMMA * (INT_BIAS / |bias|)
  }

  ghost predicate Trained(st: Learner, maxRadius: nat) {
    && |st.net| == |st.bias|
    && NetInRange(st.net) && FreqInRange(st.freq) && Balanced(st.bias, st.freq)
    && 0 <= st.alpha <= INIT_ALPHA && 0 <= st.radius <= maxRadius
  }

  /** A pull by a factor in [0, 1] never leaves the segment between the value and its target. */
  lemma PullStaysBetween(x: int, target: int, a: int, scale: int)
    requires 0 <= a <= scale && scale > 0
    ensures Min(x, target) <= Pull(x, target, a, scale) <= Max(x, target)
  {
    var d := Abs(x - target);
    assert 0 <= a * d <= scale * d == d * scale;
    DivAtMost(a * d, d, scale);
    assert a * (x - target) == if x >= target then a * d else -(a * d);
  }

  lemma TowardInRange(n: Neuron, px: Sample, a: int, scale: int)
    requires 0 <= a <= scale && scale > 0 && InRange(n) && px.Valid()
    ensures InRange(Toward(n, px, a, scale))
  {
    PullStaysBetween(n.b, px.b, a, scale);
    PullStaysBetween(n.g, px.g, a, scale);
    PullStaysBetween(n.r, px.r, a, scale);
  }

  lemma RadPowerInRange(alpha: int, rad: int, d: int)
    requires 0 <= alpha <= INIT_ALPHA && 0 <= d < rad
    ensures 0 <= RadPower(alpha, rad, d) <= ALPHA_RAD_BIAS
  {
    var square := rad * rad;
    assert 0 < square && 0 <= d * d <= square by {
      assert d * d <= rad * d <= rad * rad;
    }
    var w := ((square - d * d) * RAD_BIAS) / square;
    DivAtMost((square - d * d) * RAD_BIAS, RAD_BIAS, square);
    assert alpha * w <= INIT_ALPHA * w;
  }

  lemma PullNeighboursInRange(net: seq<Neuron>, alpha: int, rad: int, i: int, px: Sample)
    requires rad > 0 && NetInRange(net) && px.Valid() && 0 <= alpha <= INIT_ALPHA
    ensures NetInRange(PullNeighbours(net, alpha, rad, i, px))
  {
    forall k | 0 <= k < |net|
      ensures InRange(PullNeighbours(net, alpha, rad, i, px)[k])
    {
      if k != i && Abs(k - i) < rad {
        RadPowerInRange(alpha, rad, Abs(k - i));
        TowardInRange(net[k], px, RadPower(alpha, rad, Abs(k - i)), ALPHA_RAD_BIAS);
      }
    }
  }

  /** The contest moves gamma * d from bias to freq or back, so their balance stands. */
  lemma ContestKeepsBalance(bias: seq<int>, freq: seq<int>, hit: nat)
    requires Balanced(bias, freq) && FreqInRange(freq) && hit < |bias|
    ensures Balanced(BiasAfter(bias, freq, hit), FreqAfter(freq, hit))
    ensures FreqInRange(FreqAfter(freq, hit))
  {
  }

  lemma StepKeepsTrained(img: Image, p: Params, i: nat, st: Learner, maxRadius: nat)
    requires img.Valid() && p.Valid() && p.len == img.Length() && st.pos < p.len
    requires Trained(st, maxRadius)
    ensures Trained(LearnStep(img, p, i, st), maxRadius)
  {
    var px := SampleAt(img, st.pos);
    AbsorbKeeps(Core(st.net, st.bias, st.freq), px, st.alpha, RadOf(st.radius));
    DivShrinks(st.alpha, p.alphadec);
    DivShrinks(st.radius, RADIUS_DEC);
  }

  lemma AbsorbKeeps(c: Core, px: Sample, alpha: int, rad: int)
    requires c.Sized() && NetInRange(c.net) && FreqInRange(c.freq) && Balanced(c.bias, c.freq)
    requires px.Valid() && 0 <= alpha <= INIT_ALPHA
    ensures var c' := Absorb(c, px, alpha, rad);
      NetInRange(c'.net) && FreqInRange(c'.freq) && Balanced(c'.bias, c'.freq)
  {
    var won := FirstMin(BiasDists(c.net, c.bias, px));
    TowardInRange(c.net[won], px, alpha, INIT_ALPHA);
    var net1 := c.net[won := Toward(c.net[won], px, alpha, INIT_ALPHA)];
    assert NetInRange(net1);
    if rad > 0 {
      PullNeighboursInRange(net1, alpha, rad, won, px);
    }
    ContestKeepsBalance(c.bias, c.freq, FirstMin(Dists(c.net, px)));
  }

  lemma StepParts(img: Image, p: Params, i: nat, st: Learner)
    requires img.Valid() && p.Valid() && p.len == img.Length()
    requires |st.net| == |st.bias| == |st.freq| > 0 && st.pos < p.len
    ensures var next := LearnStep(img, p, i, st);
      && next.pos < p.len && Core(next.net, next.bias, next.freq)
         == Absorb(Core(st.net, st.bias, st.freq), SampleAt(img, st.pos), st.alpha, RadOf(st.radius))
      && next.pos == (st.pos + p.step) % p.len
      && next.alpha == (if (i + 1) % p.delta == 0 then st.alpha - TruncDiv(st.alpha, p.alphadec) else st.alpha)
      && next.radius == (if (i + 1) % p.delta == 0 then st.radius - TruncDiv(st.radius, RADIUS_DEC) else st.radius)
  {
  }

  lemma StepAdvances(img: Image, p: Params, i: nat, st: Learner)
    requires img.Valid() && p.Valid() && p.len == img.Length()
    requires |st.net| == |st.bias| == |st.freq| > 0 && st.pos < p.len
    ensures LearnStep(img, p, i, st).pos == (st.pos + p.step) % p.len
  {
  }

  /** However many samples are taken: components stay in 0..4080, freq in 0..65536, each bias is
      gamma * (1/netsize - freq), alpha and radius only shrink, and the k-th sample is taken at
      the k-th scan position. */
  lemma {:induction false} LearningKeepsTrained(img: Image, p: Params, st: Learner, maxRadius: nat, k: nat)
    requires img.Valid() && p.Valid() && p.len == img.Length()
    requires p.step == 3 * Scan.ChoosePrime(p.len) && st.pos == 0
    requires Trained(st, maxRadius)
    ensures Trained(LearnRun(img, p, st, k), maxRadius)
    ensures LearnRun(img, p, st, k).pos == Scan.ScanPos(p.len, k)
  {
    hide LearnStep, Image.Valid, Scan.ChoosePrime, Scan.ScanPos, NetInRange, FreqInRange;
    Scan.ScanStart(p.len);
    if k > 0 {
      var before := LearnRun(img, p, st, k - 1);
      LearningKeepsTrained(img, p, st, maxRadius, k - 1);
      StepAdvances(img, p, k - 1, before);
      StepKeepsTrained(img, p, k - 1, before, maxRadius);
      Scan.ScanNext(p.len, k - 1);
    }
  }

  // ---------- the start and the end of learning ----------

  ghost predicate InitialState(st: Learner, n: nat, initrad: nat)
    requires n > 0
  {
    && |st.net| == |st.bias| == |st.freq| == n
    && (forall i :: 0 <= i < n ==> st.net[i] == InitialNeuron(i, n, st.net[i].c))
    && (forall i :: 0 <= i < n ==> st.bias[i] == 0 && st.freq[i] == INT_BIAS / n)
    && st.alpha == INIT_ALPHA && st.radius == initrad * RADIUS_BIAS && st.pos == 0
  }

  lemma InitialIsTrained(st: Learner, n: nat, initrad: nat)
    requires 0 < n <= 256 && InitialState(st, n, initrad)
    ensures Trained(st, initrad * RADIUS_BIAS)
  {
    forall i | 0 <= i < n
      ensures InRange(st.net[i])
    {
      assert (i * 0x1000) <= MAX_LEVEL * n;
      DivAtMost(i * 0x1000, MAX_LEVEL, n);
    }
    DivShrinks(INT_BIAS, n);
  }

  /** The rounding shift of `unbiasnet`, clamped from above only. */
  function Unbias(x: int): int {
    if (x + 8) / 16 > 255 then 255 else (x + 8) / 16
  }

  function UnbiasNeuron(n: Neuron, i: int): Neuron {
    Neuron(Unbias(n.b), Unbias(n.g), Unbias(n.r), i)
  }

  predicate IsColor(n: Neuron) {
    0 <= n.b <= 255 && 0 <= n.g <= 255 && 0 <= n.r <= 255
  }

  /** A trained neuron becomes a colour, and not even the upper clamp takes effect. */
  lemma UnbiasGivesColor(n: Neuron, i: int)
    requires InRange(n)
    ensures IsColor(UnbiasNeuron(n, i))
    ensures Unbias(n.b) == (n.b + 8) / 16 && Unbias(n.g) == (n.g + 8) / 16 && Unbias(n.r) == (n.r + 8) / 16
  {
  }

  // ---------- 32-bit arithmetic ----------

  ghost predicate ContestFits(n: Neuron, bias: int, freq: int, px: Sample) {
    && Dist(n, px) < INT_MAX
    && IsInt32(bias) && IsInt32(Dist(n, px) - bias / 0x1000) && Dist(n, px) - bias / 0x1000 < INT_MAX
    && IsInt32(bias + (freq / 0x400) * GAMMA) && IsInt32(bias + (freq / 0x400) * GAMMA - BETA_GAMMA)
  }

  ghost predicate CoreFits(c: Core, px: Sample)
    requires c.Sized()
  {
    forall i :: 0 <= i < |c.net| ==> ContestFits(c.net[i], c.bias[i], c.freq[i], px)
  }

  lemma BelowInitialBest(c: Core, px: Sample, i: nat)
    requires c.Sized() && CoreFits(c, px) && i < |c.net|
    ensures Dist(c.net[i], px) < INT_MAX && Dist(c.net[i], px) - c.bias[i] / 0x1000 < INT_MAX
  {
  }

  lemma TrainedFits(st: Learner, maxRadius: nat, px: Sample)
    requires Trained(st, maxRadius) && px.Valid()
    ensures |st.net| == |st.bias| == |st.freq| > 0
    ensures CoreFits(Core(st.net, st.bias, st.freq), px)
    ensures 0 <= st.alpha <= INIT_ALPHA && 0 <= st.radius <= maxRadius
  {
    DivShrinks(INT_BIAS, |st.bias|);
  }

  lemma TrainedNet(st: Learner, maxRadius: nat)
    requires Trained(st, maxRadius)
    ensures NetInRange(st.net) && 0 <= st.alpha && 0 <= st.radius <= maxRadius
  {
  }

  ghost predicate PullFits(n: Neuron, px: Sample, a: int) {
    IsInt32(a * (n.b - px.b)) && IsInt32(a * (n.g - px.g)) && IsInt32(a * (n.r - px.r))
  }

  lemma PullsFit(n: Neuron, px: Sample, a: int)
    requires InRange(n) && px.Valid() && 0 <= a <= ALPHA_RAD_BIAS
    ensures PullFits(n, px, a)
  {
    MulInRange(a, n.b - px.b, ALPHA_RAD_BIAS, MAX_LEVEL);
    MulInRange(a, n.g - px.g, ALPHA_RAD_BIAS, MAX_LEVEL);
    MulInRange(a, n.r - px.r, ALPHA_RAD_BIAS, MAX_LEVEL);
  }

  /** In every trained state no product or sum of a learning step leaves 32 bits, and every
      distance beats the initial best of 2^31 - 1, so both winners exist; for every distance below
      the radius the neighbours' moves fit too. */
  lemma StepFitsInt32(st: Learner, px: Sample, i: nat, d: nat)
    requires Trained(st, 32 * RADIUS_BIAS) && px.Valid() && i < |st.net|
    ensures ContestFits(st.net[i], st.bias[i], st.freq[i], px)
    ensures PullFits(st.net[i], px, st.alpha)
    ensures var rad := RadOf(st.radius);
      d < rad ==> IsInt32((rad * rad - d * d) * RAD_BIAS) && PullFits(st.net[i], px, RadPower(st.alpha, rad, d))
  {
    PullsFit(st.net[i], px, st.alpha);
    DivShrinks(INT_BIAS, |st.bias|);
    var rad := RadOf(st.radius);
    if d < rad {
      RadPowerInRange(st.alpha, rad, d);
      PullsFit(st.net[i], px, RadPower(st.alpha, rad, d));
      MulInRange(rad, rad, 32, 32);
      MulInRange(d, d, 32, 32);
    }
  }

  /** All sums of a position and the step, before they are wrapped, fit a `long` of 32 bits. */
  ghost predicate PositionsFit(img: Image, sampling: nat)
    requires img.Valid() && sampling > 0
  {
    Scan.AllWithin(img.Length(), SampleCount(img, sampling), INT_MAX - 3 * Scan.ChoosePrime(img.Length()))
  }

  /** With any sampling factor they fit exactly if they do at the end of every sweep that the samples
      reach.  They do if the length leaves room for a step behind the last pixel, and in a full scan only
      then. */
  lemma PositionsFitExactly(img: Image, sampling: nat)
    requires img.Valid() && sampling > 0
    ensures var n, samples := img.width * img.height, SampleCount(img, sampling);
      PositionsFit(img, sampling) <==>
        forall t: nat :: Scan.SweepEnd(n, t) < samples ==>
          3 * Scan.EndOfSweep(n, t) + 3 * Scan.ChoosePrime(3 * n) <= INT_MAX
    ensures img.Length() - 3 + 3 * Scan.ChoosePrime(img.Length()) <= INT_MAX ==> PositionsFit(img, sampling)
    ensures sampling == 1 ==>
              (PositionsFit(img, sampling) <==> img.Length() - 3 + 3 * Scan.ChoosePrime(img.Length()) <= INT_MAX)
  {
    hide Scan.ChoosePrime, Scan.ScanPos, SampleCount;
    var pixels := img.width * img.height;
    assert 3 * pixels == img.Length();
    SamplesAreDistinct(img, sampling);
    Scan.PositionsWithin(pixels, SampleCount(img, sampling), INT_MAX - 3 * Scan.ChoosePrime(img.Length()));
    Scan.SweepsDecide(pixels, SampleCount(img, sampling));
  }

  /** Learning with any sampling factor never takes a pixel twice, and with factor one takes
      every pixel of the image. */
  lemma SamplesAreDistinct(img: Image, sampling: nat)
    requires img.Valid() && sampling > 0
    ensures var len, n := img.Length(), SampleCount(img, sampling);
      && (forall j: nat, k: nat :: j < k < n ==> Scan.ScanPos(len, j) != Scan.ScanPos(len, k))
      && (sampling == 1 ==> n == img.width * img.height && Scan.VisitsEachPixelOnce(n))
  {
    var pixels := img.width * img.height;
    Scan.EveryAcceptedImageIsScannedOnce(img.width, img.height);
    assert 3 * pixels == img.Length();
    MulGrows(pixels, sampling);
    DivAtMost(3 * pixels, pixels, 3 * sampling);
  }

  // ---------- what one sample does, told from the numbers ----------

  /** x' is x moved toward its target by the share a / scale of their distance, a rest of less than one
      left over. */
  ghost predicate Moved(x: int, x': int, target: int, a: int, scale: int) {
    && Min(x, target) <= x' <= Max(x, target)
    && (scale - a) * Abs(x - target) <= scale * Abs(x' - target) < (scale - a) * Abs(x - target) + scale
  }

  /** A pull covers its share of the distance; a full pull reaches the target, and one from the target
      stays there. */
  lemma PullExact(x: int, target: int, a: int, scale: int)
    requires 0 <= a <= scale && scale > 0
    ensures Moved(x, Pull(x, target, a, scale), target, a, scale)
    ensures a == scale || x == target ==> Pull(x, target, a, scale) == target
  {
    var d := Abs(x - target);
    PullShare(x, target, a, scale);
    ShareExact(d, a, scale);
  }

  /** The part of the distance that is left out of a pull. */
  lemma PullShare(x: int, target: int, a: int, scale: int)
    requires 0 <= a <= scale && scale > 0
    ensures 0 <= a * Abs(x - target)
    ensures Min(x, target) <= Pull(x, target, a, scale) <= Max(x, target)
    ensures Abs(Pull(x, target, a, scale) - target) == Abs(x - target) - Quotient(a * Abs(x - target), scale)
  {
    PullStaysBetween(x, target, a, scale);
    assert a * (x - target) == if x >= target then a * Abs(x - target) else -(a * Abs(x - target));
  }

  lemma ShareExact(d: nat, a: nat, scale: nat)
    requires a <= scale && scale > 0
    ensures 0 <= a * d
    ensures var left := d - Quotient(a * d, scale);
      && (scale - a) * d <= scale * left < (scale - a) * d + scale
      && (a == scale || d == 0 ==> left == 0)
  {
    assert 0 <= a * d;
    var q, r := Quotient(a * d, scale), Remainder(a * d, scale);
    assert a * d == scale * q + r;
    assert scale * (d - q) == scale * d - scale * q;
    assert (scale - a) * d == scale * d - a * d;
    if a == scale || d == 0 {
      ModUnique(a * d, scale, d, 0);
    }
  }

  ghost predicate MovedNeuron(n: Neuron, n': Neuron, px: Sample, a: int, scale: int) {
    Moved(n.b, n'.b, px.b, a, scale) && Moved(n.g, n'.g, px.g, a, scale) && Moved(n.r, n'.r, px.r, a, scale) && n'.c == n.c
  }

  lemma TowardMoves(n: Neuron, px: Sample, a: int, scale: int)
    requires 0 <= a <= scale && scale > 0
    ensures MovedNeuron(n, Toward(n, px, a, scale), px, a, scale)
  {
    hide Pull, Moved;
    PullExact(n.b, px.b, a, scale);
    PullExact(n.g, px.g, a, scale);
    PullExact(n.r, px.r, a, scale);
  }

  /** The power of a neighbour: alpha's share falls with the square of the distance, in steps of 1/256. */
  lemma RadPowerExact(alpha: int, rad: int, d: int)
    requires 0 <= alpha <= INIT_ALPHA && 0 <= d < rad
    ensures var square, power := rad * rad, RadPower(alpha, rad, d);
      && 0 <= power <= ALPHA_RAD_BIAS
      && 256 * alpha * (square - d * d) - alpha * square <= power * square <= 256 * alpha * (square - d * d)
  {
    RadPowerInRange(alpha, rad, d);
    var square := rad * rad;
    assert square > 0;
    var a := (square - d * d) * RAD_BIAS;
    var w := a / square;
    assert a == w * square + a % square;
    assert alpha * a == alpha * w * square + alpha * (a % square);
    assert 0 <= alpha * (a % square) <= alpha * square;
    assert alpha * a == 256 * alpha * (square - d * d);
  }

  /** The values that decide the contest: distances less a part of the bias. */
  ghost predicate Contestants(c: Core, px: Sample, values: seq<int>)
    requires c.Sized()
  {
    && |values| == |c.net|
    && forall i :: 0 <= i < |values| ==> var n := c.net[i];
         var dist := Abs(n.b - px.b) + Abs(n.g - px.g) + Abs(n.r - px.r);
         4096 * (dist - values[i]) <= c.bias[i] < 4096 * (dist - values[i]) + 4096
  }

  lemma BiasDistsContest(c: Core, px: Sample)
    requires c.Sized()
    ensures Contestants(c, px, BiasDists(c.net, c.bias, px))
  {
    var values := BiasDists(c.net, c.bias, px);
    forall i | 0 <= i < |values|
      ensures values[i] == Dist(c.net[i], px) - c.bias[i] / 0x1000
    {
    }
  }

  lemma ContestantsUnique(c: Core, px: Sample, values: seq<int>)
    requires c.Sized() && Contestants(c, px, values)
    ensures values == BiasDists(c.net, c.bias, px)
  {
    BiasDistsContest(c, px);
  }

  /** One sample moves the first neuron with the smallest value by the share alpha / 1024, every other
      one nearer to it than rad by its power, and no other. */
  lemma AbsorbMoves(c: Core, px: Sample, alpha: int, rad: int, values: seq<int>, won: nat, k: nat)
    requires c.Sized() && Contestants(c, px, values) && IsFirstMin(values, won)
    requires 0 <= alpha <= INIT_ALPHA && rad >= 0 && k < |c.net|
    ensures var n, n' := c.net[k], Absorb(c, px, alpha, rad).net[k];
      if k == won then MovedNeuron(n, n', px, alpha, 1024)
      else if Abs(k - won) < rad then MovedNeuron(n, n', px, RadPower(alpha, rad, Abs(k - won)), 0x4_0000)
      else n' == n
  {
    hide MovedNeuron, Toward, RadPower, FirstMin;
    ContestantsUnique(c, px, values);
    FirstMinUnique(values, won, FirstMin(values));
    TowardMoves(c.net[k], px, alpha, 1024);
    if k != won && Abs(k - won) < rad {
      RadPowerExact(alpha, rad, Abs(k - won));
      TowardMoves(c.net[k], px, RadPower(alpha, rad, Abs(k - won)), 0x4_0000);
    }
  }

  /** The frequencies are moving averages of the wins, over 1024 contests: the first of the neurons nearest
      to the sample counts as a win of 65536. */
  lemma AbsorbCounts(c: Core, px: Sample, alpha: int, rad: int, hit: nat, k: nat)
    requires c.Sized() && hit < |c.net| && k < |c.net|
    requires forall i :: 0 <= i < |c.net| ==>
               if i < hit then Dist(c.net[hit], px) < Dist(c.net[i], px) else Dist(c.net[hit], px) <= Dist(c.net[i], px)
    ensures var freq, freq' := c.freq[k], Absorb(c, px, alpha, rad).freq[k];
      1023 * freq + (if k == hit then 0x1_0000 else 0) <= 1024 * freq'
        < 1023 * freq + (if k == hit then 0x1_0000 else 0) + 1024
    ensures c.bias[k] + 1024 * c.freq[k]
            == Absorb(c, px, alpha, rad).bias[k] + 1024 * Absorb(c, px, alpha, rad).freq[k]
  {
    hide FirstMin;
    var dists := Dists(c.net, px);
    assert forall i :: 0 <= i < |dists| ==> dists[i] == Dist(c.net[i], px);
    FirstMinUnique(dists, hit, FirstMin(dists));
  }

  /** The radius in neurons, whole ones, of which one alone does not count. */
  lemma RadOfExact(radius: nat)
    ensures if radius < 128 then RadOf(radius) == 0 else 64 * RadOf(radius) <= radius < 64 * RadOf(radius) + 64
  {
  }

  /** The start is the grey diagonal in even steps. */
  lemma InitialIsEven(i: nat, n: nat, c: int)
    requires n > 0
    ensures var m := InitialNeuron(i, n, c);
      m.b == m.g == m.r && n * m.b <= 4096 * i < n * m.b + n && m.c == c
  {
    var level := (i * 0x1000) / n;
    assert i * 0x1000 == level * n + (i * 0x1000) % n;
  }

  /** A hundred cycles, if there are as many samples, and a decay that is slower the fewer there are. */
  lemma ParamsExact(img: Image, sampling: nat)
    requires img.Valid() && sampling > 0
    ensures var p, samples := ParamsOf(img, sampling), SampleCount(img, sampling);
      && sampling * samples <= img.width * img.height < sampling * samples + sampling
      && (if samples < 100 then p.delta == 1 else 100 * p.delta <= samples < 100 * p.delta + 100)
      && 3 * (p.alphadec - 30) < sampling <= 3 * (p.alphadec - 30) + 3
      && p.len == 3 * img.width * img.height && p.step == 3 * Scan.ChoosePrime(p.len)
  {
    hide Scan.ChoosePrime;
    var samples := SampleCount(img, sampling);
    CountExact(img, sampling);
    assert img.Length() == 3 * img.width * img.height;
    assert samples == NCYCLES * (samples / NCYCLES) + samples % NCYCLES;
  }

  lemma CountExact(img: Image, sampling: nat)
    requires img.Valid() && sampling > 0
    ensures sampling * SampleCount(img, sampling) <= img.width * img.height
              < sampling * SampleCount(img, sampling) + sampling
  {
    hide Image.Valid;
    var pixels, samples := img.width * img.height, SampleCount(img, sampling);
    assert img.Length() == 3 * pixels;
    assert 3 * pixels == (3 * sampling) * samples + (3 * pixels) % (3 * sampling);
    assert (3 * sampling) * samples == 3 * (sampling * samples);
  }

  // ---------- which pixels are learned ----------

  /** The pixel in column x of row y is the sample at its place in the scan, sixteenfold. */
  lemma SampleOfPixel(img: Image, y: nat, x: nat)
    requires img.Valid() && y < img.height && x < img.width
    ensures 0 <= 3 * (y * img.width + x) < img.Length()
    ensures var p := img.rows[y][x];
      SampleAt(img, 3 * (y * img.width + x)) == Sample(16 * p.b, 16 * p.g, 16 * p.r)
  {
    PixelPlace(img.width, img.height, y, x);
  }

  lemma PixelPlace(w: nat, h: nat, y: nat, x: nat)
    requires y < h && x < w
    ensures 0 <= 3 * (y * w + x) < w * h * 3
    ensures (3 * (y * w + x)) / (3 * w) == y && (3 * (y * w + x)) % (3 * w) == 3 * x
  {
    var k := h - 1 - y;
    assert w * h == y * w + w + k * w;
    assert 0 <= k * w && 0 <= y * w;
    assert 3 * (y * w + x) == y * (3 * w) + 3 * x;
    ModUnique(3 * (y * w + x), 3 * w, y, 3 * x);
  }

  /** With sampling factor one every pixel is learned: some turn of the loop takes it as its sample. */
  lemma EveryPixelIsLearned(img: Image, st: Learner, maxRadius: nat, y: nat, x: nat) returns (k: nat)
    requires img.Valid() && y < img.height && x < img.width && Trained(st, maxRadius) && st.pos == 0
    ensures var p, before := img.rows[y][x], LearnRun(img, ParamsOf(img, 1), st, k);
      && k < SampleCount(img, 1) && SampleAt(img, before.pos) == Sample(16 * p.b, 16 * p.g, 16 * p.r)
      && LearnRun(img, ParamsOf(img, 1), st, k + 1) == LearnStep(img, ParamsOf(img, 1), k, before)
  {
    hide Scan.ScanPos, Scan.ChoosePrime, SampleAt, LearnStep, Trained;
    SamplesAreDistinct(img, 1);
    SampleOfPixel(img, y, x);
    var n, m := img.width * img.height, y * img.width + x;
    assert 0 <= m < n;
    assert Scan.Sampled(n, m);
    k :| k < n && Scan.ScanPos(3 * n, k) == 3 * m;
    assert img.Length() == 3 * n;
    SizedTrained(st, maxRadius);
    LearningKeepsTrained(img, ParamsOf(img, 1), st, maxRadius, k);
  }

  lemma SizedTrained(st: Learner, maxRadius: nat)
    requires Trained(st, maxRadius)
    ensures |st.net| == |st.bias| == |st.freq| > 0
  {
  }

  // ---------- images of one colour ----------

  ghost predicate OneColor(img: Image, p: Bgr)
    requires img.Valid()
  {
    forall y, x :: 0 <= y < img.height && 0 <= x < img.width ==> img.rows[y][x] == p
  }

  function SampleOf(p: Bgr): Sample {
    Sample(16 * p.b, 16 * p.g, 16 * p.r)
  }

  predicate IsAt(n: Neuron, px: Sample) {
    n.b == px.b && n.g == px.g && n.r == px.r
  }

  lemma OnlySample(img: Image, p: Bgr, pos: nat)
    requires img.Valid() && OneColor(img, p) && pos < img.Length()
    ensures SampleAt(img, pos) == SampleOf(p)
  {
    RowInRange(img.width, img.height, pos);
  }

  /** Some neuron stands at the sample. */
  ghost predicate Reached(net: seq<Neuron>, px: Sample) {
    exists j :: 0 <= j < |net| && IsAt(net[j], px)
  }

  /** A sample that was reached stays so; with a full alpha the winner reaches it. */
  lemma AbsorbReaches(c: Core, px: Sample, alpha: int, rad: int)
    requires c.Sized() && rad >= 0 && 0 <= alpha <= INIT_ALPHA && (Reached(c.net, px) || alpha == INIT_ALPHA)
    ensures Reached(Absorb(c, px, alpha, rad).net, px)
  {
    hide Absorb, FirstMin, RadPower, Contestants;
    var values := BiasDists(c.net, c.bias, px);
    var won := FirstMin(values);
    var j := won;
    if alpha < INIT_ALPHA {
      j :| 0 <= j < |c.net| && IsAt(c.net[j], px);
    }
    BiasDistsContest(c, px);
    AbsorbMoves(c, px, alpha, rad, values, won, j);
    if j != won && Abs(j - won) < rad {
      RadPowerInRange(alpha, rad, Abs(j - won));
    }
    assert IsAt(Absorb(c, px, alpha, rad).net[j], px);
  }

  lemma StepReaches(img: Image, p: Params, i: nat, st: Learner, maxRadius: nat, color: Bgr)
    requires img.Valid() && OneColor(img, color) && p.Valid() && p.len == img.Length() && st.pos < p.len
    requires Trained(st, maxRadius) && (Reached(st.net, SampleOf(color)) || st.alpha == INIT_ALPHA)
    ensures |st.net| == |st.bias| == |st.freq| > 0
    ensures Reached(LearnStep(img, p, i, st).net, SampleOf(color))
  {
    hide LearnStep, OneColor, Absorb, SampleAt, RadOf, NetInRange, FreqInRange, Reached, Image.Valid;
    OnlySample(img, color, st.pos);
    StepParts(img, p, i, st);
    RadIsNotOne(st.radius);
    AbsorbReaches(Core(st.net, st.bias, st.freq), SampleOf(color), st.alpha, RadOf(st.radius));
  }

  /** From the first sample on some neuron stands at the only colour there is. */
  lemma {:induction false} OneColorIsReached(img: Image, p: Params, st: Learner, maxRadius: nat, color: Bgr, k: nat)
    requires img.Valid() && OneColor(img, color) && p.Valid() && p.len == img.Length()
    requires p.step == 3 * Scan.ChoosePrime(p.len) && st.pos == 0 && st.alpha == INIT_ALPHA && Trained(st, maxRadius)
    requires k > 0
    ensures |st.net| == |st.bias| == |st.freq| > 0
    ensures Reached(LearnRun(img, p, st, k).net, SampleOf(color))
    decreases k
  {
    hide LearnStep, OneColor, Scan.ChoosePrime, Scan.ScanPos, Trained, Reached, Image.Valid;
    SizedTrained(st, maxRadius);
    LearningKeepsTrained(img, p, st, maxRadius, k - 1);
    if k > 1 {
      OneColorIsReached(img, p, st, maxRadius, color, k - 1);
    }
    StepReaches(img, p, k - 1, LearnRun(img, p, st, k - 1), maxRadius, color);
  }

  /** A neuron at a colour's sample unbiases to that colour. */
  lemma UnbiasesBack(n: Neuron, p: Bgr, i: int)
    requires IsAt(n, SampleOf(p))
    ensures UnbiasNeuron(n, i) == Neuron(p.b, p.g, p.r, i)
  {
  }
}
