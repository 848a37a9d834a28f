/** The lookup index of NeuQuant over the green-sorted network: what its cells are, counted on
    the unsorted network, and when the outward search may stop. */
module NetIndex {
  import opened CArith
  import opened NetLearn

  ghost predicate SortedByGreen(net: seq<Neuron>) {
    forall i, j :: 0 <= i < j < |net| ==> net[i].g <= net[j].g
  }

  /** How many colours have a green below v. */
  function CountBelow(net: seq<Neuron>, v: int): nat {
    if |net| == 0 then 0
    else CountBelow(net[..|net| - 1], v) + if net[|net| - 1].g < v then 1 else 0
  }

  /** The cell for green v: halfway between the first place where v could stand and the first
      place after it, both cut off at the last position. */
  function Cell(net: seq<Neuron>, v: int): int {
    (Min(CountBelow(net, v), |net| - 1) + Min(CountBelow(net, v + 1), |net| - 1)) / 2
  }

  function Swap(net: seq<Neuron>, i: nat, j: nat): seq<Neuron>
    requires i < |net| && j < |net|
  {
    net[i := net[j]][j := net[i]]
  }

  lemma {:induction false} CountBelowUpdate(net: seq<Neuron>, i: nat, n: Neuron, v: int)
    requires i < |net|
    ensures CountBelow(net[i := n], v)
            == CountBelow(net, v) - (if net[i].g < v then 1 else 0) + (if n.g < v then 1 else 0)
  {
    var last := |net| - 1;
    if i == last {
      assert net[i := n][..last] == net[..last];
    } else {
      assert net[i := n][..last] == net[..last][i := n];
      CountBelowUpdate(net[..last], i, n, v);
    }
  }

  /** Exchanging two colours changes no cell. */
  lemma CountBelowSwap(net: seq<Neuron>, i: nat, j: nat, v: int)
    requires i < |net| && j < |net|
    ensures CountBelow(Swap(net, i, j), v) == CountBelow(net, v)
  {
    CountBelowUpdate(net, i, net[j], v);
    CountBelowUpdate(net[i := net[j]], j, net[i], v);
  }

  /** When the colours below v are exactly the first k, their count is k. */
  lemma {:induction false} CountBelowAt(net: seq<Neuron>, k: nat, v: int)
    requires k <= |net|
    requires forall i :: 0 <= i < k ==> net[i].g < v
    requires forall i :: k <= i < |net| ==> net[i].g >= v
    ensures CountBelow(net, v) == k
  {
    if |net| > 0 {
      CountBelowAt(net[..|net| - 1], if k == |net| then k - 1 else k, v);
    }
  }

  lemma {:induction false} CountBelowMonotone(net: seq<Neuron>, v: int, w: int)
    requires v <= w
    ensures CountBelow(net, v) <= CountBelow(net, w) <= |net|
  {
    if |net| > 0 {
      CountBelowMonotone(net[..|net| - 1], v, w);
    }
  }

  /** The cells are positions of the network and never decrease. */
  lemma CellsInOrder(net: seq<Neuron>, v: int, w: int)
    requires v <= w && |net| > 0
    ensures 0 <= Cell(net, v) <= Cell(net, w) < |net|
  {
    CountBelowMonotone(net, v, w);
    CountBelowMonotone(net, v, v + 1);
    CountBelowMonotone(net, v + 1, w + 1);
  }

  /** In words, on the sorted network: an absent green gets the first larger colour's position,
      or the last position if there is none; a present green the midpoint between the starts of
      its run and the next, the last position standing in for a missing next run. */
  lemma CellMeaning(net: seq<Neuron>, v: int, start: nat, next: nat)
    requires SortedByGreen(net) && start <= next <= |net| && |net| > 0
    requires forall i :: 0 <= i < start ==> net[i].g < v
    requires forall i :: start <= i < next ==> net[i].g == v
    requires forall i :: next <= i < |net| ==> net[i].g > v
    ensures start == next < |net| ==> Cell(net, v) == start
    ensures start == |net| ==> Cell(net, v) == |net| - 1
    ensures start < next < |net| ==> Cell(net, v) == (start + next) / 2
    ensures start < next == |net| ==> Cell(net, v) == (start + |net| - 1) / 2
  {
    CountBelowAt(net, start, v);
    CountBelowAt(net, next, v + 1);
  }

  // ---------- the selection sort ----------

  /** After i rounds the first i colours are sorted and no later one is smaller. */
  ghost predicate SortedUpTo(net: seq<Neuron>, i: nat) {
    && i <= |net|
    && (forall j, k :: 0 <= j < k < i ==> net[j].g <= net[k].g)
    && (forall j, k :: 0 <= j < i <= k < |net| ==> net[j].g <= net[k].g)
  }

  lemma SelectNext(net: seq<Neuron>, i: nat, small: nat)
    requires SortedUpTo(net, i) && i <= small < |net|
    requires forall k :: i <= k < |net| ==> net[small].g <= net[k].g
    ensures SortedUpTo(Swap(net, i, small), i + 1)
    ensures multiset(Swap(net, i, small)) == multiset(net)
  {
    var s := Swap(net, i, small);
    assert forall k :: 0 <= k < |net| && k != i && k != small ==> s[k] == net[k];
  }

  /** The bookkeeping of `inxbuild` after i rounds: the colours before `start` are below the
      current green `prev`, those of its run stand from `start` on. */
  ghost predicate InRun(net: seq<Neuron>, i: nat, prev: int, start: nat) {
    && start <= i <= |net| && 0 <= prev < 256
    && (if i == 0 then prev == 0 else start < i)
    && (forall k :: 0 <= k < start ==> net[k].g < prev)
    && (forall k :: start <= k < i ==> net[k].g == prev)
  }

  /** Every green below v has its cell. */
  ghost predicate CellsDone(net: seq<Neuron>, cells: seq<int>, v: int) {
    |cells| == 256 && v <= 256 && forall w :: 0 <= w < v ==> cells[w] == Cell(net, w)
  }

  lemma NextGreen(net: seq<Neuron>, i: nat, prev: int, start: nat)
    requires InRun(net, i, prev, start) && SortedUpTo(net, i) && i < |net|
    requires forall k :: 0 <= k < |net| ==> IsColor(net[k])
    ensures forall k :: i <= k < |net| ==> prev <= net[k].g
  {
    assert i > 0 ==> net[i - 1].g == prev;
  }

  lemma SwapKeepsRun(net: seq<Neuron>, i: nat, small: nat, prev: int, start: nat)
    requires InRun(net, i, prev, start) && i <= small < |net|
    ensures InRun(Swap(net, i, small), i, prev, start)
  {
  }

  /** When a new green starts at position i, the cells up to it are fixed. */
  lemma RunEnds(net: seq<Neuron>, i: nat, prev: int, start: nat)
    requires InRun(net, i, prev, start) && i < |net| && prev < net[i].g
    requires forall k :: i <= k < |net| ==> net[i].g <= net[k].g
    ensures Cell(net, prev) == (start + i) / 2
    ensures forall v :: prev < v < net[i].g ==> Cell(net, v) == i
  {
    CountBelowAt(net, start, prev);
    CountBelowAt(net, i, prev + 1);
    forall v | prev < v < net[i].g
      ensures Cell(net, v) == i
    {
      CountBelowAt(net, i, v);
      CountBelowAt(net, i, v + 1);
    }
  }

  /** After the last round the current green's cell and all later ones are fixed. */
  lemma LastRunEnds(net: seq<Neuron>, prev: int, start: nat)
    requires InRun(net, |net|, prev, start) && |net| > 0
    ensures Cell(net, prev) == (start + |net| - 1) / 2
    ensures forall v :: prev < v < 256 ==> Cell(net, v) == |net| - 1
  {
    CountBelowAt(net, start, prev);
    CountBelowAt(net, |net|, prev + 1);
    forall v | prev < v < 256
      ensures Cell(net, v) == |net| - 1
    {
      CountBelowAt(net, |net|, v);
      CountBelowAt(net, |net|, v + 1);
    }
  }

  ghost predicate SameCells(net: seq<Neuron>, net': seq<Neuron>) {
    forall v: int :: Cell(net, v) == Cell(net', v)
  }

  lemma SwapKeepsCells(net0: seq<Neuron>, net: seq<Neuron>, i: nat, j: nat)
    requires SameCells(net, net0) && i < |net| && j < |net|
    ensures SameCells(Swap(net, i, j), net0)
  {
    forall v: int
      ensures Cell(Swap(net, i, j), v) == Cell(net0, v)
    {
      CountBelowSwap(net, i, j, v);
      CountBelowSwap(net, i, j, v + 1);
      assert Cell(net, v) == Cell(net0, v);
    }
  }

  ghost predicate AllColors(net: seq<Neuron>) {
    forall k :: 0 <= k < |net| ==> IsColor(net[k])
  }

  lemma CellsStart(net: seq<Neuron>, cells: seq<int>)
    requires |cells| == 256
    ensures SortedUpTo(net, 0) && SameCells(net, net) && InRun(net, 0, 0, 0) && CellsDone(net, cells, 0)
  {
  }

  lemma CellsExtend(net: seq<Neuron>, cells: seq<int>, cells': seq<int>, prev: nat, next: nat)
    requires CellsDone(net, cells, prev) && prev < next <= 256 && |cells'| == 256
    requires forall v :: 0 <= v < prev ==> cells'[v] == cells[v]
    requires forall v :: prev <= v < next ==> cells'[v] == Cell(net, v)
    ensures CellsDone(net, cells', next)
  {
  }

  /** One round of the sort, with everything the index needs from it. */
  lemma SortRound(net0: seq<Neuron>, net: seq<Neuron>, i: nat, small: nat, prev: int, start: nat)
    requires SortedUpTo(net, i) && InRun(net, i, prev, start) && SameCells(net, net0) && AllColors(net)
    requires i <= small < |net| && forall k :: i <= k < |net| ==> net[small].g <= net[k].g
    ensures var s := Swap(net, i, small);
      && SortedUpTo(s, i + 1) && SameCells(s, net0) && AllColors(s) && multiset(s) == multiset(net)
      && |s| == |net| && s[i] == net[small] && prev <= s[i].g < 256
      && InRun(s, i + 1, s[i].g, if s[i].g == prev then start else i)
      && (s[i].g != prev ==> Cell(net0, prev) == (start + i) / 2 && forall v :: prev < v < s[i].g ==> Cell(net0, v) == i)
  {
    var s := Swap(net, i, small);
    NextGreen(net, i, prev, start);
    SelectNext(net, i, small);
    SwapKeepsRun(net, i, small, prev, start);
    SwapKeepsCells(net0, net, i, small);
    if s[i].g != prev {
      RunEnds(s, i, prev, start);
    }
  }

  lemma SortEnds(net0: seq<Neuron>, net: seq<Neuron>, prev: int, start: nat)
    requires SortedUpTo(net, |net|) && InRun(net, |net|, prev, start) && SameCells(net, net0) && |net| > 0
    ensures SortedByGreen(net) && start <= |net|
    ensures Cell(net0, prev) == (start + |net| - 1) / 2
    ensures forall v :: prev < v < 256 ==> Cell(net0, v) == |net| - 1
  {
    LastRunEnds(net, prev, start);
    assert forall v: int :: Cell(net, v) == Cell(net0, v);
  }

  lemma CellsMean(net: seq<Neuron>, cells: seq<int>, n: nat)
    requires CellsDone(net, cells, n)
    ensures |cells| == 256 && forall v :: 0 <= v < n ==> cells[v] == Cell(net, v)
  {
  }

  // ---------- the outward search ----------

  /** No colour in [lo, hi) is nearer than `best`. */
  ghost predicate NoneNearer(net: seq<Neuron>, px: Sample, lo: int, hi: int, best: int) {
    forall k :: 0 <= k < |net| && lo <= k < hi ==> Dist(net[k], px) >= best
  }

  /** Upward the search may stop at a colour whose green alone is too far above. */
  lemma StopUpward(net: seq<Neuron>, px: Sample, i: nat, best: int)
    requires SortedByGreen(net) && i < |net| && net[i].g - px.g >= best
    ensures NoneNearer(net, px, i, |net|, best)
  {
    forall k | i <= k < |net|
      ensures Dist(net[k], px) >= best
    {
      assert net[i].g <= net[k].g;
    }
  }

  lemma StopDownward(net: seq<Neuron>, px: Sample, j: nat, best: int)
    requires SortedByGreen(net) && j < |net| && px.g - net[j].g >= best
    ensures NoneNearer(net, px, 0, j + 1, best)
  {
    forall k | 0 <= k <= j
      ensures Dist(net[k], px) >= best
    {
      assert net[k].g <= net[j].g;
    }
  }

  /** The best distance so far is an entry's, or still the initial 1000. */
  ghost predicate BestSeen(net: seq<Neuron>, px: Sample, bestd: int, best: int) {
    bestd == 1000 || exists k :: 0 <= k < |net| && Dist(net[k], px) == bestd && net[k].c == best
  }

  /** `best` is the palette place of a colour at minimum distance from the pixel. */
  ghost predicate Nearest(net: seq<Neuron>, px: Sample, best: int) {
    exists k :: 0 <= k < |net| && net[k].c == best
      && forall m :: 0 <= m < |net| ==> Dist(net[k], px) <= Dist(net[m], px)
  }

  lemma NothingSeen(net: seq<Neuron>, px: Sample, start: int, bestd: int, best: int)
    requires bestd == 1000
    ensures NoneNearer(net, px, start, start, bestd) && BestSeen(net, px, bestd, best)
  {
  }

  lemma JoinSeen(net: seq<Neuron>, px: Sample, lo: int, mid: int, hi: int, best: int)
    requires NoneNearer(net, px, lo, mid, best) && NoneNearer(net, px, mid, hi, best)
    ensures NoneNearer(net, px, lo, hi, best)
  {
  }

  /** Comparing the colour just outside the seen range widens the range by it. */
  lemma SeeOne(net: seq<Neuron>, px: Sample, lo: int, hi: int, k: int, bestd: int, best: int)
    requires 0 <= k < |net| && NoneNearer(net, px, lo, hi, bestd) && BestSeen(net, px, bestd, best)
    ensures var d := Dist(net[k], px);
      && (k == hi ==> NoneNearer(net, px, lo, hi + 1, Min(bestd, d)))
      && (k == lo - 1 ==> NoneNearer(net, px, lo - 1, hi, Min(bestd, d)))
      && BestSeen(net, px, Min(bestd, d), if d < bestd then net[k].c else best)
  {
  }

  /** A colour is at most 765 away, so a full search has found one nearer than 1000. */
  lemma AllSeen(net: seq<Neuron>, px: Sample, bestd: int, best: int)
    requires |net| > 0 && NoneNearer(net, px, 0, |net|, bestd) && BestSeen(net, px, bestd, best) && AllColors(net)
    requires 0 <= px.b < 256 && 0 <= px.g < 256 && 0 <= px.r < 256
    ensures Nearest(net, px, best)
  {
    assert IsColor(net[0]) && Dist(net[0], px) >= bestd;
    var k :| 0 <= k < |net| && Dist(net[k], px) == bestd && net[k].c == best;
    assert forall m :: 0 <= m < |net| ==> Dist(net[m], px) >= bestd;
  }

  // ---------- from the sorted network back to the palette ----------

  lemma CellsInRange(net: seq<Neuron>)
    requires |net| > 0
    ensures forall v :: 0 <= v < 256 ==> 0 <= Cell(net, v) < |net|
  {
    forall v | 0 <= v < 256
      ensures 0 <= Cell(net, v) < |net|
    {
      CellsInOrder(net, v, v);
    }
  }

  /** Colours numbered by their palette places. */
  ghost predicate Numbered(net: seq<Neuron>) {
    forall k :: 0 <= k < |net| ==> IsColor(net[k]) && net[k].c == k
  }

  function ColorOf(n: Neuron): Bgr
    requires IsColor(n)
  {
    Bgr(n.b, n.g, n.r)
  }

  function ColorDist(p: Bgr, q: Bgr): nat {
    Abs(p.b - q.b) + Abs(p.g - q.g) + Abs(p.r - q.r)
  }

  /** A palette as the numbered network it was written from. */
  function PaletteNet(palette: seq<Bgr>): (net: seq<Neuron>)
    ensures |net| == |palette|
  {
    seq(|palette|, k requires 0 <= k < |palette| => Neuron(palette[k].b, palette[k].g, palette[k].r, k))
  }

  /** The sampling factor in use: small images are sampled fully. */
  function EffectiveSampling(img: Image, sampling: nat): (s: nat)
    ensures sampling > 0 ==> s > 0
  {
    if sampling >= (img.width * img.height) / NCYCLES then 1 else sampling
  }

  /** The network is what learning makes of the image, unbiased and numbered. */
  ghost predicate Learned(img: Image, sampling: nat, net: seq<Neuron>, initrad: nat)
    requires img.Valid() && sampling > 0
  {
    |net| == 0 || exists st0: Learner :: LearnedFrom(img, sampling, st0, net, initrad)
  }

  ghost predicate LearnedFrom(img: Image, sampling: nat, st0: Learner, net: seq<Neuron>, initrad: nat)
    requires img.Valid() && sampling > 0
  {
    && |net| > 0 && InitialState(st0, |net|, initrad)
    && var trained := LearnRun(img, ParamsOf(img, sampling), st0, SampleCount(img, sampling)).net;
      forall k :: 0 <= k < |net| ==> net[k] == UnbiasNeuron(trained[k], k)
  }

  lemma UnbiasedIsLearned(img: Image, sampling: nat, st0: Learner, trained: seq<Neuron>, net: seq<Neuron>, initrad: nat)
    requires img.Valid() && sampling > 0 && |net| > 0 && InitialState(st0, |net|, initrad)
    requires trained == LearnRun(img, ParamsOf(img, sampling), st0, SampleCount(img, sampling)).net
    requires NetInRange(trained) && forall k :: 0 <= k < |net| ==> net[k] == UnbiasNeuron(trained[k], k)
    ensures Learned(img, sampling, net, initrad) && Numbered(net)
  {
    assert LearnedFrom(img, sampling, st0, net, initrad);
    forall k | 0 <= k < |net|
      ensures IsColor(net[k]) && net[k].c == k
    {
      UnbiasGivesColor(trained[k], k);
    }
  }

  lemma SameColors(net0: seq<Neuron>, net: seq<Neuron>)
    requires multiset(net) == multiset(net0) && Numbered(net0)
    ensures |net| == |net0| && AllColors(net)
  {
    assert |multiset(net)| == |net| && |multiset(net0)| == |net0|;
    forall k | 0 <= k < |net|
      ensures IsColor(net[k])
    {
      assert net[k] in multiset(net0);
    }
  }

  /** Place `best` of the palette holds a colour nearest to pixel p. */
  ghost predicate IsNearest(colors: seq<Neuron>, p: Bgr, best: int) {
    && 0 <= best < |colors|
    && forall m :: 0 <= m < |colors| ==> Dist(colors[best], Sample(p.b, p.g, p.r)) <= Dist(colors[m], Sample(p.b, p.g, p.r))
  }

  ghost predicate NearestEverywhere(img: Image, colors: seq<Neuron>, bits: array2<Byte>)
    requires img.Valid()
    reads bits
  {
    && bits.Length0 == img.height && bits.Length1 == img.width
    && forall i, j :: 0 <= i < img.height && 0 <= j < img.width ==> IsNearest(colors, img.rows[i][j], bits[i, j])
  }

  /** The sort moved whole entries, so the number found names a nearest palette colour. */
  lemma NearestInPalette(colors: seq<Neuron>, net: seq<Neuron>, p: Bgr, best: int)
    requires multiset(net) == multiset(colors) && Numbered(colors)
    requires Nearest(net, Sample(p.b, p.g, p.r), best)
    ensures IsNearest(colors, p, best)
  {
    var px := Sample(p.b, p.g, p.r);
    var k :| 0 <= k < |net| && net[k].c == best && forall m :: 0 <= m < |net| ==> Dist(net[k], px) <= Dist(net[m], px);
    assert net[k] in multiset(colors);
    assert colors[best] == net[k];
    forall m | 0 <= m < |colors|
      ensures Dist(colors[best], px) <= Dist(colors[m], px)
    {
      assert colors[m] in multiset(net);
      var j :| 0 <= j < |net| && net[j] == colors[m];
    }
  }

  /** Entry `best` of the palette is at least as near to the pixel as any other entry. */
  ghost predicate NearestColor(palette: seq<Bgr>, p: Bgr, best: int) {
    && 0 <= best < |palette|
    && forall k :: 0 <= k < |palette| ==> ColorDist(palette[best], p) <= ColorDist(palette[k], p)
  }

  ghost predicate NearestColors(img: Image, palette: seq<Bgr>, bits: array2<Byte>)
    requires img.Valid()
    reads bits
  {
    && bits.Length0 == img.height && bits.Length1 == img.width
    && forall y, x :: 0 <= y < img.height && 0 <= x < img.width ==> NearestColor(palette, img.rows[y][x], bits[y, x])
  }

  ghost predicate WrittenFrom(palette: seq<Bgr>, colors: seq<Neuron>) {
    |palette| == |colors| && forall k :: 0 <= k < |colors| ==> IsColor(colors[k]) && palette[k] == ColorOf(colors[k])
  }

  lemma QuantizedFrom(img: Image, colors: seq<Neuron>, palette: seq<Bgr>, bits: array2<Byte>)
    requires img.Valid() && NearestEverywhere(img, colors, bits) && WrittenFrom(palette, colors)
    ensures NearestColors(img, palette, bits)
  {
    forall y, x | 0 <= y < img.height && 0 <= x < img.width
      ensures NearestColor(palette, img.rows[y][x], bits[y, x])
    {
      NearestWritten(colors, palette, img.rows[y][x], bits[y, x]);
    }
  }

  lemma NearestWritten(colors: seq<Neuron>, palette: seq<Bgr>, p: Bgr, best: int)
    requires IsNearest(colors, p, best) && WrittenFrom(palette, colors)
    ensures NearestColor(palette, p, best)
  {
    assert forall k :: 0 <= k < |colors| ==> ColorDist(palette[k], p) == Dist(colors[k], Sample(p.b, p.g, p.r));
  }

  lemma AllAreColors(colors: seq<Neuron>)
    requires Numbered(colors)
    ensures AllColors(colors)
  {
  }

  lemma PaletteNetIs(colors: seq<Neuron>, palette: seq<Bgr>)
    requires Numbered(colors) && |palette| == |colors|
    requires forall k :: 0 <= k < |colors| ==> palette[k] == ColorOf(colors[k])
    ensures PaletteNet(palette) == colors
  {
  }

  // ---------- images of one colour ----------

  /** Images of at most a hundred times the sampling factor in pixels, and a rest, are sampled fully. */
  lemma EffectiveSamplingExact(img: Image, sampling: nat)
    ensures EffectiveSampling(img, sampling)
            == if img.width * img.height < 100 * sampling + 100 then 1 else sampling
  {
    var pixels := img.width * img.height;
    assert pixels >= 0;
    assert pixels == 100 * (pixels / 100) + pixels % 100;
  }

  lemma SomeSamples(img: Image, sampling: nat)
    requires img.Valid() && sampling > 0
    ensures SampleCount(img, EffectiveSampling(img, sampling)) > 0
  {
    var s := EffectiveSampling(img, sampling);
    CountExact(img, s);
    MulGrows(img.width, img.height);
    if s > 1 {
      assert img.width * img.height >= NCYCLES * s;
    }
  }

  /** The only colour of an image is among the learned ones. */
  lemma OneColorIsLearned(img: Image, sampling: nat, palette: seq<Bgr>, initrad: nat, color: Bgr)
    requires img.Valid() && sampling > 0 && OneColor(img, color) && 0 < |palette| <= 256
    requires Learned(img, EffectiveSampling(img, sampling), PaletteNet(palette), initrad)
    ensures color in palette
  {
    hide LearnRun, OneColor, InitialState, Trained, EffectiveSampling, SampleCount, Scan.ChoosePrime;
    var net, s := PaletteNet(palette), EffectiveSampling(img, sampling);
    var st0 :| LearnedFrom(img, s, st0, net, initrad);
    SomeSamples(img, sampling);
    InitialIsTrained(st0, |net|, initrad);
    StartsFull(st0, |net|, initrad);
    OneColorIsReached(img, ParamsOf(img, s), st0, initrad * RADIUS_BIAS, color, SampleCount(img, s));
    var trained := LearnRun(img, ParamsOf(img, s), st0, SampleCount(img, s)).net;
    var j :| 0 <= j < |trained| && IsAt(trained[j], SampleOf(color));
    UnbiasesBack(trained[j], color, j);
    assert net[j] == Neuron(palette[j].b, palette[j].g, palette[j].r, j);
    assert palette[j] == color;
  }

  lemma StartsFull(st: Learner, n: nat, initrad: nat)
    requires n > 0 && InitialState(st, n, initrad)
    ensures st.pos == 0 && st.alpha == INIT_ALPHA && |st.net| == n
  {
  }

  /** A colour of the palette is nearest to itself and to no other pixel. */
  lemma ExactIsNearest(palette: seq<Bgr>, p: Bgr, best: int)
    requires NearestColor(palette, p, best) && p in palette
    ensures palette[best] == p
  {
    var k :| 0 <= k < |palette| && palette[k] == p;
    assert ColorDist(palette[k], p) == 0;
  }

  /** Every pixel whose colour is in the palette gets that colour. */
  ghost predicate PaletteColorsKept(img: Image, palette: seq<Bgr>, bits: array2<Byte>)
    requires img.Valid()
    reads bits
  {
    && bits.Length0 == img.height && bits.Length1 == img.width
    && forall y, x :: 0 <= y < img.height && 0 <= x < img.width && img.rows[y][x] in palette ==>
         bits[y, x] as int < |palette| && palette[bits[y, x]] == img.rows[y][x]
  }

  lemma NearestKeeps(img: Image, palette: seq<Bgr>, bits: array2<Byte>)
    requires img.Valid() && NearestColors(img, palette, bits)
    ensures PaletteColorsKept(img, palette, bits)
  {
    hide NearestColor;
    forall y, x | 0 <= y < img.height && 0 <= x < img.width && img.rows[y][x] in palette
      ensures bits[y, x] as int < |palette| && palette[bits[y, x]] == img.rows[y][x]
    {
      InPalette(palette, img.rows[y][x], bits[y, x]);
      ExactIsNearest(palette, img.rows[y][x], bits[y, x]);
    }
  }

  lemma InPalette(palette: seq<Bgr>, p: Bgr, best: int)
    requires NearestColor(palette, p, best)
    ensures 0 <= best < |palette|
  {
  }

  /** In an image of one colour every pixel keeps it, if the palette has a place to learn it. */
  ghost predicate OneColorKept(img: Image, palette: seq<Bgr>, places: int, bits: array2<Byte>)
    requires img.Valid() && bits.Length0 == img.height && bits.Length1 == img.width
    reads bits
  {
    forall p :: OneColor(img, p) && places > 0 ==>
      forall y, x :: 0 <= y < img.height && 0 <= x < img.width ==> bits[y, x] as int < |palette| && palette[bits[y, x]] == p
  }

  lemma OneColorIsKept(img: Image, sampling: nat, palette: seq<Bgr>, places: nat, initrad: nat, bits: array2<Byte>)
    requires img.Valid() && sampling > 0 && places <= |palette| <= 256 && NearestColors(img, palette, bits)
    requires Learned(img, EffectiveSampling(img, sampling), PaletteNet(palette[..places]), initrad)
    ensures PaletteColorsKept(img, palette, bits) && OneColorKept(img, palette, places, bits)
  {
    hide NearestColors, Learned, PaletteNet, EffectiveSampling;
    NearestKeeps(img, palette, bits);
    forall p | OneColor(img, p) && places > 0
      ensures p in palette
    {
      OneColorIsLearned(img, sampling, palette[..places], initrad, p);
    }
  }
}
