/** The NeuQuant quantizer: a network of neurons trained in place on samples of the image, then
    sorted, indexed and searched for every pixel. */
module NNQuantizers {
  import opened CArith
  import opened NetLearn
  import opened NetIndex
  import Scan

  class NNQuantizer {
    var netsize: nat
    const maxnetpos: nat
    const initrad: nat
    const network: array<Neuron>
    const bias: array<int>
    const freq: array<int>
    const radpower: array<int>
    const netindex: array<int>

    ghost predicate Valid()
      reads this
    {
      && 1 <= network.Length <= 256 && netsize <= network.Length && maxnetpos == network.Length - 1
      && bias.Length == freq.Length == network.Length && netindex.Length == 256
      && 1 <= initrad <= 32 && radpower.Length == initrad
      && bias != freq && bias != radpower && freq != radpower
      && netindex != bias && netindex != freq && netindex != radpower
    }

    constructor (paletteSize: nat)
      requires 1 <= paletteSize <= 256
      ensures Valid() && netsize == network.Length == paletteSize
      ensures initrad == if paletteSize < 8 then 1 else paletteSize / 8
      ensures fresh(network) && fresh(bias) && fresh(freq) && fresh(radpower) && fresh(netindex)
    {
      netsize := paletteSize;
      maxnetpos := paletteSize - 1;
      initrad := if paletteSize < 8 then 1 else paletteSize / 8;
      network := new Neuron[paletteSize];
      bias := new int[paletteSize];
      freq := new int[paletteSize];
      radpower := new int[if paletteSize < 8 then 1 else paletteSize / 8];
      netindex := new int[256];
    }

    /** The learning state held by the first `netsize` neurons. */
    ghost function State(alpha: int, radius: int, pos: nat): Learner
      requires Valid()
      reads this, network, bias, freq
    {
      Learner(network[..netsize], bias[..netsize], freq[..netsize], alpha, radius, pos)
    }

    /** The network, bias and frequencies of the first `netsize` neurons. */
    ghost function Held(): Core
      requires Valid()
      reads this, network, bias, freq
    {
      Core(network[..netsize], bias[..netsize], freq[..netsize])
    }

    method InitNet()
      requires Valid() && netsize > 0
      modifies network, bias, freq
      ensures InitialState(State(INIT_ALPHA, initrad * RADIUS_BIAS, 0), netsize, initrad)
    {
      for i := 0 to netsize
        invariant forall k :: 0 <= k < i ==> network[k] == InitialNeuron(k, netsize, network[k].c)
        invariant forall k :: 0 <= k < i ==> freq[k] == INT_BIAS / netsize && bias[k] == 0
      {
        var level := TruncDiv(i * 0x1000, netsize);
        network[i] := Neuron(level, level, level, network[i].c);
        freq[i] := TruncDiv(INT_BIAS, netsize);
        bias[i] := 0;
      }
    }

    /** Neurons become colours, and each notes its position before the sort. */
    method UnbiasNet()
      requires Valid()
      modifies network
      ensures forall k :: 0 <= k < netsize ==> network[k] == UnbiasNeuron(old(network[k]), k)
      ensures network[netsize..] == old(network[netsize..])
    {
      for i := 0 to netsize
        invariant forall k :: 0 <= k < i ==> network[k] == UnbiasNeuron(old(network[k]), k)
        invariant forall k :: i <= k < network.Length ==> network[k] == old(network[k])
      {
        var n := network[i];
        network[i] := Neuron(Unbias(n.b), Unbias(n.g), Unbias(n.r), i);
      }
    }

    /** Finds the nearest neuron and the one nearest after bias, and updates the frequencies. */
    method Contest(px: Sample) returns (bestbiaspos: nat)
      requires Valid() && netsize > 0
      requires CoreFits(Held(), px)
      modifies bias, freq
      ensures Held() == Contested(old(Held()), FirstMin(Dists(network[..netsize], px)))
      ensures bestbiaspos == FirstMin(BiasDists(network[..netsize], old(bias[..netsize]), px))
    {
      hide BestSoFar, FirstMin, CoreFits, Decayed, BiasAfter, FreqAfter;
      ghost var core := Held();
      ghost var dists := Dists(network[..netsize], px);
      ghost var biased := BiasDists(network[..netsize], bias[..netsize], px);
      var bestd, bestbiasd, bestpos := INT_MAX, INT_MAX, -1;
      var bestbias := -1;
      DecayStart(core);
      NoneYet(dists, bestpos);
      NoneYet(biased, bestbias);
      for i := 0 to netsize
        invariant BestSoFar(dists, i, bestpos, bestd)
        invariant BestSoFar(biased, i, bestbias, bestbiasd)
        invariant Decayed(core, Held(), i)
      {
        var n := network[i];
        var dist := Abs(n.b - px.b) + Abs(n.g - px.g) + Abs(n.r - px.r);
        DecayOne(core, Held(), i);
        assert dists[i] == dist && biased[i] == dist - bias[i] / 0x1000;
        BelowInitialBest(core, px, i);
        NextBest(dists, i, bestpos, bestd);
        NextBest(biased, i, bestbias, bestbiasd);
        if dist < bestd {
          bestd, bestpos := dist, i;
        }
        var biasdist := dist - bias[i] / 0x1000;
        if biasdist < bestbiasd {
          bestbiasd, bestbias := biasdist, i;
        }
        var betafreq := freq[i] / 0x400;
        freq[i] := freq[i] - betafreq;
        bias[i] := bias[i] + betafreq * GAMMA;
      }
      LastBest(dists, bestpos, bestd);
      LastBest(biased, bestbias, bestbiasd);
      DecayEnd(core, Held(), bestpos);
      freq[bestpos] := freq[bestpos] + BETA;
      bias[bestpos] := bias[bestpos] - BETA_GAMMA;
      return bestbias;
    }

    method AlterSingle(alpha: int, i: nat, px: Sample)
      requires Valid() && i < netsize
      modifies network
      ensures network[..netsize] == old(network[..netsize])[i := Toward(old(network[i]), px, alpha, INIT_ALPHA)]
      ensures network[netsize..] == old(network[netsize..])
    {
      var n := network[i];
      network[i] := Neuron(n.b - TruncDiv(alpha * (n.b - px.b), INIT_ALPHA),
                           n.g - TruncDiv(alpha * (n.g - px.g), INIT_ALPHA),
                           n.r - TruncDiv(alpha * (n.r - px.r), INIT_ALPHA), n.c);
    }

    /** radpower holds the powers for this alpha and radius. */
    ghost predicate Powered(alpha: int, rad: int)
      requires Valid()
      reads this, radpower
    {
      && 0 <= rad <= radpower.Length
      && forall d :: 0 <= d < rad ==> radpower[d] == RadPower(alpha, rad, d)
    }

    method SetRadPower(alpha: int, rad: nat)
      requires Valid() && rad <= initrad
      modifies radpower
      ensures Powered(alpha, rad)
    {
      for d := 0 to rad
        invariant forall k :: 0 <= k < d ==> radpower[k] == RadPower(alpha, rad, k)
      {
        radpower[d] := RadPower(alpha, rad, d);
      }
    }

    method MoveNeighbour(p: nat, a: int, px: Sample)
      requires Valid() && p < netsize
      modifies network
      ensures network[..] == old(network[..])[p := Toward(old(network[p]), px, a, ALPHA_RAD_BIAS)]
    {
      var n := network[p];
      network[p] := Neuron(n.b - TruncDiv(a * (n.b - px.b), ALPHA_RAD_BIAS),
                           n.g - TruncDiv(a * (n.g - px.g), ALPHA_RAD_BIAS),
                           n.r - TruncDiv(a * (n.r - px.r), ALPHA_RAD_BIAS), n.c);
    }

    /** Walks outward from the winner on both sides at once, one distance a turn. */
    method AlterNeigh(rad: nat, i: nat, px: Sample, ghost alpha: int)
      requires Valid() && i < netsize && 2 <= rad && Powered(alpha, rad)
      modifies network
      ensures network[..netsize] == PullNeighbours(old(network[..netsize]), alpha, rad, i, px)
      ensures network[netsize..] == old(network[netsize..])
    {
      hide Toward, RadPower, PulledBetween, PullNeighbours;
      ghost var net := network[..];
      var lo := if i - rad < -1 then -1 else i - rad;
      var hi := if i + rad > netsize then netsize else i + rad;
      var j, k := i + 1, i - 1;
      var q := 0;
      PullsStart(net, alpha, rad, i, px);
      while j < hi || k > lo
        invariant j == Min(i + 1 + q, hi) && k == Max(i - 1 - q, lo) && q < rad
        invariant PulledBetween(net, network[..], alpha, rad, i, px, k, j)
        decreases hi - j + k - lo
      {
        q := q + 1;
        var a := radpower[q];
        if j < hi {
          PullsGrow(net, network[..], alpha, rad, i, px, k, j, j);
          MoveNeighbour(j, a, px);
          j := j + 1;
        }
        if k > lo {
          PullsGrow(net, network[..], alpha, rad, i, px, k, j, k);
          MoveNeighbour(k, a, px);
          k := k - 1;
        }
      }
      PullsEnd(net, network[..], alpha, rad, i, px, netsize);
    }

    /** The wrap of the scan position. */
    method WrapPos(next: nat, len: nat) returns (pos: nat)
      requires len > 0
      ensures pos == next % len
    {
      pos := next;
      while pos >= len
        invariant pos % len == next % len
      {
        Scan.ModMinus(pos, len);
        pos := pos - len;
      }
      ModUnique(pos, len, 0, pos);
    }

    /** The part of the learning loop that changes the network. */
    method AbsorbSample(px: Sample, alpha: int, rad: nat)
      requires Valid() && netsize > 0 && (rad == 0 || 2 <= rad) && Powered(alpha, rad)
      requires CoreFits(Held(), px)
      modifies network, bias, freq
      ensures Held() == Absorb(old(Held()), px, alpha, rad) && Powered(alpha, rad)
      ensures network[netsize..] == old(network[netsize..])
    {
      hide FirstMin, Dists, BiasDists, BiasAfter, FreqAfter, ContestFits, Toward, PullNeighbours;
      var won := Contest(px);
      AlterSingle(alpha, won, px);
      if rad != 0 {
        AlterNeigh(rad, won, px, alpha);
      }
    }

    /** Every `delta` samples the learning rate and the radius shrink. */
    method Decay(i: nat, delta: nat, alphadec: nat, alpha: int, radius: int, rad: nat)
      returns (alpha': int, radius': int, rad': nat)
      requires Valid() && delta > 0 && alphadec > 0 && alpha >= 0 && 0 <= radius <= initrad * RADIUS_BIAS
      requires rad == RadOf(radius) && Powered(alpha, rad)
      modifies radpower
      ensures alpha' == if i % delta == 0 then alpha - TruncDiv(alpha, alphadec) else alpha
      ensures radius' == if i % delta == 0 then radius - TruncDiv(radius, RADIUS_DEC) else radius
      ensures rad' == RadOf(radius') && Powered(alpha', rad') && Held() == old(Held())
    {
      alpha', radius', rad' := alpha, radius, rad;
      if i % delta == 0 {
        DivShrinks(radius, RADIUS_DEC);
        alpha' := alpha - TruncDiv(alpha, alphadec);
        radius' := radius - TruncDiv(radius, RADIUS_DEC);
        rad' := RadOf(radius');
        SetRadPower(alpha', rad');
      }
    }

    /** One turn of the learning loop; i samples were taken before it. */
    method LearnTurn(img: Image, p: Params, i: nat, alpha: int, radius: int, rad: nat, pos: nat)
      returns (alpha': int, radius': int, rad': nat, pos': nat)
      requires Valid() && netsize > 0 && img.Valid() && p.Valid() && p.len == img.Length() && pos < p.len
      requires Trained(State(alpha, radius, pos), initrad * RADIUS_BIAS)
      requires rad == RadOf(radius) && Powered(alpha, rad)
      modifies network, bias, freq, radpower
      ensures pos' < p.len && State(alpha', radius', pos') == LearnStep(img, p, i, old(State(alpha, radius, pos)))
      ensures rad' == RadOf(radius') && Powered(alpha', rad')
      ensures network[netsize..] == old(network[netsize..])
    {
      hide Valid, Trained, LearnStep, Absorb, RadOf, Powered, Image.Valid, Image.Length;
      var px := SampleAt(img, pos);
      ghost var st := State(alpha, radius, pos);
      TrainedFits(st, initrad * RADIUS_BIAS, px);
      RadIsNotOne(radius);
      AbsorbSample(px, alpha, rad);
      StepParts(img, p, i, st);
      pos' := WrapPos(pos + p.step, p.len);
      alpha', radius', rad' := Decay(i + 1, p.delta, p.alphadec, alpha, radius, rad);
    }

    /** The learning loop: `samplepixels` turns from the first pixel on. */
    method LearnLoop(img: Image, p: Params, samplepixels: nat)
      requires Valid() && netsize > 0 && img.Valid() && p.Valid() && p.len == img.Length()
      requires Trained(State(INIT_ALPHA, initrad * RADIUS_BIAS, 0), initrad * RADIUS_BIAS)
      modifies network, bias, freq, radpower
      ensures network[..netsize] == LearnRun(img, p, old(State(INIT_ALPHA, initrad * RADIUS_BIAS, 0)), samplepixels).net
      ensures NetInRange(network[..netsize])
      ensures network[netsize..] == old(network[netsize..])
    {
      var alpha, radius := INIT_ALPHA, initrad * RADIUS_BIAS;
      var rad := RadOf(radius);
      SetRadPower(alpha, rad);
      ghost var st0, maxRadius := State(alpha, radius, 0), initrad * RADIUS_BIAS;
      var i: nat, pos: nat := 0, 0;
      hide Trained, LearnStep, RadOf, Powered, Image.Valid, Image.Length, NetInRange;
      while i < samplepixels
        invariant pos < p.len && i <= samplepixels
        invariant State(alpha, radius, pos) == LearnRun(img, p, st0, i)
        invariant Trained(State(alpha, radius, pos), maxRadius)
        invariant rad == RadOf(radius) && Powered(alpha, rad)
        invariant network[netsize..] == old(network[netsize..])
      {
        StepKeepsTrained(img, p, i, State(alpha, radius, pos), maxRadius);
        alpha, radius, rad, pos := LearnTurn(img, p, i, alpha, radius, rad, pos);
        i := i + 1;
      }
      TrainedNet(State(alpha, radius, pos), maxRadius);
    }

    /** Trains the first `netsize` neurons.  The result is the learning function of the image, and
        by its invariants every component stays in range. */
    method Learn(img: Image, sampling: nat)
      requires Valid() && netsize > 0 && img.Valid() && sampling > 0
      requires InitialState(State(INIT_ALPHA, initrad * RADIUS_BIAS, 0), netsize, initrad)
      modifies network, bias, freq, radpower
      ensures network[..netsize] == LearnRun(img, ParamsOf(img, sampling),
                old(State(INIT_ALPHA, initrad * RADIUS_BIAS, 0)), SampleCount(img, sampling)).net
      ensures NetInRange(network[..netsize])
      ensures network[netsize..] == old(network[netsize..])
    {
      InitialIsTrained(State(INIT_ALPHA, initrad * RADIUS_BIAS, 0), netsize, initrad);
      var lengthcount := img.Length();
      var samplepixels := SampleCount(img, sampling);
      var delta := samplepixels / NCYCLES;
      if delta == 0 {
        delta := 1;
      }
      var alphadec := 30 + (sampling - 1) / 3;
      var step := 3 * Scan.ChoosePrime(lengthcount);
      assert Params(lengthcount, step, delta, alphadec) == ParamsOf(img, sampling);
      hide ParamsOf, SampleCount, Scan.ChoosePrime, InitialState, Trained, LearnRun, Image.Valid, Image.Length, NetInRange;
      LearnLoop(img, Params(lengthcount, step, delta, alphadec), samplepixels);
    }

    method FindSmallest(i: nat) returns (smallpos: nat)
      requires Valid() && i < netsize == network.Length
      ensures i <= smallpos < netsize
      ensures forall k :: i <= k < netsize ==> network[smallpos].g <= network[k].g
    {
      smallpos := i;
      for j := i + 1 to netsize
        invariant i <= smallpos < j
        invariant forall k :: i <= k < j ==> network[smallpos].g <= network[k].g
      {
        if network[j].g < network[smallpos].g {
          smallpos := j;
        }
      }
    }

    /** Fills the cells from `prev` up to the next green, which starts at position i. */
    method FillCells(prev: nat, next: nat, cell: int, rest: int)
      requires Valid() && prev < next <= 256
      modifies netindex
      ensures forall v :: 0 <= v < 256 ==>
        netindex[v] == if v == prev then cell else if prev < v < next then rest else old(netindex[v])
    {
      netindex[prev] := cell;
      for j := prev + 1 to next
        invariant forall v :: 0 <= v < 256 ==>
          netindex[v] == if v == prev then cell else if prev < v < j then rest else old(netindex[v])
      {
        netindex[j] := rest;
      }
    }

    /** The exchange of two entries, component by component in the source. */
    method SwapEntries(i: nat, j: nat)
      requires Valid() && i < network.Length && j < network.Length
      modifies network
      ensures network[..] == Swap(old(network[..]), i, j)
    {
      if i != j {
        network[i], network[j] := network[j], network[i];
      }
    }

    /** Selection sort by green, filling the index on the way. */
    method InxBuild()
      requires Valid() && netsize == network.Length
      requires AllColors(network[..])
      modifies network, netindex
      ensures SortedByGreen(network[..]) && multiset(network[..]) == multiset(old(network[..]))
      ensures forall v :: 0 <= v < 256 ==> netindex[v] == Cell(old(network[..]), v)
    {
      hide SortedUpTo, SameCells, InRun, CellsDone, AllColors, Swap;
      ghost var net0 := network[..];
      var previouscol: nat, startpos := 0, 0;
      CellsStart(net0, netindex[..]);
      for i := 0 to netsize
        invariant SortedUpTo(network[..], i) && multiset(network[..]) == multiset(net0)
        invariant SameCells(network[..], net0) && AllColors(network[..])
        invariant InRun(network[..], i, previouscol, startpos)
        invariant previouscol < 256 && CellsDone(net0, netindex[..], previouscol)
      {
        ghost var net, cells := network[..], netindex[..];
        var smallpos := FindSmallest(i);
        SortRound(net0, net, i, smallpos, previouscol, startpos);
        SwapEntries(i, smallpos);
        var smallval := network[i].g;
        if smallval != previouscol {
          FillCells(previouscol, smallval, (startpos + i) / 2, i);
          CellsExtend(net0, cells, netindex[..], previouscol, smallval);
          previouscol, startpos := smallval, i;
        }
      }
      SortEnds(net0, network[..], previouscol, startpos);
      CellsMean(net0, netindex[..], previouscol);
      FillCells(previouscol, 256, (startpos + maxnetpos) / 2, maxnetpos);
    }

    /** The colour at position k is compared component by component, giving up early. */
    method Compare(k: nat, px: Sample, bestd: int, best: int) returns (bestd': int, best': int)
      requires Valid() && k < network.Length
      ensures bestd' == Min(bestd, Dist(network[k], px))
      ensures best' == if Dist(network[k], px) < bestd then network[k].c else best
    {
      bestd', best' := bestd, best;
      var p := network[k];
      var dist := Abs(p.g - px.g);
      dist := dist + Abs(p.b - px.b);
      if dist < bestd {
        dist := dist + Abs(p.r - px.r);
        if dist < bestd {
          bestd', best' := dist, p.c;
        }
      }
    }

    /** Searches outward from the index cell; the result names a nearest colour of the network. */
    method InxSearch(px: Sample) returns (best: int)
      requires Valid() && netsize == network.Length && SortedByGreen(network[..]) && AllColors(network[..])
      requires 0 <= px.b < 256 && 0 <= px.g < 256 && 0 <= px.r < 256
      requires 0 <= netindex[px.g] < netsize
      ensures Nearest(network[..], px, best)
    {
      ghost var net := network[..];
      var bestd := 1000;
      best := -1;
      var i: nat := netindex[px.g];
      var j := i - 1;
      ghost var start := i;
      NothingSeen(net, px, start, bestd, best);
      hide SortedByGreen, AllColors, NoneNearer, BestSeen;
      while i < netsize || j >= 0
        invariant start <= i <= netsize && -1 <= j < start
        invariant NoneNearer(net, px, j + 1, i, bestd) && BestSeen(net, px, bestd, best)
        decreases netsize - i + j
      {
        if i < netsize {
          if network[i].g - px.g >= bestd {
            StopUpward(net, px, i, bestd);
            JoinSeen(net, px, j + 1, i, netsize, bestd);
            i := netsize;
          } else {
            SeeOne(net, px, j + 1, i, i, bestd, best);
            bestd, best := Compare(i, px, bestd, best);
            i := i + 1;
          }
        }
        if j >= 0 {
          if px.g - network[j].g >= bestd {
            StopDownward(net, px, j, bestd);
            JoinSeen(net, px, 0, j + 1, i, bestd);
            j := -1;
          } else {
            SeeOne(net, px, j + 1, i, j, bestd, best);
            bestd, best := Compare(j, px, bestd, best);
            j := j - 1;
          }
        }
      }
      AllSeen(net, px, bestd, best);
    }

    /** Training, if the reserve palette leaves room for it: `netsize` is cut meanwhile. */
    method TrainNetwork(img: Image, reserveSize: nat, sampling: nat)
      requires Valid() && netsize == network.Length && reserveSize <= netsize && img.Valid() && sampling > 0
      modifies this`netsize, network, bias, freq, radpower
      ensures Valid() && netsize == network.Length
      ensures Learned(img, sampling, network[..netsize - reserveSize], initrad)
      ensures Numbered(network[..netsize - reserveSize])
    {
      if netsize > reserveSize {
        netsize := netsize - reserveSize;
        InitNet();
        ghost var st0 := State(INIT_ALPHA, initrad * RADIUS_BIAS, 0);
        Learn(img, sampling);
        ghost var trained := network[..netsize];
        UnbiasNet();
        UnbiasedIsLearned(img, sampling, st0, trained, network[..netsize], initrad);
        netsize := netsize + reserveSize;
      }
    }

    /** The last entries are overwritten with the reserve palette. */
    method AddReservePalette(reservePalette: seq<Bgr>)
      requires Valid() && netsize == network.Length && |reservePalette| <= netsize
      requires Numbered(network[..netsize - |reservePalette|])
      modifies network
      ensures network[..netsize - |reservePalette|] == old(network[..netsize - |reservePalette|])
      ensures Numbered(network[..])
      ensures forall i :: 0 <= i < |reservePalette| ==>
                ColorOf(network[netsize - |reservePalette| + i]) == reservePalette[i]
    {
      var offset := netsize - |reservePalette|;
      for i := 0 to |reservePalette|
        invariant network[..offset] == old(network[..offset])
        invariant Numbered(network[..offset + i])
        invariant forall k :: 0 <= k < i ==> ColorOf(network[offset + k]) == reservePalette[k]
      {
        var q := reservePalette[i];
        network[offset + i] := Neuron(q.b, q.g, q.r, offset + i);
        assert network[..offset + i + 1] == network[..offset + i] + [network[offset + i]];
      }
    }

    method WritePalette(palette: array<Bgr>)
      requires Valid() && netsize == network.Length <= palette.Length && Numbered(network[..])
      modifies palette
      ensures forall k :: 0 <= k < netsize ==> palette[k] == ColorOf(network[k])
      ensures forall k :: netsize <= k < palette.Length ==> palette[k] == old(palette[k])
    {
      for j := 0 to netsize
        invariant forall k :: 0 <= k < j ==> palette[k] == ColorOf(network[k])
        invariant forall k :: j <= k < palette.Length ==> palette[k] == old(palette[k])
      {
        palette[j] := ColorOf(network[j]);
      }
    }

    /** Every pixel gets the place of a palette colour nearest to it. */
    method MapPixels(img: Image, ghost colors: seq<Neuron>) returns (bits: array2<Byte>)
      requires Valid() && netsize == network.Length && img.Valid()
      requires SortedByGreen(network[..]) && multiset(network[..]) == multiset(colors) && Numbered(colors)
      requires forall v :: 0 <= v < 256 ==> 0 <= netindex[v] < netsize
      ensures fresh(bits) && NearestEverywhere(img, colors, bits)
    {
      bits := new Byte[img.height, img.width]((_, _) => 0);
      SameColors(colors, network[..]);
      hide SortedByGreen, AllColors, Numbered, Nearest, IsNearest;
      for y := 0 to img.height
        invariant forall i, j :: 0 <= i < y && 0 <= j < img.width ==> IsNearest(colors, img.rows[i][j], bits[i, j])
      {
        for x := 0 to img.width
          invariant forall i, j :: 0 <= i < y && 0 <= j < img.width ==> IsNearest(colors, img.rows[i][j], bits[i, j])
          invariant forall j :: 0 <= j < x ==> IsNearest(colors, img.rows[y][j], bits[y, j])
        {
          var p := img.rows[y][x];
          var best := InxSearch(Sample(p.b, p.g, p.r));
          NearestInPalette(colors, network[..], p, best);
          bits[y, x] := best;
        }
      }
    }

    /** Quantizes a 24-bit image.  Dimensions above 65535 are excluded because the output loops
        count in 16-bit words. */
    method Quantize(img: Image, reservePalette: seq<Bgr>, sampling: nat, palette: array<Bgr>)
      returns (bits: array2<Byte>)
      requires Valid() && netsize == network.Length && img.Valid() && img.width <= 65535 && img.height <= 65535
      requires |reservePalette| <= netsize && sampling > 0 && palette.Length == 256
      modifies this`netsize, network, bias, freq, radpower, netindex, palette
      ensures Valid() && netsize == network.Length
      ensures NearestColors(img, palette[..netsize], bits)
      ensures PaletteColorsKept(img, palette[..netsize], bits)
      ensures OneColorKept(img, palette[..netsize], netsize - |reservePalette|, bits)
      ensures palette[netsize - |reservePalette|..netsize] == reservePalette
      ensures Learned(img, EffectiveSampling(img, sampling), PaletteNet(palette[..netsize - |reservePalette|]), initrad)
      ensures palette[netsize..] == old(palette[netsize..])
    {
      hide Numbered, Learned, SortedByGreen, NearestEverywhere, NearestColors, Image.Valid, PaletteNet, Cell,
        EffectiveSampling, OneColorKept, PaletteColorsKept;
      TrainNetwork(img, |reservePalette|, EffectiveSampling(img, sampling));
      AddReservePalette(reservePalette);
      ghost var colors, learned := network[..], netsize - |reservePalette|;
      WritePalette(palette);
      PaletteNetIs(colors[..learned], palette[..learned]);
      AllAreColors(colors);
      InxBuild();
      CellsInRange(colors);
      bits := MapPixels(img, colors);
      QuantizedFrom(img, colors, palette[..netsize], bits);
      assert palette[..netsize][..learned] == palette[..learned];
      OneColorIsKept(img, sampling, palette[..netsize], learned, initrad, bits);
    }
  }
}
