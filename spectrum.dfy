/** The spectrum preprocessing at the top of MassSpecProj.py: drop the weak
    (isotopic) peaks, then drop the mass values above the parent's molecular
    weight. A peak is an (m/z, relative intensity) pair; the JCAMP-DX reader
    delivers the two coordinates as parallel lists `x` and `y`. Floating-point
    values are modelled as exact reals. */
module Spectrum {
  import opened Sequences

  /** An (m/z, relative intensity) pair. */
  type Peak = (real, real)

  /** Peaks with a relative intensity below this are treated as isotopic noise. */
  const MinIntensity: real := 200.0

  /** The ways the preprocessing can stop the script. */
  datatype PreprocessError =
    | NoStrongPeak        // `zip(*())` has no columns to unpack into `x, y`
    | NoPeakWithinWeight  // `min` of the emptied `x` list for the second plot's ticks

  datatype Result<T> = Ok(value: T) | Err(error: PreprocessError)

  /** The two lists once both filters have run. */
  datatype Spectrum = Spectrum(mz: seq<real>, intensity: seq<real>)

  predicate Strong(p: Peak) {
    p.1 >= MinIntensity
  }

  function WithinWeight(mw: int): real -> bool {
    x => x <= mw as real
  }

  function PeakWithinWeight(mw: int): Peak -> bool {
    (p: Peak) => p.0 <= mw as real
  }

  /** Keep the (x, y) pairs whose intensity reaches the threshold and unzip
      them back into two lists; unpacking fails when no pair is kept. */
  function DropWeakPeaks(xs: seq<real>, ys: seq<real>): (r: Result<(seq<real>, seq<real>)>)
    ensures r.Err? <==> forall k :: 0 <= k < |xs| && k < |ys| ==> ys[k] < MinIntensity
    ensures r.Err? ==> r.error == NoStrongPeak
    ensures r.Ok? ==> 0 < |r.value.0| == |r.value.1|
  {
    var kept := Filter(Strong, Zip(xs, ys));
    if kept == [] then
      assert forall k :: 0 <= k < |xs| && k < |ys| ==> !Strong(Zip(xs, ys)[k]);
      Err(NoStrongPeak)
    else
      assert kept[0] in Zip(xs, ys);
      assert exists k :: 0 <= k < |Zip(xs, ys)| && Zip(xs, ys)[k] == kept[0] && Strong(kept[0]);
      Ok((Firsts(kept), Seconds(kept)))
  }

  /** The kept pairs are strong, and every strong input peak is kept. */
  lemma DropWeakPeaksKeepsStrongPeaks(xs: seq<real>, ys: seq<real>)
    requires DropWeakPeaks(xs, ys).Ok?
    ensures var (x, y) := DropWeakPeaks(xs, ys).value;
      && (forall k :: 0 <= k < |x| ==> y[k] >= MinIntensity)
      && (forall k :: 0 <= k < |xs| && k < |ys| && ys[k] >= MinIntensity ==> (xs[k], ys[k]) in Zip(x, y))
  {
    var kept := Filter(Strong, Zip(xs, ys));
    assert DropWeakPeaks(xs, ys).value == (Firsts(kept), Seconds(kept));
    ZipUnzip(kept);
    StrongPeaksKept(xs, ys, kept);
  }

  /** The kept pairs are the strong input peaks in input order, each as
      often as it occurs: together these pin the output down exactly. */
  lemma DropWeakPeaksKeepsOrder(xs: seq<real>, ys: seq<real>)
    requires DropWeakPeaks(xs, ys).Ok?
    ensures var (x, y) := DropWeakPeaks(xs, ys).value;
      && Subsequence(Zip(x, y), Zip(xs, ys))
      && forall v :: multiset(Zip(x, y))[v] == if Strong(v) then multiset(Zip(xs, ys))[v] else 0
  {
    var kept := Filter(Strong, Zip(xs, ys));
    assert DropWeakPeaks(xs, ys).value == (Firsts(kept), Seconds(kept));
    ZipUnzip(kept);
    StrongPeaksInOrder(xs, ys, kept);
  }

  /** The kept pairs are the strong input pairs, in order and as often as
      they occur. */
  lemma StrongPeaksInOrder(xs: seq<real>, ys: seq<real>, kept: seq<Peak>)
    requires kept == Filter(Strong, Zip(xs, ys))
    ensures Subsequence(kept, Zip(xs, ys))
    ensures forall v :: multiset(kept)[v] == if Strong(v) then multiset(Zip(xs, ys))[v] else 0
  {
    FilterIsSubsequence(Strong, Zip(xs, ys));
    FilterMultiplicity(Strong, Zip(xs, ys));
  }

  lemma StrongPeaksKept(xs: seq<real>, ys: seq<real>, kept: seq<Peak>)
    requires kept == Filter(Strong, Zip(xs, ys))
    ensures forall k :: 0 <= k < |kept| ==> kept[k].1 >= MinIntensity
    ensures forall k :: 0 <= k < |xs| && k < |ys| && ys[k] >= MinIntensity ==> (xs[k], ys[k]) in kept
  {
    var z := Zip(xs, ys);
    assert forall k :: 0 <= k < |xs| && k < |ys| ==> z[k] == (xs[k], ys[k]);
  }

  /** Keep only the mass values that do not exceed the molecular weight. */
  function DropHeavyPeaks(xs: seq<real>, mw: int): (r: seq<real>)
    ensures |r| <= |xs|
    ensures forall k :: 0 <= k < |r| ==> r[k] <= mw as real
  {
    Filter(WithinWeight(mw), xs)
  }

  /** The kept values are exactly the input values at most `mw`, in order. */
  lemma DropHeavyPeaksKeepsLightPeaks(xs: seq<real>, mw: int)
    ensures forall k :: 0 <= k < |DropHeavyPeaks(xs, mw)| ==> DropHeavyPeaks(xs, mw)[k] <= mw as real
    ensures forall k :: 0 <= k < |xs| && xs[k] <= mw as real ==> xs[k] in DropHeavyPeaks(xs, mw)
    ensures Subsequence(DropHeavyPeaks(xs, mw), xs)
    ensures forall v :: multiset(DropHeavyPeaks(xs, mw))[v] == if v <= mw as real then multiset(xs)[v] else 0
  {
    FilterIsSubsequence(WithinWeight(mw), xs);
    FilterMultiplicity(WithinWeight(mw), xs);
  }

  /** Both filters as the script runs them. The weight filter touches `x`
      only; `y` keeps every strong intensity, so its length can differ. The
      script stops when the strong peaks cannot be unpacked because there are
      none, or when the minimum of the weight-filtered `x` is taken on an
      empty list. */
  function Preprocess(xs: seq<real>, ys: seq<real>, mw: int): (r: Result<Spectrum>)
    ensures r.Ok? <==> DropWeakPeaks(xs, ys).Ok? && DropHeavyPeaks(DropWeakPeaks(xs, ys).value.0, mw) != []
    ensures r.Ok? ==> r.value.mz == DropHeavyPeaks(DropWeakPeaks(xs, ys).value.0, mw)
    ensures r.Ok? ==> r.value.intensity == DropWeakPeaks(xs, ys).value.1
    ensures r.Ok? ==> forall k :: 0 <= k < |r.value.mz| ==> r.value.mz[k] <= mw as real
  {
    match DropWeakPeaks(xs, ys)
    case Err(e) => Err(e)
    case Ok((x, y)) =>
      var x' := DropHeavyPeaks(x, mw);
      if x' == [] then Err(NoPeakWithinWeight) else Ok(Spectrum(x', y))
  }

  /** The first two plots pair `x[n]` with `y[n]`. After the weight filter
      that pairing is broken: here the second plot would draw the mass 20
      with the intensity of the dropped peak at mass 150. */
  lemma PreprocessMisalignsIntensities()
    ensures var r := Preprocess([150.0, 20.0], [300.0, 400.0], 100);
      && r.Ok?
      && r.value.mz == [20.0]
      && r.value.intensity == [300.0, 400.0]
      && (r.value.mz[0], r.value.intensity[0]) !in Zip([150.0, 20.0], [300.0, 400.0])
  {
    MisalignedWeakPeaks();
    MisalignedHeavyPeaks();
    assert Preprocess([150.0, 20.0], [300.0, 400.0], 100) == Ok(Spectrum([20.0], [300.0, 400.0]));
    var z := Zip([150.0, 20.0], [300.0, 400.0]);
    assert z == [(150.0, 300.0), (20.0, 400.0)];
  }

  lemma MisalignedWeakPeaks()
    ensures DropWeakPeaks([150.0, 20.0], [300.0, 400.0]) == Ok(([150.0, 20.0], [300.0, 400.0]))
  {
    var z := Zip([150.0, 20.0], [300.0, 400.0]);
    assert z == [(150.0, 300.0), (20.0, 400.0)];
    FilterAll(Strong, z);
    assert Firsts(z) == [150.0, 20.0];
    assert Seconds(z) == [300.0, 400.0];
  }

  lemma MisalignedHeavyPeaks()
    ensures DropHeavyPeaks([150.0, 20.0], 100) == [20.0]
  {
    var w := WithinWeight(100);
    assert [20.0][1..] == [];
    assert [150.0, 20.0][1..] == [20.0];
    assert Filter(w, [20.0]) == [20.0] + Filter(w, []);
    assert Filter(w, [150.0, 20.0]) == Filter(w, [20.0]);
  }

  /** The preprocessing the second plot expects: both conditions on whole
      peaks, so that the two lists stay parallel. */
  function PreprocessPaired(xs: seq<real>, ys: seq<real>, mw: int): (r: Result<Spectrum>)
  {
    match DropWeakPeaks(xs, ys)
    case Err(e) => Err(e)
    case Ok((x, y)) =>
      var kept := Filter(PeakWithinWeight(mw), Zip(x, y));
      if kept == [] then Err(NoPeakWithinWeight) else Ok(Spectrum(Firsts(kept), Seconds(kept)))
  }

  /** The paired preprocessing keeps the lists parallel, each position an
      input peak that is strong and within the weight; and it yields the same
      mass list, so the fragment search is unaffected. */
  lemma PreprocessPairedKeepsPeaks(xs: seq<real>, ys: seq<real>, mw: int)
    ensures PreprocessPaired(xs, ys, mw).Ok? <==> Preprocess(xs, ys, mw).Ok?
    ensures PreprocessPaired(xs, ys, mw).Ok? ==>
      var s := PreprocessPaired(xs, ys, mw).value;
      && |s.mz| == |s.intensity|
      && s.mz == Preprocess(xs, ys, mw).value.mz
      && forall k :: 0 <= k < |s.mz| ==>
           (s.mz[k], s.intensity[k]) in Zip(xs, ys) && s.intensity[k] >= MinIntensity && s.mz[k] <= mw as real
  {
    if DropWeakPeaks(xs, ys).Ok? {
      var strong := Filter(Strong, Zip(xs, ys));
      var x, y := Firsts(strong), Seconds(strong);
      assert DropWeakPeaks(xs, ys).value == (x, y);
      ZipUnzip(strong);
      var kept := Filter(PeakWithinWeight(mw), strong);
      assert PreprocessPaired(xs, ys, mw) ==
        if kept == [] then Err(NoPeakWithinWeight) else Ok(Spectrum(Firsts(kept), Seconds(kept)));
      FirstsOfFilter(PeakWithinWeight(mw), WithinWeight(mw), strong);
      assert Firsts(kept) == DropHeavyPeaks(x, mw);
      assert kept == [] <==> DropHeavyPeaks(x, mw) == [];
      KeptPeaksAreInputPeaks(xs, ys, mw, strong, kept);
    }
  }

  lemma KeptPeaksAreInputPeaks(xs: seq<real>, ys: seq<real>, mw: int, strong: seq<Peak>, kept: seq<Peak>)
    requires strong == Filter(Strong, Zip(xs, ys))
    requires kept == Filter(PeakWithinWeight(mw), strong)
    ensures forall k :: 0 <= k < |kept| ==>
      (Firsts(kept)[k], Seconds(kept)[k]) in Zip(xs, ys) && Seconds(kept)[k] >= MinIntensity && Firsts(kept)[k] <= mw as real
  {
    forall k | 0 <= k < |kept|
      ensures kept[k] in Zip(xs, ys) && Strong(kept[k]) && kept[k].0 <= mw as real
    {
      assert PeakWithinWeight(mw)(kept[k]);
      assert kept[k] in strong;
    }
  }

  /** Filtering pairs on their first component and taking first components
      commute. */
  lemma {:induction false} FirstsOfFilter(p: Peak -> bool, q: real -> bool, ps: seq<Peak>)
    requires forall v: Peak :: p(v) == q(v.0)
    ensures Firsts(Filter(p, ps)) == Filter(q, Firsts(ps))
    decreases |ps|
  {
    if ps != [] {
      FirstsOfFilter(p, q, ps[1..]);
      assert Firsts(ps)[1..] == Firsts(ps[1..]);
    }
  }

  /** A worked example: the weak peak at 10 and the heavy peak
      at 150 go, the peak at 20 stays; `y` still holds both strong intensities. */
  lemma PreprocessExample()
    ensures Preprocess([10.0, 20.0, 150.0], [50.0, 300.0, 400.0], 100)
         == Ok(Spectrum([20.0], [300.0, 400.0]))
  {
    ExampleWeakPeaks();
    ExampleHeavyPeaks();
  }

  lemma ExampleWeakPeaks()
    ensures DropWeakPeaks([10.0, 20.0, 150.0], [50.0, 300.0, 400.0]) == Ok(([20.0, 150.0], [300.0, 400.0]))
  {
    ExampleStrongPairs();
    var kept: seq<Peak> := [(20.0, 300.0), (150.0, 400.0)];
    assert kept[1..] == [(150.0, 400.0)];
    assert Firsts(kept) == [20.0, 150.0];
    assert Seconds(kept) == [300.0, 400.0];
  }

  lemma ExampleStrongPairs()
    ensures Filter(Strong, Zip([10.0, 20.0, 150.0], [50.0, 300.0, 400.0])) == [(20.0, 300.0), (150.0, 400.0)]
  {
    var z := Zip([10.0, 20.0, 150.0], [50.0, 300.0, 400.0]);
    assert z == [(10.0, 50.0), (20.0, 300.0), (150.0, 400.0)];
    assert z[1..] == [(20.0, 300.0), (150.0, 400.0)];
    FilterAll(Strong, z[1..]);
  }

  lemma ExampleHeavyPeaks()
    ensures DropHeavyPeaks([20.0, 150.0], 100) == [20.0]
  {
    var w := WithinWeight(100);
    assert [150.0][1..] == [];
    assert [20.0, 150.0][1..] == [150.0];
    assert Filter(w, [150.0]) == [];
    assert Filter(w, [20.0, 150.0]) == [20.0] + Filter(w, [150.0]);
  }
}
