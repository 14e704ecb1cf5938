/** The script end to end, without its I/O: filter the spectrum, take the
    molecular weight, choose the search time, search, and build the sorted
    table. `start` is the clock reading when the deadline is set. */
module MassSpec {
  import opened Spectrum
  import opened Formula
  import opened FragmentSearch
  import opened ResultTable

  /** `MW`: the mass of the parent formula itself, which is the mass of the
      fragment that draws every atom. */
  function MolecularWeight(parent: Parent, mass: Composition -> int): (mw: int)
    ensures DistinctElements(parent) && (forall k :: 0 <= k < |parent| ==> parent[k].1 > 0) ==>
      mw == mass(Fragment(parent, FullDraw(parent)))
  {
    if DistinctElements(parent) && (forall k :: 0 <= k < |parent| ==> parent[k].1 > 0) then
      FullDrawIsParent(parent, FullDraw(parent));
      mass(ParentComposition(parent))
    else
      mass(ParentComposition(parent))
  }

  /** The deadline the script sets: the start time plus the tier's seconds. */
  function Deadline(start: real, mw: int): (d: real)
    ensures mw < 100 ==> d == start + 10.0
    ensures 100 <= mw < 200 ==> d == start + 20.0
    ensures 200 <= mw ==> d == start + 30.0
  {
    start + SearchSeconds(mw) as real
  }

  method Analyse(xs: seq<real>, ys: seq<real>, parent: Parent, mass: Composition -> int,
                 start: real, ticks: seq<Tick>)
    returns (r: Result<seq<Row>>)
    requires DistinctElements(parent) && ValidTicks(parent, ticks)
    ensures var pre := Preprocess(xs, ys, MolecularWeight(parent, mass));
      pre.Err? ==> r == Err(pre.error)
    ensures var mw := MolecularWeight(parent, mass);
      var pre := Preprocess(xs, ys, mw);
      pre.Ok? ==> r == Ok(Table(Run(parent, pre.value.mz, mass, ticks[..Elapsed(ticks, Deadline(start, mw))])))
    ensures r.Ok? ==> SortedByMass(r.value) && DistinctFragments(r.value)
    ensures r.Ok? ==> forall k :: 0 <= k < |r.value| ==>
      && r.value[k].1 == mass(r.value[k].0)
      && r.value[k].1 <= MolecularWeight(parent, mass)
      && (r.value[k].1 as real) in Preprocess(xs, ys, MolecularWeight(parent, mass)).value.mz
      && WithinParent(r.value[k].0, ParentComposition(parent))
  {
    var mw := MolecularWeight(parent, mass);
    var pre := Preprocess(xs, ys, mw);
    if pre.Err? {
      return Err(pre.error);
    }
    var targets := pre.value.mz;
    var fragments, masses := Search(parent, targets, mass, Deadline(start, mw), ticks);
    var rows := Table(Found(fragments, masses));
    TableRows(Found(fragments, masses), targets, mass);
    r := Ok(rows);
  }
}
