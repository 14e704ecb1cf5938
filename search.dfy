/** The time-bounded fragment search of MassSpecProj.py. The script keeps
    two parallel lists, `actual_fragments` and `actual_fragments_masses`,
    and runs until the wall clock passes a deadline chosen from the
    molecular weight. Each loop iteration reads the clock, draws a random
    fragment and, scanning the target masses in order, appends that fragment
    the first time its mass matches a target, unless an equal fragment is
    already in the list. The clock and the random draws are supplied as one
    `Tick` per iteration. */
module FragmentSearch {
  import opened Formula

  /** The search time in seconds: 10 for a molecular weight below 100, 20
      from 100 up to below 200, 30 from 200. The final `0` is the script's
      initial `t_end`, which no weight leaves in place. */
  function SearchSeconds(mw: int): (t: int)
    ensures t == 10 <==> mw < 100
    ensures t == 20 <==> 100 <= mw < 200
    ensures t == 30 <==> 200 <= mw
    ensures t in {10, 20, 30}
  {
    if mw < 100 then 10
    else if 100 <= mw < 200 then 20
    else if mw >= 200 then 30
    else 0
  }

  /** A heavier molecule is never given less time. */
  lemma SearchSecondsMonotone(mw1: int, mw2: int)
    requires mw1 <= mw2
    ensures SearchSeconds(mw1) <= SearchSeconds(mw2)
  {
  }

  /** What one pass of the loop sees: the clock reading taken by the loop
      test, and the random draws `moleculefound` makes if the pass runs. */
  datatype Tick = Tick(now: real, draw: seq<nat>)

  /** Every supplied draw is one the random generator could make. */
  predicate ValidTicks(parent: Parent, ticks: seq<Tick>) {
    forall t :: 0 <= t < |ticks| ==> ValidDraw(parent, ticks[t].draw)
  }

  /** How many passes run before the loop test first reads a time at or
      after the deadline (all of them if it never does). */
  function Elapsed(ticks: seq<Tick>, deadline: real): (r: nat)
    ensures r <= |ticks|
    ensures forall k :: 0 <= k < r ==> ticks[k].now < deadline
    ensures r < |ticks| ==> ticks[r].now >= deadline
    decreases |ticks|
  {
    if ticks == [] || ticks[0].now >= deadline then 0
    else 1 + Elapsed(ticks[1..], deadline)
  }

  /** A later deadline never runs fewer passes. */
  lemma ElapsedMonotone(ticks: seq<Tick>, d1: real, d2: real)
    requires d1 <= d2
    ensures Elapsed(ticks, d1) <= Elapsed(ticks, d2)
  {
  }

  /** The two parallel result lists. */
  datatype Found = Found(fragments: seq<Composition>, masses: seq<int>)

  /** The result lists' invariant: aligned, free of equal fragments, and
      recording for each fragment its own mass, which is a target mass. */
  predicate Consistent(s: Found, targets: seq<real>, mass: Composition -> int) {
    && |s.fragments| == |s.masses|
    && (forall i, j :: 0 <= i < j < |s.fragments| ==> s.fragments[i] != s.fragments[j])
    && (forall k :: 0 <= k < |s.masses| ==> s.masses[k] == mass(s.fragments[k]) && (s.masses[k] as real) in targets)
  }

  /** The matching rule a pass implements: a fragment is recorded, once,
      when its mass is one of the targets and no equal fragment is recorded. */
  function Step(s: Found, c: Composition, m: int, targets: seq<real>): (r: Found)
    ensures s.fragments <= r.fragments && s.masses <= r.masses
    ensures |r.fragments| - |s.fragments| == |r.masses| - |s.masses| <= 1
  {
    if c !in s.fragments && (m as real) in targets then Found(s.fragments + [c], s.masses + [m])
    else s
  }

  /** A pass keeps the invariant. */
  lemma StepKeepsConsistent(s: Found, c: Composition, targets: seq<real>, mass: Composition -> int)
    requires Consistent(s, targets, mass)
    ensures Consistent(Step(s, c, mass(c), targets), targets, mass)
  {
  }

  /** The body of the search loop for one candidate: for each target mass,
      scan the recorded fragments for an equal one; on a match with no equal
      fragment, append the candidate and its mass and stop scanning. */
  method SearchStep(fragments: seq<Composition>, masses: seq<int>, candidate: Composition,
                    candidateMass: int, targets: seq<real>)
    returns (fragments': seq<Composition>, masses': seq<int>)
    ensures Found(fragments', masses') == Step(Found(fragments, masses), candidate, candidateMass, targets)
    ensures || (fragments' == fragments + [candidate] && masses' == masses + [candidateMass])
            || (fragments' == fragments && masses' == masses)
    ensures |fragments'| != |fragments| <==>
      candidate !in fragments && exists i :: 0 <= i < |targets| && targets[i] == candidateMass as real
  {
    fragments', masses' := fragments, masses;
    var i := 0;
    while i < |targets|
      invariant 0 <= i <= |targets|
      invariant fragments' == fragments && masses' == masses
      invariant candidate !in fragments ==> forall k :: 0 <= k < i ==> targets[k] != candidateMass as real
    {
      var alreadyFound := false;
      var j := 0;
      while j < |fragments'|
        invariant 0 <= j <= |fragments'|
        invariant alreadyFound <==> candidate in fragments'[..j]
      {
        if candidate == fragments'[j] {
          alreadyFound := true;
        }
        assert fragments'[..j + 1] == fragments'[..j] + [fragments'[j]];
        j := j + 1;
      }
      assert fragments'[..j] == fragments';
      if candidateMass as real == targets[i] && !alreadyFound {
        fragments' := fragments' + [candidate];
        masses' := masses' + [candidateMass];
        break;
      }
      i := i + 1;
    }
  }

  /** The result lists after the given passes, from empty lists. */
  function Run(parent: Parent, targets: seq<real>, mass: Composition -> int, ticks: seq<Tick>): (r: Found)
    requires ValidTicks(parent, ticks)
    ensures |r.fragments| == |r.masses| <= |ticks|
    decreases |ticks|
  {
    if ticks == [] then Found([], [])
    else
      var n := |ticks| - 1;
      var c := Fragment(parent, ticks[n].draw);
      Step(Run(parent, targets, mass, ticks[..n]), c, mass(c), targets)
  }

  /** Every run keeps the invariant. */
  lemma {:induction false} RunConsistent(parent: Parent, targets: seq<real>, mass: Composition -> int, ticks: seq<Tick>)
    requires ValidTicks(parent, ticks)
    ensures Consistent(Run(parent, targets, mass, ticks), targets, mass)
    decreases |ticks|
  {
    if ticks != [] {
      var n := |ticks| - 1;
      RunConsistent(parent, targets, mass, ticks[..n]);
      StepKeepsConsistent(Run(parent, targets, mass, ticks[..n]), Fragment(parent, ticks[n].draw), targets, mass);
    }
  }

  /** Some pass drew `c`, and its mass is a target mass. */
  ghost predicate DrawnMatch(parent: Parent, targets: seq<real>, mass: Composition -> int,
                             ticks: seq<Tick>, c: Composition)
    requires ValidTicks(parent, ticks)
  {
    exists t :: 0 <= t < |ticks| && c == Fragment(parent, ticks[t].draw) && (mass(c) as real) in targets
  }

  lemma DrawnMatchLast(parent: Parent, targets: seq<real>, mass: Composition -> int,
                       ticks: seq<Tick>, c: Composition)
    requires ValidTicks(parent, ticks) && ticks != []
    ensures var n := |ticks| - 1;
      DrawnMatch(parent, targets, mass, ticks, c) <==>
        DrawnMatch(parent, targets, mass, ticks[..n], c) ||
        (c == Fragment(parent, ticks[n].draw) && (mass(c) as real) in targets)
  {
    var n := |ticks| - 1;
    assert forall t :: 0 <= t < n ==> ticks[..n][t] == ticks[t];
    if DrawnMatch(parent, targets, mass, ticks, c) {
      var t :| 0 <= t < |ticks| && c == Fragment(parent, ticks[t].draw) && (mass(c) as real) in targets;
      if t < n {
        assert ticks[..n][t] == ticks[t];
      }
    }
  }

  /** A fragment is recorded exactly when some pass drew it and its mass is
      a target mass. */
  lemma {:induction false} RunRecordsMatchedDraws(parent: Parent, targets: seq<real>, mass: Composition -> int,
                                                  ticks: seq<Tick>, c: Composition)
    requires ValidTicks(parent, ticks)
    ensures c in Run(parent, targets, mass, ticks).fragments <==> DrawnMatch(parent, targets, mass, ticks, c)
    decreases |ticks|
  {
    if ticks != [] {
      var n := |ticks| - 1;
      RunRecordsMatchedDraws(parent, targets, mass, ticks[..n], c);
      DrawnMatchLast(parent, targets, mass, ticks, c);
      var s := Run(parent, targets, mass, ticks[..n]);
      var cn := Fragment(parent, ticks[n].draw);
      assert Run(parent, targets, mass, ticks) == Step(s, cn, mass(cn), targets);
    }
  }

  /** Every recorded fragment is a sub-formula of the parent. */
  lemma RunWithinParent(parent: Parent, targets: seq<real>, mass: Composition -> int, ticks: seq<Tick>)
    requires DistinctElements(parent) && ValidTicks(parent, ticks)
    ensures forall k :: 0 <= k < |Run(parent, targets, mass, ticks).fragments| ==>
      WithinParent(Run(parent, targets, mass, ticks).fragments[k], ParentComposition(parent))
  {
    var s := Run(parent, targets, mass, ticks);
    forall k | 0 <= k < |s.fragments|
      ensures WithinParent(s.fragments[k], ParentComposition(parent))
    {
      RunRecordsMatchedDraws(parent, targets, mass, ticks, s.fragments[k]);
      var t :| 0 <= t < |ticks| && s.fragments[k] == Fragment(parent, ticks[t].draw);
      FragmentWithinParent(parent, ticks[t].draw);
    }
  }

  /** `late` is `early` with at most `d` entries appended to both lists. */
  predicate Extends(early: Found, late: Found, d: int) {
    && early.fragments <= late.fragments
    && early.masses <= late.masses
    && |late.fragments| - |early.fragments| <= d
  }

  /** The lists are append-only: the lists after fewer passes are prefixes,
      and each pass adds at most one entry. */
  lemma {:induction false} RunAppendOnly(parent: Parent, targets: seq<real>, mass: Composition -> int,
                                         ticks: seq<Tick>, k: nat)
    requires ValidTicks(parent, ticks) && k <= |ticks|
    ensures Extends(Run(parent, targets, mass, ticks[..k]), Run(parent, targets, mass, ticks), |ticks| - k)
    decreases |ticks|
  {
    if k < |ticks| {
      var n := |ticks| - 1;
      var early, mid, late := Run(parent, targets, mass, ticks[..k]), Run(parent, targets, mass, ticks[..n]),
                              Run(parent, targets, mass, ticks);
      assert ticks[..n][..k] == ticks[..k];
      RunAppendOnly(parent, targets, mass, ticks[..n], k);
      assert Extends(early, mid, n - k);
      LastPassExtends(parent, targets, mass, ticks);
      ExtendsTransitive(early, mid, late, n - k);
    } else {
      assert ticks[..k] == ticks;
    }
  }

  /** The last pass only appends, and at most one entry. */
  lemma LastPassExtends(parent: Parent, targets: seq<real>, mass: Composition -> int, ticks: seq<Tick>)
    requires ValidTicks(parent, ticks) && ticks != []
    ensures Extends(Run(parent, targets, mass, ticks[..|ticks| - 1]), Run(parent, targets, mass, ticks), 1)
  {
    var n := |ticks| - 1;
    var c := Fragment(parent, ticks[n].draw);
    assert Run(parent, targets, mass, ticks) == Step(Run(parent, targets, mass, ticks[..n]), c, mass(c), targets);
  }

  /** Appending at most `d` entries, then at most one more. */
  lemma ExtendsTransitive(early: Found, mid: Found, late: Found, d: int)
    requires Extends(early, mid, d) && Extends(mid, late, 1)
    ensures Extends(early, late, d + 1)
  {
  }

  /** With no target masses, nothing is ever recorded. */
  lemma {:induction false} RunWithoutTargets(parent: Parent, mass: Composition -> int, ticks: seq<Tick>)
    requires ValidTicks(parent, ticks)
    ensures Run(parent, [], mass, ticks) == Found([], [])
    decreases |ticks|
  {
    if ticks != [] {
      RunWithoutTargets(parent, mass, ticks[..|ticks| - 1]);
    }
  }

  /** With the same clock, a later deadline only adds results. */
  lemma LaterDeadlineExtends(parent: Parent, targets: seq<real>, mass: Composition -> int,
                             ticks: seq<Tick>, d1: real, d2: real)
    requires ValidTicks(parent, ticks) && d1 <= d2
    ensures var early := Run(parent, targets, mass, ticks[..Elapsed(ticks, d1)]);
            var late := Run(parent, targets, mass, ticks[..Elapsed(ticks, d2)]);
            early.fragments <= late.fragments && early.masses <= late.masses
  {
    var k1, k2 := Elapsed(ticks, d1), Elapsed(ticks, d2);
    ElapsedMonotone(ticks, d1, d2);
    assert ticks[..k2][..k1] == ticks[..k1];
    RunAppendOnly(parent, targets, mass, ticks[..k2], k1);
  }

  /** Only equal fragments are kept out: two different fragments of the same
      mass are both recorded against the same peak. */
  lemma DifferentFragmentsMayShareAMass(c1: Composition, c2: Composition, m: int)
    requires c1 != c2
    ensures Step(Step(Found([], []), c1, m, [m as real]), c2, m, [m as real]) == Found([c1, c2], [m, m])
  {
  }

  /** The search loop: while the clock reads before the deadline, draw a
      fragment and run the dedup-and-insert step on it. */
  method Search(parent: Parent, targets: seq<real>, mass: Composition -> int, deadline: real, ticks: seq<Tick>)
    returns (fragments: seq<Composition>, masses: seq<int>)
    requires DistinctElements(parent) && ValidTicks(parent, ticks)
    ensures Found(fragments, masses) == Run(parent, targets, mass, ticks[..Elapsed(ticks, deadline)])
    ensures Consistent(Found(fragments, masses), targets, mass)
    ensures forall k :: 0 <= k < |fragments| ==> WithinParent(fragments[k], ParentComposition(parent))
  {
    fragments, masses := [], [];
    var i := 0;
    while i < |ticks| && ticks[i].now < deadline
      invariant 0 <= i <= |ticks|
      invariant i <= Elapsed(ticks, deadline)
      invariant ValidTicks(parent, ticks[..i])
      invariant Found(fragments, masses) == Run(parent, targets, mass, ticks[..i])
    {
      var c, m := MoleculeFound(parent, ticks[i].draw, mass);
      fragments, masses := SearchStep(fragments, masses, c, m, targets);
      RunLastPass(parent, targets, mass, ticks, i);
      i := i + 1;
    }
    assert i == Elapsed(ticks, deadline);
    RunConsistent(parent, targets, mass, ticks[..i]);
    RunWithinParent(parent, targets, mass, ticks[..i]);
  }

  /** Running one more pass is one more `Step`. */
  lemma RunLastPass(parent: Parent, targets: seq<real>, mass: Composition -> int, ticks: seq<Tick>, i: nat)
    requires ValidTicks(parent, ticks) && i < |ticks|
    ensures ValidTicks(parent, ticks[..i]) && ValidTicks(parent, ticks[..i + 1])
    ensures var c := Fragment(parent, ticks[i].draw);
      Run(parent, targets, mass, ticks[..i + 1]) == Step(Run(parent, targets, mass, ticks[..i]), c, mass(c), targets)
  {
    assert ticks[..i + 1][..i] == ticks[..i];
  }
}
