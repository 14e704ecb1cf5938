/** The formula composition model: the parent formula as chemparse returns it
    (element symbol -> atom count, in dictionary order), and `moleculefound`,
    which draws a random sub-formula of it. The random generator is replaced
    by a supplied draw per element; the formula library's parsing and
    normalisation by maps from element symbols to counts; its mass
    computation (with rounding) by an abstract integer-valued function. */
module Formula {

  type Element = string

  /** An element -> count mapping, as a normalised formula object holds it;
      two formulas are equal exactly when these maps are. */
  type Composition = map<Element, nat>

  /** The parsed parent formula, one entry per element in iteration order. */
  type Parent = seq<(Element, nat)>

  /** A dictionary holds each key once. */
  predicate DistinctElements(parent: Parent) {
    forall i, j :: 0 <= i < j < |parent| ==> parent[i].0 != parent[j].0
  }

  /** One draw per element, each in 0..count as `randint(0, count + 1)` gives. */
  predicate ValidDraw(parent: Parent, draw: seq<nat>) {
    |draw| == |parent| && forall k :: 0 <= k < |draw| ==> draw[k] <= parent[k].1
  }

  /** The text pieces "symbol + count" the generator appends, each kept as
      its (symbol, count) pair; an element whose draw is zero is skipped. */
  function Pieces(parent: Parent, draw: seq<nat>): (ps: seq<(Element, nat)>)
    requires |draw| == |parent|
    ensures |ps| <= |parent|
    ensures forall k :: 0 <= k < |ps| ==> ps[k].1 > 0
    decreases |parent|
  {
    if parent == [] then []
    else
      var n := |parent| - 1;
      Pieces(parent[..n], draw[..n]) + (if draw[n] == 0 then [] else [(parent[n].0, draw[n])])
  }

  /** Joining pieces and normalising the text: one entry per symbol, with
      the counts of a repeated symbol added up. */
  function Combine(ps: seq<(Element, nat)>): (c: Composition)
    decreases |ps|
  {
    if ps == [] then map[]
    else
      var n := |ps| - 1;
      var c := Combine(ps[..n]);
      var e := ps[n].0;
      c[e := (if e in c then c[e] else 0) + ps[n].1]
  }

  /** The fragment a given draw produces. */
  function Fragment(parent: Parent, draw: seq<nat>): (f: Composition)
    requires |draw| == |parent|
    ensures forall e :: e in f ==> f[e] > 0
  {
    var ps := Pieces(parent, draw);
    CombinePositive(ps);
    Combine(ps)
  }

  /** Pieces with non-zero counts normalise to non-zero counts. */
  lemma {:induction false} CombinePositive(ps: seq<(Element, nat)>)
    requires forall k :: 0 <= k < |ps| ==> ps[k].1 > 0
    ensures forall e :: e in Combine(ps) ==> Combine(ps)[e] > 0
    decreases |ps|
  {
    if ps != [] {
      CombinePositive(ps[..|ps| - 1]);
    }
  }

  /** Normalising introduces no symbol that is not in a piece. */
  lemma {:induction false} CombineKeys(ps: seq<(Element, nat)>)
    ensures forall e :: e in Combine(ps) ==> exists k :: 0 <= k < |ps| && ps[k].0 == e
    decreases |ps|
  {
    if ps != [] {
      var n := |ps| - 1;
      CombineKeys(ps[..n]);
      assert forall k :: 0 <= k < n ==> ps[..n][k] == ps[k];
    }
  }

  /** Appending a piece of a symbol not yet present adds it with that count. */
  lemma CombineAppendFresh(ps: seq<(Element, nat)>, e: Element, n: nat)
    requires e !in Combine(ps)
    ensures Combine(ps + [(e, n)]) == Combine(ps)[e := n]
  {
    assert (ps + [(e, n)])[..|ps|] == ps;
  }

  /** The parent formula's own composition. */
  function ParentComposition(parent: Parent): Composition {
    Combine(parent)
  }

  /** Every element of `c` belongs to `whole`, with a count from 1 up to
      the count in `whole`. */
  ghost predicate WithinParent(c: Composition, whole: Composition) {
    forall e :: e in c ==> e in whole && 1 <= c[e] <= whole[e]
  }

  /** With distinct symbols, normalising keeps each piece's count. */
  lemma {:induction false} CombineDistinct(ps: seq<(Element, nat)>)
    requires DistinctElements(ps)
    ensures forall k :: 0 <= k < |ps| ==> ps[k].0 in Combine(ps) && Combine(ps)[ps[k].0] == ps[k].1
    decreases |ps|
  {
    if ps != [] {
      var n := |ps| - 1;
      CombineDistinct(ps[..n]);
      CombineKeys(ps[..n]);
      assert forall k :: 0 <= k < n ==> ps[..n][k] == ps[k];
    }
  }

  /** The parent composition holds exactly the parent's elements and counts. */
  lemma ParentCounts(parent: Parent)
    requires DistinctElements(parent)
    ensures forall k :: 0 <= k < |parent| ==>
      parent[k].0 in ParentComposition(parent) && ParentComposition(parent)[parent[k].0] == parent[k].1
    ensures forall e :: e in ParentComposition(parent) ==> exists k :: 0 <= k < |parent| && parent[k].0 == e
  {
    CombineDistinct(parent);
    CombineKeys(parent);
  }

  /** An element is in the fragment exactly when its draw is not zero, and
      then with the drawn count; the fragment has no other elements. */
  lemma {:induction false} FragmentCounts(parent: Parent, draw: seq<nat>)
    requires DistinctElements(parent) && |draw| == |parent|
    ensures forall k :: 0 <= k < |parent| ==>
      && (parent[k].0 in Fragment(parent, draw) <==> draw[k] > 0)
      && (draw[k] > 0 ==> Fragment(parent, draw)[parent[k].0] == draw[k])
    ensures forall e :: e in Fragment(parent, draw) ==> exists k :: 0 <= k < |parent| && parent[k].0 == e
    decreases |parent|
  {
    if parent != [] {
      var n := |parent| - 1;
      var pre, dpre := parent[..n], draw[..n];
      assert DistinctElements(pre);
      FragmentCounts(pre, dpre);
      var ps := Pieces(pre, dpre);
      var f := Fragment(pre, dpre);
      assert forall k :: 0 <= k < n ==> pre[k].0 != parent[n].0;
      assert parent[n].0 !in f;
      assert forall k :: 0 <= k < n ==> pre[k] == parent[k] && dpre[k] == draw[k];
      if draw[n] != 0 {
        assert Pieces(parent, draw) == ps + [(parent[n].0, draw[n])];
        CombineAppendFresh(ps, parent[n].0, draw[n]);
      } else {
        assert ps + [] == ps;
        assert Pieces(parent, draw) == ps;
      }
    }
  }

  /** Every element of a fragment is a parent element, with a count from 1
      up to the parent's count. */
  lemma FragmentWithinParent(parent: Parent, draw: seq<nat>)
    requires DistinctElements(parent) && ValidDraw(parent, draw)
    ensures WithinParent(Fragment(parent, draw), ParentComposition(parent))
  {
    FragmentCounts(parent, draw);
    ParentCounts(parent);
  }

  /** Drawing zero for every element gives the empty formula. */
  lemma {:induction false} AllZeroDrawIsEmpty(parent: Parent, draw: seq<nat>)
    requires |draw| == |parent|
    requires forall k :: 0 <= k < |draw| ==> draw[k] == 0
    ensures Fragment(parent, draw) == map[]
  {
    AllZeroDrawNoPieces(parent, draw);
  }

  lemma {:induction false} AllZeroDrawNoPieces(parent: Parent, draw: seq<nat>)
    requires |draw| == |parent|
    requires forall k :: 0 <= k < |draw| ==> draw[k] == 0
    ensures Pieces(parent, draw) == []
    decreases |parent|
  {
    if parent != [] {
      var n := |parent| - 1;
      AllZeroDrawNoPieces(parent[..n], draw[..n]);
    }
  }

  /** The draw that takes every atom of the parent. */
  function FullDraw(parent: Parent): (draw: seq<nat>)
    ensures |draw| == |parent|
    ensures forall k :: 0 <= k < |parent| ==> draw[k] == parent[k].1
  {
    seq(|parent|, k requires 0 <= k < |parent| => parent[k].1)
  }

  /** Drawing every element's full count gives back the parent formula. */
  lemma FullDrawIsParent(parent: Parent, draw: seq<nat>)
    requires DistinctElements(parent) && |draw| == |parent|
    requires forall k :: 0 <= k < |parent| ==> draw[k] == parent[k].1 > 0
    ensures Fragment(parent, draw) == ParentComposition(parent)
  {
    FragmentCounts(parent, draw);
    ParentCounts(parent);
    var f, p := Fragment(parent, draw), ParentComposition(parent);
    assert f.Keys == p.Keys by {
      forall e | e in p ensures e in f {
        var k :| 0 <= k < |parent| && parent[k].0 == e;
      }
      forall e | e in f ensures e in p {
        var k :| 0 <= k < |parent| && parent[k].0 == e;
      }
    }
    forall e | e in f ensures f[e] == p[e] {
      var k :| 0 <= k < |parent| && parent[k].0 == e;
    }
  }

  /** `moleculefound`: build the list of pieces element by element, then
      normalise it and compute its mass. */
  method MoleculeFound(parent: Parent, draw: seq<nat>, mass: Composition -> int)
    returns (fragment: Composition, fragmentMass: int)
    requires DistinctElements(parent) && ValidDraw(parent, draw)
    ensures fragment == Fragment(parent, draw)
    ensures fragmentMass == mass(fragment)
    ensures forall k :: 0 <= k < |parent| ==>
      && (parent[k].0 in fragment <==> draw[k] > 0)
      && (draw[k] > 0 ==> fragment[parent[k].0] == draw[k])
    ensures WithinParent(fragment, ParentComposition(parent))
  {
    var pieces: seq<(Element, nat)> := [];
    var i := 0;
    while i < |parent|
      invariant 0 <= i <= |parent|
      invariant pieces == Pieces(parent[..i], draw[..i])
    {
      var d := draw[i];
      if d != 0 {
        pieces := pieces + [(parent[i].0, d)];
      }
      assert parent[..i + 1][..i] == parent[..i];
      assert draw[..i + 1][..i] == draw[..i];
      i := i + 1;
    }
    assert parent[..i] == parent && draw[..i] == draw;
    fragment := Combine(pieces);
    fragmentMass := mass(fragment);
    FragmentCounts(parent, draw);
    FragmentWithinParent(parent, draw);
  }
}
