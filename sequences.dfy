/** Generic sequence operations the script gets from Python's built-ins:
    `filter` and comprehensions with a condition, `zip`, and unzipping with
    `zip(*...)`. */
module Sequences {

  /** The elements of `s` that satisfy `p`, in their original order. */
  function Filter<T>(p: T -> bool, s: seq<T>): (r: seq<T>)
    ensures |r| <= |s|
    ensures forall k :: 0 <= k < |r| ==> p(r[k])
    ensures forall k :: 0 <= k < |s| && p(s[k]) ==> s[k] in r
    ensures forall v :: v in r ==> v in s
    decreases |s|
  {
    if s == [] then []
    else
      var rest := Filter(p, s[1..]);
      assert forall k :: 1 <= k < |s| ==> s[k] == s[1..][k - 1];
      if p(s[0]) then [s[0]] + rest else rest
  }

  /** `r` is obtained from `s` by deleting some of its elements. */
  ghost predicate Subsequence<T>(r: seq<T>, s: seq<T>)
    decreases |s|
  {
    r == [] ||
    (s != [] &&
     ((r[0] == s[0] && Subsequence(r[1..], s[1..])) || Subsequence(r, s[1..])))
  }

  /** Filtering distributes over concatenation: together with the one-element
      case this pins `Filter` down completely, order included. */
  lemma {:induction false} FilterConcat<T>(p: T -> bool, a: seq<T>, b: seq<T>)
    ensures Filter(p, a + b) == Filter(p, a) + Filter(p, b)
    decreases |a|
  {
    if a == [] {
      assert a + b == b;
    } else {
      assert (a + b)[1..] == a[1..] + b;
      FilterConcat(p, a[1..], b);
    }
  }

  /** Moving `x` forward past elements `a` keeps the filtered order when
      `x` fails the filter or every element of `a` does. */
  lemma FilterMoveAhead<T>(p: T -> bool, a: seq<T>, x: T, b: seq<T>)
    requires !p(x) || forall k :: 0 <= k < |a| ==> !p(a[k])
    ensures Filter(p, a + [x] + b) == Filter(p, [x] + (a + b))
  {
    assert a + [x] + b == a + ([x] + b);
    assert ([x] + b)[1..] == b;
    assert ([x] + (a + b))[1..] == a + b;
    FilterConcat(p, a, [x] + b);
    FilterConcat(p, a, b);
    if p(x) {
      FilterNone(p, a);
    }
  }

  /** Filtering keeps every element that passes as often as it occurs, and
      no other: with `Subsequence` this pins the output down exactly. */
  lemma {:induction false} FilterMultiplicity<T>(p: T -> bool, s: seq<T>)
    ensures forall v :: multiset(Filter(p, s))[v] == if p(v) then multiset(s)[v] else 0
    decreases |s|
  {
    if s != [] {
      FilterMultiplicity(p, s[1..]);
      assert s == [s[0]] + s[1..];
    }
  }

  /** Filtering only deletes elements: it keeps the rest in their order. */
  lemma {:induction false} FilterIsSubsequence<T>(p: T -> bool, s: seq<T>)
    ensures Subsequence(Filter(p, s), s)
    decreases |s|
  {
    if s != [] {
      FilterIsSubsequence(p, s[1..]);
      var rest := Filter(p, s[1..]);
      if p(s[0]) {
        assert Filter(p, s) == [s[0]] + rest;
        assert ([s[0]] + rest)[1..] == rest;
      } else {
        SubsequenceDropHead(rest, s);
      }
    }
  }

  /** A subsequence of the tail is a subsequence of the whole. */
  lemma SubsequenceDropHead<T>(r: seq<T>, s: seq<T>)
    requires s != []
    requires Subsequence(r, s[1..])
    ensures Subsequence(r, s)
  {
  }

  /** A filter that every element passes changes nothing. */
  lemma {:induction false} FilterAll<T>(p: T -> bool, s: seq<T>)
    requires forall k :: 0 <= k < |s| ==> p(s[k])
    ensures Filter(p, s) == s
    decreases |s|
  {
    if s != [] {
      FilterAll(p, s[1..]);
    }
  }

  /** A filter that no element passes leaves nothing. */
  lemma {:induction false} FilterNone<T>(p: T -> bool, s: seq<T>)
    requires forall k :: 0 <= k < |s| ==> !p(s[k])
    ensures Filter(p, s) == []
    decreases |s|
  {
    if s != [] {
      FilterNone(p, s[1..]);
    }
  }

  /** Python's `zip`: pairs up equal positions and stops at the shorter input. */
  function Zip<A, B>(a: seq<A>, b: seq<B>): (r: seq<(A, B)>)
    ensures |r| == if |a| <= |b| then |a| else |b|
    ensures forall k :: 0 <= k < |r| ==> r[k] == (a[k], b[k])
    decreases |a|
  {
    if a == [] || b == [] then []
    else [(a[0], b[0])] + Zip(a[1..], b[1..])
  }

  /** The first components of a list of pairs. */
  function Firsts<A, B>(ps: seq<(A, B)>): (a: seq<A>)
    ensures |a| == |ps|
    ensures forall k :: 0 <= k < |ps| ==> a[k] == ps[k].0
    decreases |ps|
  {
    if ps == [] then [] else [ps[0].0] + Firsts(ps[1..])
  }

  /** The second components of a list of pairs. */
  function Seconds<A, B>(ps: seq<(A, B)>): (b: seq<B>)
    ensures |b| == |ps|
    ensures forall k :: 0 <= k < |ps| ==> b[k] == ps[k].1
    decreases |ps|
  {
    if ps == [] then [] else [ps[0].1] + Seconds(ps[1..])
  }

  /** Unzipping and zipping again gives back the list of pairs. */
  lemma ZipUnzip<A, B>(ps: seq<(A, B)>)
    ensures Zip(Firsts(ps), Seconds(ps)) == ps
  {
  }
}
