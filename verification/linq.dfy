/**
  The LINQ operators the registrar relies on, as functions on sequences, each
  proved against a description that does not follow its definition.
 */
module Linq {
  import opened Wrappers

  /** No element occurs twice. */
  predicate Distinct<T(==)>(xs: seq<T>) {
    forall i, j :: 0 <= i < j < |xs| ==> xs[i] != xs[j]
  }

  /** The position of the first occurrence of `x` in `xs`. */
  function IndexOf<T(==)>(xs: seq<T>, x: T): (k: nat)
    requires x in xs
    ensures k < |xs| && xs[k] == x && x !in xs[..k]
  {
    if xs[0] == x then 0 else 1 + IndexOf(xs[1..], x)
  }

  /** A sequence without repetitions is no longer than any sequence holding all its elements. */
  lemma {:induction false} DistinctSubsetLength<T>(xs: seq<T>, ys: seq<T>)
    requires Distinct(xs) && forall x :: x in xs ==> x in ys
    ensures |xs| <= |ys|
  {
    var sx := set x | x in xs;
    var sy := set y | y in ys;
    DistinctCardinality(xs);
    SetOfSeqCardinality(ys);
    assert sx <= sy;
    assert |sx| <= |sy| by { SubsetCardinality(sx, sy); }
  }

  lemma {:induction false} DistinctCardinality<T>(xs: seq<T>)
    requires Distinct(xs)
    ensures |set x | x in xs| == |xs|
  {
    if xs != [] {
      DistinctCardinality(xs[1..]);
      assert (set x | x in xs) == {xs[0]} + (set x | x in xs[1..]);
      assert forall j :: 0 <= j < |xs[1..]| ==> xs[1..][j] == xs[j + 1] != xs[0];
      assert xs[0] !in xs[1..];
    }
  }

  lemma {:induction false} SetOfSeqCardinality<T>(ys: seq<T>)
    ensures |set y | y in ys| <= |ys|
  {
    if ys != [] {
      SetOfSeqCardinality(ys[1..]);
      assert (set y | y in ys) == {ys[0]} + (set y | y in ys[1..]);
    }
  }

  lemma {:induction false} SubsetCardinality<T>(a: set<T>, b: set<T>)
    requires a <= b
    ensures |a| <= |b|
  {
    if a != {} {
      var x :| x in a;
      SubsetCardinality(a - {x}, b - {x});
    }
  }

  /** `Where`: the elements that satisfy `p`, in their order. */
  function Filter<T>(xs: seq<T>, p: T -> bool): (r: seq<T>)
    ensures |r| <= |xs|
    ensures forall i :: 0 <= i < |r| ==> p(r[i])
  {
    if xs == [] then [] else (if p(xs[0]) then [xs[0]] else []) + Filter(xs[1..], p)
  }

  lemma {:induction false} FilterMembership<T>(xs: seq<T>, p: T -> bool)
    ensures forall x :: x in Filter(xs, p) <==> x in xs && p(x)
  {
    if xs != [] {
      FilterMembership(xs[1..], p);
      assert xs == [xs[0]] + xs[1..];
    }
  }

  /** `SelectMany(a => a.GetExportedTypes())`: the concatenation of the parts. */
  function Flatten<T>(parts: seq<seq<T>>): (r: seq<T>)
    ensures forall k :: 0 <= k < |parts| ==> |parts[k]| <= |r|
    ensures parts == [] ==> r == []
  {
    if parts == [] then [] else parts[0] + Flatten(parts[1..])
  }

  lemma {:induction false} FlattenMembership<T>(parts: seq<seq<T>>)
    ensures forall x :: x in Flatten(parts) <==> exists k :: 0 <= k < |parts| && x in parts[k]
  {
    if parts != [] {
      FlattenMembership(parts[1..]);
      forall x | exists k :: 0 <= k < |parts| && x in parts[k]
        ensures x in Flatten(parts)
      {
        var k :| 0 <= k < |parts| && x in parts[k];
        if k > 0 {
          assert x in parts[1..][k - 1];
        }
      }
    }
  }

  /**
    `FirstOrDefault(p)`: the first element satisfying `p`, or nothing when none
    does.
   */
  function FirstWhere<T>(xs: seq<T>, p: T -> bool): (r: Option<T>)
    ensures r.None? <==> forall i :: 0 <= i < |xs| ==> !p(xs[i])
    ensures r.Some? ==> exists k :: 0 <= k < |xs| && xs[k] == r.value && p(xs[k]) &&
                                    forall i :: 0 <= i < k ==> !p(xs[i])
  {
    if xs == [] then None
    else if p(xs[0]) then Some(xs[0])
    else
      var r := FirstWhere(xs[1..], p);
      assert forall i :: 1 <= i < |xs| ==> xs[i] == xs[1..][i - 1];
      r
  }

  /**
    `Except(first, second)` as LINQ computes it: walk `first`, yield an element
    when it is neither in `second` nor already yielded.
   */
  function Except<T(==)>(first: seq<T>, second: seq<T>): (r: seq<T>)
    ensures forall i :: 0 <= i < |r| ==> r[i] in first && r[i] !in second
    ensures forall i :: 0 <= i < |first| && first[i] !in second ==> first[i] in r
    ensures |r| <= |first|
  {
    ExceptFromSpec(first, set y | y in second);
    ExceptFrom(first, set y | y in second)
  }

  /** The walk of `Except`, where `seen` holds `second` and what was yielded so far. */
  function ExceptFrom<T(==)>(xs: seq<T>, seen: set<T>): (r: seq<T>)
    ensures forall x :: x in r ==> x in xs && x !in seen
    ensures |r| <= |xs|
  {
    if xs == [] then []
    else if xs[0] in seen then ExceptFrom(xs[1..], seen)
    else [xs[0]] + ExceptFrom(xs[1..], seen + {xs[0]})
  }

  lemma {:induction false} ExceptFromSpec<T>(xs: seq<T>, seen: set<T>)
    ensures forall x :: x in ExceptFrom(xs, seen) <==> x in xs && x !in seen
    ensures Distinct(ExceptFrom(xs, seen))
    ensures forall i, j :: 0 <= i < j < |ExceptFrom(xs, seen)| ==>
              IndexOf(xs, ExceptFrom(xs, seen)[i]) < IndexOf(xs, ExceptFrom(xs, seen)[j])
  {
    if xs != [] {
      var r := ExceptFrom(xs, seen);
      if xs[0] in seen {
        ExceptFromSpec(xs[1..], seen);
        assert xs == [xs[0]] + xs[1..];
        forall i | 0 <= i < |r| ensures IndexOf(xs, r[i]) == 1 + IndexOf(xs[1..], r[i]) {
          assert r[i] in r;
        }
      } else {
        var rest := ExceptFrom(xs[1..], seen + {xs[0]});
        ExceptFromSpec(xs[1..], seen + {xs[0]});
        assert xs == [xs[0]] + xs[1..];
        assert r == [xs[0]] + rest;
        forall i | 0 < i < |r| ensures IndexOf(xs, r[i]) == 1 + IndexOf(xs[1..], r[i]) {
          assert r[i] == rest[i - 1] && rest[i - 1] in rest;
        }
      }
    }
  }

  lemma {:induction false} ExceptFromAllSeen<T>(xs: seq<T>, seen: set<T>)
    requires forall x :: x in xs ==> x in seen
    ensures ExceptFrom(xs, seen) == []
  {
    if xs != [] {
      assert xs[0] in xs;
      assert forall x :: x in xs[1..] ==> x in xs;
      ExceptFromAllSeen(xs[1..], seen);
    }
  }

  /** Nothing is left when every element of `first` is also in `second`. */
  lemma ExceptOfContained<T>(first: seq<T>, second: seq<T>)
    requires forall x :: x in first ==> x in second
    ensures Except(first, second) == []
  {
    ExceptFromAllSeen(first, set y | y in second);
  }

  /**
    `Except` yields exactly the elements of `first` that are not in `second`,
    each once, in the order of their first occurrence in `first`.
   */
  lemma ExceptSpec<T>(first: seq<T>, second: seq<T>)
    ensures forall x :: x in Except(first, second) <==> x in first && x !in second
    ensures Distinct(Except(first, second))
    ensures forall i, j :: 0 <= i < j < |Except(first, second)| ==>
              IndexOf(first, Except(first, second)[i]) < IndexOf(first, Except(first, second)[j])
  {
    ExceptFromSpec(first, set y | y in second);
  }
}
