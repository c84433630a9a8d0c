/**
 * Collecting the present values of a sequence of optional values, as appending inside a
 * `forEach` does, and where in the sequence the collected values come from.
 */
module Collecting {
  import opened Wrappers

  /** One `f(x)` per element, in order. */
  function MapSeq<A, B>(f: A -> B, xs: seq<A>): seq<B> {
    seq(|xs|, i requires 0 <= i < |xs| => f(xs[i]))
  }

  /** The present values of `xs`, in order: what appending inside a `forEach` collects. */
  function Somes<T>(xs: seq<Option<T>>): seq<T>
    decreases |xs|
  {
    if xs == [] then []
    else (if xs[0].Some? then [xs[0].value] else []) + Somes(xs[1..])
  }

  /** Collecting distributes over concatenation. */
  lemma {:induction false} SomesAppend<T>(x: seq<Option<T>>, y: seq<Option<T>>)
    ensures Somes(x + y) == Somes(x) + Somes(y)
    decreases |x|
  {
    if x == [] {
      assert x + y == y;
    } else {
      var head := if x[0].Some? then [x[0].value] else [];
      assert (x + y)[0] == x[0];
      assert (x + y)[1..] == x[1..] + y;
      SomesAppend(x[1..], y);
      assert Somes(x + y) == head + Somes(x[1..] + y);
      assert Somes(x) == head + Somes(x[1..]);
    }
  }

  /** Collecting one more element appends its value, if it has one. */
  lemma SomesSnoc<T>(x: seq<Option<T>>, c: Option<T>)
    ensures Somes(x + [c]) == Somes(x) + (if c.Some? then [c.value] else [])
  {
    SomesAppend(x, [c]);
    assert [c][1..] == [];
  }

  /** The positions, from `from` on, that hold a value. */
  function PositionsFrom<T>(xs: seq<Option<T>>, from: nat): seq<nat>
    requires from <= |xs|
    decreases |xs| - from
  {
    if from == |xs| then []
    else (if xs[from].Some? then [from] else []) + PositionsFrom(xs, from + 1)
  }

  /** The k-th position from `from` on holds the k-th collected value of `xs[from..]`. */
  lemma {:induction false} PositionsHoldValues<T>(xs: seq<Option<T>>, from: nat)
    requires from <= |xs|
    ensures var idx, got := PositionsFrom(xs, from), Somes(xs[from..]);
      && |idx| == |got|
      && forall k :: 0 <= k < |idx| ==> from <= idx[k] < |xs| && xs[idx[k]] == Some(got[k])
    decreases |xs| - from
  {
    if from < |xs| {
      PositionsHoldValues(xs, from + 1);
      assert xs[from..][1..] == xs[from + 1..];
      var rest, restGot := PositionsFrom(xs, from + 1), Somes(xs[from + 1..]);
      if xs[from].Some? {
        var idx, got := [from] + rest, [xs[from].value] + restGot;
        assert PositionsFrom(xs, from) == idx;
        assert Somes(xs[from..]) == got;
        forall k | 1 <= k < |idx|
          ensures from <= idx[k] < |xs| && xs[idx[k]] == Some(got[k])
        {
          assert idx[k] == rest[k - 1] && got[k] == restGot[k - 1];
        }
      } else {
        assert PositionsFrom(xs, from) == rest;
        assert Somes(xs[from..]) == restGot;
      }
    }
  }

  /** Every position listed from `from` on lies between `from` and the end. */
  lemma {:induction false} PositionsBounded<T>(xs: seq<Option<T>>, from: nat)
    requires from <= |xs|
    ensures forall k :: 0 <= k < |PositionsFrom(xs, from)| ==> from <= PositionsFrom(xs, from)[k] < |xs|
    decreases |xs| - from
  {
    if from < |xs| {
      PositionsBounded(xs, from + 1);
      var rest := PositionsFrom(xs, from + 1);
      if xs[from].Some? {
        var idx := [from] + rest;
        assert PositionsFrom(xs, from) == idx;
        forall k | 1 <= k < |idx|
          ensures from <= idx[k] < |xs|
        {
          assert idx[k] == rest[k - 1];
        }
      } else {
        assert PositionsFrom(xs, from) == rest;
      }
    }
  }

  /** The positions strictly increase. */
  lemma {:induction false} PositionsIncrease<T>(xs: seq<Option<T>>, from: nat)
    requires from <= |xs|
    ensures forall k, l :: 0 <= k < l < |PositionsFrom(xs, from)| ==> PositionsFrom(xs, from)[k] < PositionsFrom(xs, from)[l]
    decreases |xs| - from
  {
    if from < |xs| {
      PositionsIncrease(xs, from + 1);
      PositionsBounded(xs, from + 1);
      var rest := PositionsFrom(xs, from + 1);
      if xs[from].Some? {
        var idx := [from] + rest;
        assert PositionsFrom(xs, from) == idx;
        forall k, l | 0 <= k < l < |idx|
          ensures idx[k] < idx[l]
        {
          assert idx[l] == rest[l - 1] > from;
          if k > 0 {
            assert idx[k] == rest[k - 1];
          }
        }
      } else {
        assert PositionsFrom(xs, from) == rest;
      }
    }
  }

  /** A position from `from` on is listed exactly when it holds a value. */
  lemma {:induction false} PositionsCoverValues<T>(xs: seq<Option<T>>, from: nat)
    requires from <= |xs|
    ensures var idx := PositionsFrom(xs, from);
      forall i :: from <= i < |xs| ==> (i in idx <==> xs[i].Some?)
    decreases |xs| - from
  {
    if from < |xs| {
      PositionsCoverValues(xs, from + 1);
      PositionsBounded(xs, from + 1);
      var rest := PositionsFrom(xs, from + 1);
      assert from !in rest;
      if xs[from].Some? {
        assert PositionsFrom(xs, from) == [from] + rest;
      } else {
        assert PositionsFrom(xs, from) == rest;
      }
    }
  }

  /** A strictly increasing sequence of positions below `n` has at most `n` entries. */
  lemma {:induction false} IncreasingBelow(idx: seq<nat>, n: nat)
    requires forall k :: 0 <= k < |idx| ==> idx[k] < n
    requires forall k, l :: 0 <= k < l < |idx| ==> idx[k] < idx[l]
    ensures |idx| <= n
    decreases n
  {
    if idx != [] {
      var last := idx[|idx| - 1];
      IncreasingBelow(idx[..|idx| - 1], last);
    }
  }
}
