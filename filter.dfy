/** `Array.prototype.filter` on a sequence, and the positions of the elements it keeps. */
module Filtering {
  /** The elements of `xs` that satisfy `keep`, in their order; written from the end so that the
      positions of the earlier elements stay put. */
  function Filter<T>(xs: seq<T>, keep: T -> bool): seq<T> {
    if xs == [] then []
    else Filter(xs[..|xs| - 1], keep) + (if keep(xs[|xs| - 1]) then [xs[|xs| - 1]] else [])
  }

  /** The positions in `xs` of the elements that satisfy `keep`, in increasing order. */
  function KeptPositions<T>(xs: seq<T>, keep: T -> bool): seq<nat> {
    if xs == [] then []
    else KeptPositions(xs[..|xs| - 1], keep) + (if keep(xs[|xs| - 1]) then [|xs| - 1] else [])
  }

  /** The positions are in range and strictly increasing, and a position is listed exactly when
      the element there satisfies `keep`. */
  lemma {:induction false} KeptPositionsAreExact<T>(xs: seq<T>, keep: T -> bool)
    ensures var pos := KeptPositions(xs, keep);
            && (forall j :: 0 <= j < |pos| ==> pos[j] < |xs|)
            && (forall j1, j2 :: 0 <= j1 < j2 < |pos| ==> pos[j1] < pos[j2])
            && (forall i :: 0 <= i < |xs| ==> (keep(xs[i]) <==> i in pos))
  {
    if xs != [] {
      var init := xs[..|xs| - 1];
      KeptPositionsAreExact(init, keep);
      assert forall i :: 0 <= i < |init| ==> init[i] == xs[i];
    }
  }

  /** The filter keeps the elements at the kept positions, in their order. */
  lemma {:induction false} FilterAtKeptPositions<T>(xs: seq<T>, keep: T -> bool)
    ensures var r, pos := Filter(xs, keep), KeptPositions(xs, keep);
            && |r| == |pos|
            && (forall j :: 0 <= j < |pos| ==> pos[j] < |xs| && r[j] == xs[pos[j]])
  {
    if xs != [] {
      var init := xs[..|xs| - 1];
      FilterAtKeptPositions(init, keep);
      assert forall i :: 0 <= i < |init| ==> init[i] == xs[i];
    }
  }

  /** Everything the filter keeps comes from `xs` and satisfies `keep`. */
  lemma {:induction false} FilterIsAmong<T>(xs: seq<T>, keep: T -> bool)
    ensures forall x :: x in Filter(xs, keep) ==> x in xs && keep(x)
  {
    if xs != [] {
      FilterIsAmong(xs[..|xs| - 1], keep);
    }
  }

  /** Filtering a concatenation filters each part. */
  lemma {:induction false} FilterAppend<T>(a: seq<T>, b: seq<T>, keep: T -> bool)
    ensures Filter(a + b, keep) == Filter(a, keep) + Filter(b, keep)
  {
    if b == [] {
      assert a + b == a;
    } else {
      var ab := a + b;
      assert ab[..|ab| - 1] == a + b[..|b| - 1];
      assert ab[|ab| - 1] == b[|b| - 1];
      FilterAppend(a, b[..|b| - 1], keep);
    }
  }

  /** Filtering `xs` is deciding its first element and filtering the rest. */
  lemma FilterCons<T>(xs: seq<T>, keep: T -> bool)
    requires xs != []
    ensures Filter(xs, keep) == (if keep(xs[0]) then [xs[0]] else []) + Filter(xs[1..], keep)
  {
    assert xs == [xs[0]] + xs[1..];
    FilterAppend([xs[0]], xs[1..], keep);
    assert [xs[0]][..0] == [];
  }
}
