/** Removing every element that matches a compound selector, with its subtree:
    `clone.querySelectorAll(sel).forEach(el => el.remove())`. A match nested in another match
    leaves with its ancestor, so removing them one by one in document order and cutting off the
    outermost matches give the same tree. */
module Pruning {
  import opened Selectors
  import opened Dom
  import opened Filtering

  /** The forest `cs` with every matching element cut off, looking below the survivors. */
  function PruneForest(cs: seq<Node>, c: Compound): seq<Node> {
    if cs == [] then []
    else
      (if MatchesCompound(cs[0], c) then []
       else [match cs[0]
             case Text(_) => cs[0]
             case Element(t, a, ch) => Element(t, a, PruneForest(ch, c))])
      + PruneForest(cs[1..], c)
  }

  /** The nodes of a forest that the removal of `c` keeps at its top level. */
  function Survives(c: Compound): Node -> bool {
    n => !MatchesCompound(n, c)
  }

  /** `n` without the descendants that match `c`; `n` itself stays, as `querySelectorAll`
      on `n` never returns `n`. */
  function RemoveMatching(n: Node, c: Compound): (r: Node)
    ensures r.Element? == n.Element?
    ensures n.Element? ==> r.tag == n.tag && r.attrs == n.attrs
    ensures n.Text? ==> r == n
  {
    match n
    case Text(_) => n
    case Element(t, a, cs) => Element(t, a, PruneForest(cs, c))
  }

  /** The removals for `sels`, one selector after the other, in list order. */
  function RemoveAll(n: Node, sels: seq<Compound>): (r: Node)
    ensures r.Element? == n.Element?
  {
    if sels == [] then n else RemoveMatching(RemoveAll(n, sels[..|sels| - 1]), sels[|sels| - 1])
  }

  /** No node of the forest `cs`, nor any node below one, matches `c`. */
  predicate Free(cs: seq<Node>, c: Compound) {
    cs == [] ||
    (&& !MatchesCompound(cs[0], c)
     && (match cs[0]
         case Text(_) => true
         case Element(_, _, ch) => Free(ch, c))
     && Free(cs[1..], c))
  }

  lemma {:induction false} FreeAppend(a: seq<Node>, b: seq<Node>, c: Compound)
    ensures Free(a + b, c) <==> Free(a, c) && Free(b, c)
  {
    if a != [] {
      var ab := a + b;
      assert ab != [] && ab[0] == a[0] && ab[1..] == a[1..] + b;
      FreeAppend(a[1..], b, c);
      assert Free(ab, c) <==> !MatchesCompound(a[0], c) && Free(ChildrenOf(a[0]), c) && Free(ab[1..], c);
      assert Free(a, c) <==> !MatchesCompound(a[0], c) && Free(ChildrenOf(a[0]), c) && Free(a[1..], c);
    } else {
      assert a + b == b;
    }
  }

  /** A forest is free of `c` when each of its nodes is. */
  lemma {:induction false} FreeOfEach(cs: seq<Node>, c: Compound)
    requires forall x :: x in cs ==> Free([x], c)
    ensures Free(cs, c)
  {
    if cs != [] {
      assert cs == [cs[0]] + cs[1..];
      FreeOfEach(cs[1..], c);
      FreeAppend([cs[0]], cs[1..], c);
    }
  }

  /** After the removal, nothing in the forest matches `c`. */
  lemma {:induction false} PruneForestIsFree(cs: seq<Node>, c: Compound)
    ensures Free(PruneForest(cs, c), c)
  {
    if cs != [] {
      PruneForestIsFree(cs[1..], c);
      if !MatchesCompound(cs[0], c) {
        var x := match cs[0] case Text(_) => cs[0] case Element(t, a, ch) => Element(t, a, PruneForest(ch, c));
        if cs[0].Element? {
          PruneForestIsFree(cs[0].children, c);
        }
        assert Free([x], c);
        assert PruneForest(cs, c) == [x] + PruneForest(cs[1..], c);
        FreeAppend([x], PruneForest(cs[1..], c), c);
      } else {
        assert PruneForest(cs, c) == PruneForest(cs[1..], c);
      }
    }
  }

  /** Removing more never brings back what an earlier removal took away. */
  lemma {:induction false} PruneForestKeepsFree(cs: seq<Node>, c: Compound, d: Compound)
    requires Free(cs, d)
    ensures Free(PruneForest(cs, c), d)
  {
    if cs != [] {
      PruneForestKeepsFree(cs[1..], c, d);
      if !MatchesCompound(cs[0], c) {
        var x := match cs[0] case Text(_) => cs[0] case Element(t, a, ch) => Element(t, a, PruneForest(ch, c));
        if cs[0].Element? {
          PruneForestKeepsFree(cs[0].children, c, d);
        }
        assert Free([x], d);
        assert PruneForest(cs, c) == [x] + PruneForest(cs[1..], c);
        FreeAppend([x], PruneForest(cs[1..], c), d);
      } else {
        assert PruneForest(cs, c) == PruneForest(cs[1..], c);
      }
    }
  }

  /** On a forest that is already free of `c` the removal changes nothing. */
  lemma {:induction false} PruneForestOfFree(cs: seq<Node>, c: Compound)
    requires Free(cs, c)
    ensures PruneForest(cs, c) == cs
  {
    if cs != [] {
      PruneForestOfFree(cs[1..], c);
      if cs[0].Element? {
        PruneForestOfFree(cs[0].children, c);
      }
      assert cs == [cs[0]] + cs[1..];
    }
  }

  /** Removing the matches of `c` twice is removing them once. */
  lemma RemoveMatchingIdempotent(n: Node, c: Compound)
    ensures RemoveMatching(RemoveMatching(n, c), c) == RemoveMatching(n, c)
  {
    if n.Element? {
      PruneForestIsFree(n.children, c);
      PruneForestOfFree(PruneForest(n.children, c), c);
    }
  }

  /** After all the removals, no descendant matches any of the selectors. */
  lemma {:induction false} RemoveAllIsFree(n: Node, sels: seq<Compound>)
    ensures forall k :: 0 <= k < |sels| ==> Free(ChildrenOf(RemoveAll(n, sels)), sels[k])
  {
    if sels != [] {
      var before := RemoveAll(n, sels[..|sels| - 1]);
      var last := sels[|sels| - 1];
      RemoveAllIsFree(n, sels[..|sels| - 1]);
      forall k | 0 <= k < |sels|
        ensures Free(ChildrenOf(RemoveAll(n, sels)), sels[k])
      {
        if k == |sels| - 1 {
          PruneForestIsFree(ChildrenOf(before), last);
        } else {
          assert sels[..|sels| - 1][k] == sels[k];
          PruneForestKeepsFree(ChildrenOf(before), last, sels[k]);
        }
      }
    }
  }

  /** Every element reached below a forest that is free of `c` is free of `c` with its subtree:
      so `querySelectorAll` finds nothing that matches `c` there. */
  lemma {:induction false} HitsOfFree(cs: seq<Node>, ancestors: seq<Node>, c: Compound)
    requires Free(cs, c)
    ensures forall h :: h in Hits(cs, ancestors) ==> Free([h.node], c) && !MatchesCompound(h.node, c)
  {
    if cs != [] {
      HitsOfFree(cs[1..], ancestors, c);
      if cs[0].Element? {
        HitsOfFree(cs[0].children, ancestors + [cs[0]], c);
        assert Free([cs[0]], c);
      }
    }
  }

  /** The removal keeps every node that does not match, in its order, each with the matches below
      it removed in turn: exactly the nodes the filter by `Survives(c)` keeps. */
  lemma {:induction false} PruneForestKeepsTheRest(cs: seq<Node>, c: Compound)
    ensures var f := Filter(cs, Survives(c));
            && |PruneForest(cs, c)| == |f|
            && forall k :: 0 <= k < |f| ==> PruneForest(cs, c)[k] == RemoveMatching(f[k], c)
  {
    if cs != [] {
      PruneForestKeepsTheRest(cs[1..], c);
      FilterCons(cs, Survives(c));
      if !MatchesCompound(cs[0], c) {
        assert PruneForest(cs, c) == [RemoveMatching(cs[0], c)] + PruneForest(cs[1..], c);
      } else {
        assert PruneForest(cs, c) == PruneForest(cs[1..], c);
      }
    }
  }
}
