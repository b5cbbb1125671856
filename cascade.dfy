/** The shape every field search of the extractor has: try candidates in a fixed priority order
    and take the first one that yields a value, or a field default when none does. */
module Cascade {
  import opened Wrappers

  /** `r` is the value of the first candidate that has one, or `default` when no candidate has. */
  ghost predicate FirstMatchOr<T>(candidates: seq<Option<T>>, default: T, r: T) {
    || (exists i :: 0 <= i < |candidates| && candidates[i] == Some(r) &&
                    forall j :: 0 <= j < i ==> candidates[j].None?)
    || (r == default && forall i :: 0 <= i < |candidates| ==> candidates[i].None?)
  }

  /** The cascade determines its result: there is one answer for each list of candidates. */
  lemma FirstMatchOrIsUnique<T>(candidates: seq<Option<T>>, default: T, r1: T, r2: T)
    requires FirstMatchOr(candidates, default, r1)
    requires FirstMatchOr(candidates, default, r2)
    ensures r1 == r2
  {
    if i1 :| 0 <= i1 < |candidates| && candidates[i1] == Some(r1) &&
             forall j :: 0 <= j < i1 ==> candidates[j].None? {
      var i2 :| 0 <= i2 < |candidates| && candidates[i2] == Some(r2) &&
                forall j :: 0 <= j < i2 ==> candidates[j].None?;
      assert !(i1 < i2) && !(i2 < i1);
    }
  }

  /** What the search sees when it tries `keys` in order: the value each probe yields, if any. */
  function Candidates<K, T>(keys: seq<K>, probe: K -> Option<T>): seq<Option<T>> {
    seq(|keys|, i requires 0 <= i < |keys| => probe(keys[i]))
  }

  /** The search loop itself: probe the keys one after the other and stop at the first value. */
  method FirstOf<K, T>(keys: seq<K>, probe: K -> Option<T>, default: T) returns (r: T)
    ensures FirstMatchOr(Candidates(keys, probe), default, r)
  {
    for i := 0 to |keys|
      invariant forall j :: 0 <= j < i ==> Candidates(keys, probe)[j].None?
    {
      var found := probe(keys[i]);
      assert Candidates(keys, probe)[i] == found;
      if found.Some? {
        return found.value;
      }
    }
    return default;
  }

  /** The result of a cascade is the default or the value of one of its candidates. */
  lemma FirstMatchOrIsCandidate<T>(candidates: seq<Option<T>>, default: T, r: T)
    requires FirstMatchOr(candidates, default, r)
    ensures r == default || exists i :: 0 <= i < |candidates| && candidates[i] == Some(r)
  {
  }
}
