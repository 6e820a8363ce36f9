/**
 * Rulesets and their order: the weightSort comparator and the uasort the
 * router and the provider apply with it. The sort of PHP 8 is stable, so
 * rulesets of equal weight keep the order in which they were loaded.
 */
module Weights {
  import opened RouteMatch

  /** A routing ruleset as the router reads it; the weight is a float in PHP. */
  datatype Ruleset = Ruleset(name: string, weight: real, enabled: bool, gateway: string, rules: RuleArray)

  /** weightSort (and the uasort callbacks): 1, 0 or -1 as a's weight is above, equal to or below b's. */
  function WeightSort(a: Ruleset, b: Ruleset): (r: int)
    ensures r == 0 <==> a.weight == b.weight
    ensures r == 1 <==> a.weight > b.weight
    ensures r == -1 <==> a.weight < b.weight
  {
    if a.weight == b.weight then 0 else if a.weight > b.weight then 1 else -1
  }

  /** The comparator is antisymmetric. */
  lemma WeightSortAntisymmetric(a: Ruleset, b: Ruleset)
    ensures WeightSort(a, b) == -WeightSort(b, a)
  {
  }

  predicate SortedByWeight(s: seq<Ruleset>) {
    forall i, j :: 0 <= i < j < |s| ==> WeightSort(s[i], s[j]) <= 0
  }

  /** Insert x after every element of s whose weight is not above x's. */
  function Insert(s: seq<Ruleset>, x: Ruleset): (r: seq<Ruleset>)
    ensures |r| == |s| + 1
    decreases |s|
  {
    if s == [] then [x]
    else if WeightSort(s[|s| - 1], x) <= 0 then s + [x]
    else Insert(s[..|s| - 1], x) + [s[|s| - 1]]
  }

  /** uasort($rulesets, weightSort): a stable sort by weight, lightest first. */
  function SortByWeight(rs: seq<Ruleset>): (r: seq<Ruleset>)
    ensures |r| == |rs|
    decreases |rs|
  {
    if rs == [] then [] else Insert(SortByWeight(rs[..|rs| - 1]), rs[|rs| - 1])
  }

  /** The rulesets of one weight, in order. */
  function OfWeight(s: seq<Ruleset>, w: real): seq<Ruleset>
    decreases |s|
  {
    if s == [] then []
    else OfWeight(s[..|s| - 1], w) + (if s[|s| - 1].weight == w then [s[|s| - 1]] else [])
  }

  lemma {:induction false} InsertPermutes(s: seq<Ruleset>, x: Ruleset)
    ensures multiset(Insert(s, x)) == multiset(s) + multiset{x}
    decreases |s|
  {
    if s != [] {
      var init := s[..|s| - 1];
      assert s == init + [s[|s| - 1]];
      if WeightSort(s[|s| - 1], x) > 0 {
        InsertPermutes(init, x);
      }
    }
  }

  lemma {:induction false} InsertSorted(s: seq<Ruleset>, x: Ruleset)
    requires SortedByWeight(s)
    ensures SortedByWeight(Insert(s, x))
    ensures multiset(Insert(s, x)) == multiset(s) + multiset{x}
    decreases |s|
  {
    InsertPermutes(s, x);
    if s != [] {
      var init := s[..|s| - 1];
      var last := s[|s| - 1];
      if WeightSort(last, x) > 0 {
        assert SortedByWeight(init);
        InsertSorted(init, x);
        InsertMembers(init, x);
        var ins := Insert(init, x);
        forall i | 0 <= i < |ins| ensures ins[i].weight <= last.weight {
          assert ins[i] in ins;
          if ins[i] != x {
            var k :| 0 <= k < |init| && init[k] == ins[i];
            assert WeightSort(s[k], s[|s| - 1]) <= 0;
          }
        }
        assert Insert(s, x) == ins + [last];
      }
    }
  }

  /** The sort neither adds nor drops a ruleset. */
  lemma {:induction false} SortPermutes(rs: seq<Ruleset>)
    ensures multiset(SortByWeight(rs)) == multiset(rs)
    decreases |rs|
  {
    if rs != [] {
      var init, x := rs[..|rs| - 1], rs[|rs| - 1];
      SortPermutes(init);
      InsertPermutes(SortByWeight(init), x);
      assert rs == init + [x];
    }
  }

  /** The sort yields a weight-ordered permutation of its input. */
  lemma {:induction false} SortSorted(rs: seq<Ruleset>)
    ensures SortedByWeight(SortByWeight(rs))
    ensures multiset(SortByWeight(rs)) == multiset(rs)
    decreases |rs|
  {
    SortPermutes(rs);
    if rs != [] {
      var init := rs[..|rs| - 1];
      SortSorted(init);
      InsertSorted(SortByWeight(init), rs[|rs| - 1]);
    }
  }

  lemma {:induction false} OfWeightAppend(a: seq<Ruleset>, b: seq<Ruleset>, w: real)
    ensures OfWeight(a + b, w) == OfWeight(a, w) + OfWeight(b, w)
    decreases |b|
  {
    if b == [] {
      assert a + b == a;
    } else {
      assert (a + b)[..|a + b| - 1] == a + b[..|b| - 1];
      OfWeightAppend(a, b[..|b| - 1], w);
    }
  }

  lemma {:induction false} InsertStable(s: seq<Ruleset>, x: Ruleset, w: real)
    ensures OfWeight(Insert(s, x), w) == OfWeight(s, w) + (if x.weight == w then [x] else [])
    decreases |s|
  {
    if s == [] {
      assert [x][..0] == [];
    } else {
      var init := s[..|s| - 1];
      var last := s[|s| - 1];
      if WeightSort(last, x) <= 0 {
        OfWeightAppend(s, [x], w);
        assert [x][..0] == [];
      } else {
        InsertStable(init, x, w);
        OfWeightAppend(Insert(init, x), [last], w);
        assert [last][..0] == [];
      }
    }
  }

  /** Stability: rulesets of equal weight keep their relative order. */
  lemma {:induction false} SortStable(rs: seq<Ruleset>, w: real)
    ensures OfWeight(SortByWeight(rs), w) == OfWeight(rs, w)
    decreases |rs|
  {
    if rs != [] {
      SortStable(rs[..|rs| - 1], w);
      InsertStable(SortByWeight(rs[..|rs| - 1]), rs[|rs| - 1], w);
    }
  }

  /** Sorting rulesets already in weight order changes nothing. */
  lemma {:induction false} SortIdempotent(rs: seq<Ruleset>)
    requires SortedByWeight(rs)
    ensures SortByWeight(rs) == rs
    decreases |rs|
  {
    if rs != [] {
      var init := rs[..|rs| - 1];
      assert SortedByWeight(init);
      SortIdempotent(init);
      if |init| > 0 {
        assert WeightSort(init[|init| - 1], rs[|rs| - 1]) <= 0;
      }
    }
  }

  /** No two rulesets route to the same gateway. */
  predicate DistinctGateways(s: seq<Ruleset>) {
    forall i, j :: 0 <= i < j < |s| ==> s[i].gateway != s[j].gateway
  }

  lemma {:induction false} InsertDistinct(s: seq<Ruleset>, x: Ruleset)
    requires DistinctGateways(s) && forall y :: y in s ==> y.gateway != x.gateway
    ensures DistinctGateways(Insert(s, x))
    decreases |s|
  {
    if s != [] {
      var init := s[..|s| - 1];
      var last := s[|s| - 1];
      if WeightSort(last, x) <= 0 {
        assert forall i :: 0 <= i < |s| ==> s[i] in s;
      } else {
        assert forall y :: y in init ==> y in s;
        InsertDistinct(init, x);
        var ins := Insert(init, x);
        InsertMembers(init, x);
        forall i | 0 <= i < |ins| ensures ins[i].gateway != last.gateway {
          assert ins[i] in ins;
          if ins[i] in init {
            var k :| 0 <= k < |init| && init[k] == ins[i];
          }
        }
      }
    }
  }

  lemma {:induction false} InsertMembers(s: seq<Ruleset>, x: Ruleset)
    ensures forall y :: y in Insert(s, x) <==> y in s || y == x
    decreases |s|
  {
    if s != [] {
      var init := s[..|s| - 1];
      assert s == init + [s[|s| - 1]];
      InsertMembers(init, x);
    }
  }

  lemma {:induction false} SortMembers(rs: seq<Ruleset>)
    ensures forall y :: y in SortByWeight(rs) <==> y in rs
    decreases |rs|
  {
    if rs != [] {
      var init := rs[..|rs| - 1];
      SortMembers(init);
      InsertMembers(SortByWeight(init), rs[|rs| - 1]);
      assert rs == init + [rs[|rs| - 1]];
    }
  }

  /** Sorting keeps the gateways distinct. */
  lemma {:induction false} SortDistinct(rs: seq<Ruleset>)
    requires DistinctGateways(rs)
    ensures DistinctGateways(SortByWeight(rs))
    decreases |rs|
  {
    if rs != [] {
      var init := rs[..|rs| - 1];
      var last := rs[|rs| - 1];
      assert DistinctGateways(init);
      SortDistinct(init);
      SortMembers(init);
      forall y | y in SortByWeight(init) ensures y.gateway != last.gateway {
        var k :| 0 <= k < |init| && init[k] == y;
      }
      InsertDistinct(SortByWeight(init), last);
    }
  }
}
