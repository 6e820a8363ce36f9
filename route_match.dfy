/**
 * The ruleset matching engine (AdvancedRouting::matchRoute): the rules of one
 * ruleset are combined with AND or OR, the matched numbers are returned with
 * their array keys and taken out of the pool.
 */
module RouteMatch {
  import opened Tables
  import opened RuleTypes

  /**
   * One rule of a ruleset. The AND branch of matchRoute reads the keys op, neg
   * and exp; the OR branch reads operator, negate and value. A key the rule does
   * not have reads as "" or false.
   */
  datatype Rule = Rule(op: string, neg: bool, exp: string, operator: string, negate: bool, value: string)

  /**
   * A ruleset's rules array: the truthiness of its _ALL_TRUE_ entry, and the other
   * entries, keyed by rule type, in array order.
   */
  datatype RuleArray = RuleArray(allTrue: bool, entries: Table<string, Rule>)

  const AllTrueKey: string := "_ALL_TRUE_"

  /** The shape every rules array has once _ALL_TRUE_ is split off. */
  predicate WellFormed(rules: RuleArray) {
    UniqueKeys(rules.entries) && !HasKey(rules.entries, AllTrueKey)
  }

  /** A recipient number under its array key. */
  type Keyed = Pair<int, string>

  /** A list as PHP holds it: keys 0, 1, 2, ... */
  function Indexed(pool: seq<string>): (t: Table<int, string>)
    ensures |t| == |pool|
    ensures forall i :: 0 <= i < |t| ==> t[i] == Pair(i, pool[i])
  {
    seq(|pool|, i requires 0 <= i < |pool| => Pair(i, pool[i]))
  }

  /** The numbers held by a keyed array, in array order. */
  function Numbers(t: Table<int, string>): seq<string> {
    Vals(t)
  }

  /** array_intersect(t, other): the pairs of t whose number occurs in other, keys kept. */
  function Intersect(t: Table<int, string>, other: seq<string>): (r: Table<int, string>)
    ensures |r| <= |t|
    ensures forall p :: p in r <==> p in t && p.val in other
  {
    if t == [] then []
    else
      var init := t[..|t| - 1];
      var last := t[|t| - 1];
      assert t == init + [last];
      Intersect(init, other) + (if last.val in other then [last] else [])
  }

  /** array_unique on a list: the first occurrence of each number, under its position. */
  function Dedup(s: seq<string>): (r: Table<int, string>)
    ensures forall p :: p in r ==> 0 <= p.key < |s| && s[p.key] == p.val
    ensures forall x :: x in Numbers(r) <==> x in s
    ensures forall i, j :: 0 <= i < j < |r| ==> r[i].key < r[j].key && r[i].val != r[j].val
  {
    if s == [] then []
    else
      var init := s[..|s| - 1];
      var last := s[|s| - 1];
      var prev := Dedup(init);
      assert s == init + [last];
      if last in init then
        assert forall x :: x in Numbers(prev) <==> x in s;
        prev
      else
        var r := prev + [Pair(|s| - 1, last)];
        assert Numbers(r) == Numbers(prev) + [last];
        forall i | 0 <= i < |prev| ensures prev[i].val != last {
          assert prev[i].val in Numbers(prev);
        }
        r
  }

  /** array_unique keeps each number under the key of its first occurrence. */
  lemma {:induction false} DedupKeepsFirst(s: seq<string>)
    ensures forall p :: p in Dedup(s) ==> p.val !in s[..p.key]
    decreases |s|
  {
    if s != [] {
      var init := s[..|s| - 1];
      DedupKeepsFirst(init);
      assert s[..|s| - 1] == init;
      forall p | p in Dedup(s) ensures p.val !in s[..p.key] {
        if p in Dedup(init) {
          assert s[..p.key] == init[..p.key];
        }
      }
    }
  }

  /** array_values(array_diff(pool, matched)): the pool without every matched number. */
  function Diff(pool: seq<string>, matched: Table<int, string>): (r: seq<string>)
    ensures |r| <= |pool|
    ensures forall x :: x in r <==> x in pool && x !in Numbers(matched)
  {
    if pool == [] then []
    else
      var init := pool[..|pool| - 1];
      var last := pool[|pool| - 1];
      assert pool == init + [last];
      Diff(init, matched) + (if last in Numbers(matched) then [] else [last])
  }

  /** What the rule keyed ruleType selects when read with the AND branch's keys. */
  function AndRuleMatches(pool: seq<string>, ruleType: string, rule: Rule, ctx: Context): seq<string> {
    RuleMatches(pool, ruleType, rule.op, rule.neg, rule.exp, ctx)
  }

  /** What the rule keyed ruleType selects when read with the OR branch's keys. */
  function OrRuleMatches(pool: seq<string>, ruleType: string, rule: Rule, ctx: Context): seq<string> {
    RuleMatches(pool, ruleType, rule.operator, rule.negate, rule.value, ctx)
  }

  /** What each rule selects from the whole pool, in rule order, under the AND branch's keys. */
  function AndSelections(pool: seq<string>, entries: Table<string, Rule>, ctx: Context): (sels: seq<seq<string>>)
    ensures |sels| == |entries|
  {
    seq(|entries|, k requires 0 <= k < |entries| => AndRuleMatches(pool, entries[k].key, entries[k].val, ctx))
  }

  /** What each rule selects from the whole pool, in rule order, under the OR branch's keys. */
  function OrSelections(pool: seq<string>, entries: Table<string, Rule>, ctx: Context): (sels: seq<seq<string>>)
    ensures |sels| == |entries|
  {
    seq(|entries|, k requires 0 <= k < |entries| => OrRuleMatches(pool, entries[k].key, entries[k].val, ctx))
  }

  /** The AND fold: t intersected with each selection in turn. */
  function IntersectAll(t: Table<int, string>, sels: seq<seq<string>>): (r: Table<int, string>)
    ensures |r| <= |t|
    decreases |sels|
  {
    if sels == [] then t else Intersect(IntersectAll(t, sels[..|sels| - 1]), sels[|sels| - 1])
  }

  /** The OR fold: the selections one after the other (array_merge of lists). */
  function Concat(sels: seq<seq<string>>): seq<string>
    decreases |sels|
  {
    if sels == [] then [] else Concat(sels[..|sels| - 1]) + sels[|sels| - 1]
  }

  /** The value matchRoute returns. */
  function Matched(pool: seq<string>, rules: RuleArray, ctx: Context): Table<int, string> {
    if rules.allTrue then IntersectAll(Indexed(pool), AndSelections(pool, rules.entries, ctx))
    else Dedup(Concat(OrSelections(pool, rules.entries, ctx)))
  }

  /** matchRoute: returns the matched numbers and leaves the rest of the pool in numbers. */
  method MatchRoute(rules: RuleArray, numbers: seq<string>, ctx: Context)
    returns (ret: Table<int, string>, rest: seq<string>)
    ensures ret == Matched(numbers, rules, ctx)
    ensures rest == Diff(numbers, ret)
  {
    var entries := rules.entries;
    if rules.allTrue {
      ghost var sels := AndSelections(numbers, entries, ctx);
      ret := Indexed(numbers);
      var i := 0;
      while i < |entries|
        invariant 0 <= i <= |entries|
        invariant ret == IntersectAll(Indexed(numbers), sels[..i])
      {
        var rule := entries[i].val;
        var m := MatchRuleType(numbers, entries[i].key, rule.op, rule.neg, rule.exp, ctx);
        assert m == sels[i];
        assert sels[..i + 1][..i] == sels[..i];
        ret := Intersect(ret, m);
        i := i + 1;
      }
      assert sels[..i] == sels;
    } else {
      ghost var sels := OrSelections(numbers, entries, ctx);
      var merged := [];
      var i := 0;
      while i < |entries|
        invariant 0 <= i <= |entries|
        invariant merged == Concat(sels[..i])
      {
        var rule := entries[i].val;
        var m := MatchRuleType(numbers, entries[i].key, rule.operator, rule.negate, rule.value, ctx);
        assert m == sels[i];
        assert sels[..i + 1][..i] == sels[..i];
        merged := merged + m;
        i := i + 1;
      }
      assert sels[..i] == sels;
      ret := Dedup(merged);
    }
    rest := Diff(numbers, ret);
  }

  // ---------------------------------------------------------------------
  // Properties of matchRoute
  // ---------------------------------------------------------------------

  /** Intersecting only ever keeps pairs of t. */
  lemma {:induction false} IntersectAllSub(t: Table<int, string>, sels: seq<seq<string>>)
    ensures forall p :: p in IntersectAll(t, sels) ==> p in t
    decreases |sels|
  {
    if sels != [] {
      IntersectAllSub(t, sels[..|sels| - 1]);
    }
  }

  /** A pair of t survives the AND fold exactly when every selection holds its number. */
  lemma {:induction false} IntersectAllIff(t: Table<int, string>, sels: seq<seq<string>>, p: Keyed)
    ensures p in IntersectAll(t, sels) <==> p in t && forall k :: 0 <= k < |sels| ==> p.val in sels[k]
    decreases |sels|
  {
    if sels != [] {
      var init := sels[..|sels| - 1];
      var last := sels[|sels| - 1];
      IntersectAllIff(t, init, p);
      assert p in IntersectAll(t, sels) <==> p in IntersectAll(t, init) && p.val in last;
      if forall k :: 0 <= k < |sels| ==> p.val in sels[k] {
        assert p.val in last;
        forall k | 0 <= k < |init| ensures p.val in init[k] {
          assert init[k] == sels[k];
        }
      }
      if (forall k :: 0 <= k < |init| ==> p.val in init[k]) && p.val in last {
        forall k | 0 <= k < |sels| ensures p.val in sels[k] {
          if k < |init| {
            assert init[k] == sels[k];
          } else {
            assert k == |sels| - 1;
          }
        }
      }
    }
  }

  /** The AND fold keeps t's order: keys increasing in t stay increasing. */
  lemma {:induction false} IntersectAllSorted(t: Table<int, string>, sels: seq<seq<string>>)
    requires forall a, b :: 0 <= a < b < |t| ==> t[a].key < t[b].key
    ensures forall a, b :: 0 <= a < b < |IntersectAll(t, sels)| ==> IntersectAll(t, sels)[a].key < IntersectAll(t, sels)[b].key
    decreases |sels|
  {
    if sels != [] {
      IntersectAllSorted(t, sels[..|sels| - 1]);
      IntersectSorted(IntersectAll(t, sels[..|sels| - 1]), sels[|sels| - 1]);
    }
  }

  lemma {:induction false} IntersectSorted(t: Table<int, string>, other: seq<string>)
    requires forall a, b :: 0 <= a < b < |t| ==> t[a].key < t[b].key
    ensures forall a, b :: 0 <= a < b < |Intersect(t, other)| ==> Intersect(t, other)[a].key < Intersect(t, other)[b].key
    decreases |t|
  {
    if t != [] {
      var init := t[..|t| - 1];
      var last := t[|t| - 1];
      IntersectSorted(init, other);
      var prev := Intersect(init, other);
      forall a | 0 <= a < |prev| ensures prev[a].key < last.key {
        assert prev[a] in prev;
        var j :| 0 <= j < |init| && init[j] == prev[a];
      }
    }
  }

  /** A number is in the OR fold exactly when some selection holds it. */
  lemma {:induction false} ConcatIff(sels: seq<seq<string>>, x: string)
    ensures x in Concat(sels) <==> exists k :: 0 <= k < |sels| && x in sels[k]
    decreases |sels|
  {
    if sels != [] {
      var init := sels[..|sels| - 1];
      ConcatIff(init, x);
      assert forall k :: 0 <= k < |init| ==> init[k] == sels[k];
    }
  }

  /** With no rules, AND claims the whole pool and OR claims nothing. */
  lemma NoRules(pool: seq<string>, allTrue: bool, ctx: Context)
    ensures Matched(pool, RuleArray(allTrue, []), ctx) == if allTrue then Indexed(pool) else []
  {
    assert AndSelections(pool, [], ctx) == [];
    assert OrSelections(pool, [], ctx) == [];
  }

  /** AND mode: pool position i is matched exactly when every rule selects its number
      from the whole pool; nothing else is matched. */
  lemma AndMode(pool: seq<string>, rules: RuleArray, ctx: Context, i: int)
    requires rules.allTrue && 0 <= i < |pool|
    ensures Pair(i, pool[i]) in Matched(pool, rules, ctx) <==>
      forall k :: 0 <= k < |rules.entries| ==>
        pool[i] in AndRuleMatches(pool, rules.entries[k].key, rules.entries[k].val, ctx)
    ensures forall p :: p in Matched(pool, rules, ctx) ==> 0 <= p.key < |pool| && pool[p.key] == p.val
  {
    var sels := AndSelections(pool, rules.entries, ctx);
    IntersectAllIff(Indexed(pool), sels, Pair(i, pool[i]));
    assert Indexed(pool)[i] == Pair(i, pool[i]);
    assert (forall k :: 0 <= k < |sels| ==> pool[i] in sels[k]) <==>
      forall k :: 0 <= k < |rules.entries| ==>
        pool[i] in AndRuleMatches(pool, rules.entries[k].key, rules.entries[k].val, ctx) by {
      forall k | 0 <= k < |sels|
        ensures sels[k] == AndRuleMatches(pool, rules.entries[k].key, rules.entries[k].val, ctx) {
      }
    }
    IntersectAllSub(Indexed(pool), sels);
    forall p | p in Matched(pool, rules, ctx) ensures 0 <= p.key < |pool| && pool[p.key] == p.val {
      var j :| 0 <= j < |pool| && Indexed(pool)[j] == p;
    }
  }

  /** OR mode: a number is matched exactly when some rule selects it, and it is matched once. */
  lemma OrMode(pool: seq<string>, rules: RuleArray, ctx: Context, x: string)
    requires !rules.allTrue
    ensures x in Numbers(Matched(pool, rules, ctx)) <==>
      exists k :: 0 <= k < |rules.entries| &&
        x in OrRuleMatches(pool, rules.entries[k].key, rules.entries[k].val, ctx)
    ensures forall a, b :: 0 <= a < b < |Matched(pool, rules, ctx)| ==>
      Matched(pool, rules, ctx)[a].val != Matched(pool, rules, ctx)[b].val
  {
    var sels := OrSelections(pool, rules.entries, ctx);
    ConcatIff(sels, x);
    assert (exists k :: 0 <= k < |sels| && x in sels[k]) <==>
      exists k :: 0 <= k < |rules.entries| &&
        x in OrRuleMatches(pool, rules.entries[k].key, rules.entries[k].val, ctx) by {
      forall k | 0 <= k < |sels|
        ensures sels[k] == OrRuleMatches(pool, rules.entries[k].key, rules.entries[k].val, ctx) {
      }
    }
  }

  /** Every number of the OR fold comes from the pool. */
  lemma {:induction false} ConcatFromPool(pool: seq<string>, sels: seq<seq<string>>)
    requires forall k, x :: 0 <= k < |sels| && x in sels[k] ==> x in pool
    ensures forall x :: x in Concat(sels) ==> x in pool
    decreases |sels|
  {
    if sels != [] {
      ConcatFromPool(pool, sels[..|sels| - 1]);
    }
  }

  /** matchRoute returns numbers of the pool, each key once; afterwards the pool holds, in
      order, exactly the numbers that were not matched. */
  lemma MatchPartitions(pool: seq<string>, rules: RuleArray, ctx: Context)
    ensures forall x :: x in Numbers(Matched(pool, rules, ctx)) ==> x in pool
    ensures UniqueKeys(Matched(pool, rules, ctx))
    ensures forall x :: x in Diff(pool, Matched(pool, rules, ctx)) <==>
      x in pool && x !in Numbers(Matched(pool, rules, ctx))
  {
    var r := Matched(pool, rules, ctx);
    if rules.allTrue {
      var sels := AndSelections(pool, rules.entries, ctx);
      IntersectAllSub(Indexed(pool), sels);
      IntersectAllSorted(Indexed(pool), sels);
      forall x | x in Numbers(r) ensures x in pool {
        var j :| 0 <= j < |r| && Numbers(r)[j] == x;
        assert r[j] in r;
        var k :| 0 <= k < |pool| && Indexed(pool)[k] == r[j];
      }
    } else {
      var sels := OrSelections(pool, rules.entries, ctx);
      forall k, x | 0 <= k < |sels| && x in sels[k] ensures x in pool {
        var e := rules.entries[k];
        RuleMatchesFromPool(pool, e.key, e.val.operator, e.val.negate, e.val.value, ctx, x);
      }
      ConcatFromPool(pool, sels);
    }
  }

  /** Diff keeps the pool order: taking the matched numbers out of a split pool splits the result. */
  lemma {:induction false} DiffAppend(a: seq<string>, b: seq<string>, matched: Table<int, string>)
    ensures Diff(a + b, matched) == Diff(a, matched) + Diff(b, matched)
    decreases |b|
  {
    if b == [] {
      assert a + b == a;
    } else {
      var init := b[..|b| - 1];
      var last := b[|b| - 1];
      var tail := if last in Numbers(matched) then [] else [last];
      assert (a + b)[..|a + b| - 1] == a + init;
      assert (a + b)[|a + b| - 1] == last;
      calc {
        Diff(a + b, matched);
        Diff(a + init, matched) + tail;
        { DiffAppend(a, init, matched); }
        Diff(a, matched) + Diff(init, matched) + tail;
        Diff(a, matched) + Diff(b, matched);
      }
    }
  }

  /** Nothing matched leaves the pool as it was. */
  lemma {:induction false} DiffNothing(pool: seq<string>)
    ensures Diff(pool, []) == pool
    decreases |pool|
  {
    if pool != [] {
      DiffNothing(pool[..|pool| - 1]);
      assert pool == pool[..|pool| - 1] + [pool[|pool| - 1]];
    }
  }
}
