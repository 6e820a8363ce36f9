/**
 * AdvancedRouting::routeSmsRecipients: the rulesets, lightest first, each take
 * the numbers they match out of the pool; the numbers are filed under the
 * ruleset's gateway (routes) and its name (order), and whatever is left goes
 * to the __default__ gateway.
 *
 * Matches for a gateway that already holds numbers are merged with PHP's
 * key-union (+=): a newly matched number whose array key is already taken in
 * that gateway's list is dropped. The partition property below therefore asks
 * that no two rulesets share a gateway, and SharedGatewayLosesNumber shows a
 * number that is lost when two do.
 */
module Router {
  import opened Options
  import opened Tables
  import opened RuleTypes
  import opened RouteMatch
  import opened Weights
  import Operators

  const DefaultRoute: string := "__default__"

  /** The array routeSmsRecipients returns: numbers by gateway, and by ruleset name. */
  datatype Routing = Routing(routes: Table<string, Table<int, string>>, order: Table<string, Table<int, string>>)

  /** The state the loop carries: the routing so far and the numbers not yet routed. */
  datatype Progress = Progress(routing: Routing, pool: seq<string>)

  /** One turn of the loop: an enabled ruleset matches against the pool and files what it matched. */
  function Apply(st: Progress, rs: Ruleset, ctx: Context): Progress {
    if !rs.enabled then st
    else
      var m := Matched(st.pool, rs.rules, ctx);
      var rest := Diff(st.pool, m);
      if m == [] then Progress(st.routing, rest)
      else
        var prior := match Get(st.routing.routes, rs.gateway) case None => [] case Some(t) => t;
        Progress(
          Routing(Put(st.routing.routes, rs.gateway, Union(prior, m)), Put(st.routing.order, rs.name, m)),
          rest)
  }

  /** The loop over rulesets taken in the given order. */
  function ApplyAll(rulesets: seq<Ruleset>, recipients: seq<string>, ctx: Context): Progress
    decreases |rulesets|
  {
    if rulesets == [] then Progress(Routing([], []), recipients)
    else Apply(ApplyAll(rulesets[..|rulesets| - 1], recipients, ctx), rulesets[|rulesets| - 1], ctx)
  }

  /** After the loop: the remaining pool is filed under __default__ in routes and in order. */
  function Finish(st: Progress): Routing {
    Routing(
      Put(st.routing.routes, DefaultRoute, Indexed(st.pool)),
      Put(st.routing.order, DefaultRoute, Indexed(st.pool)))
  }

  /** The routing of a message's recipients by a list of rulesets. */
  function Route(rulesets: seq<Ruleset>, recipients: seq<string>, ctx: Context): Routing {
    Finish(ApplyAll(SortByWeight(rulesets), recipients, ctx))
  }

  /** routeSmsRecipients, with the rulesets and the message's recipients as inputs. */
  method RouteSmsRecipients(rulesets: seq<Ruleset>, recipients: seq<string>, ctx: Context)
    returns (routing: Routing)
    ensures routing == Route(rulesets, recipients, ctx)
  {
    var sorted := SortByWeight(rulesets);
    var routes: Table<string, Table<int, string>> := [];
    var order: Table<string, Table<int, string>> := [];
    var numbers := recipients;
    var i := 0;
    while i < |sorted|
      invariant 0 <= i <= |sorted|
      invariant Progress(Routing(routes, order), numbers) == ApplyAll(sorted[..i], recipients, ctx)
    {
      var rs := sorted[i];
      assert sorted[..i + 1][..i] == sorted[..i];
      if rs.enabled {
        var matches, rest := MatchRoute(rs.rules, numbers, ctx);
        numbers := rest;
        if matches != [] {
          var prior: Table<int, string> := [];
          var found := Get(routes, rs.gateway);
          if found.Some? {
            prior := found.value;
          }
          routes := Put(routes, rs.gateway, Union(prior, matches));
          order := Put(order, rs.name, matches);
        }
      }
      i := i + 1;
    }
    assert sorted[..i] == sorted;
    routes := Put(routes, DefaultRoute, Indexed(numbers));
    order := Put(order, DefaultRoute, Indexed(numbers));
    routing := Routing(routes, order);
  }

  // ---------------------------------------------------------------------
  // Properties of the router
  // ---------------------------------------------------------------------

  /** A ruleset that is disabled, or matches nothing, leaves routes and order as they were. */
  lemma Untouched(st: Progress, rs: Ruleset, ctx: Context)
    requires !rs.enabled || Matched(st.pool, rs.rules, ctx) == []
    ensures Apply(st, rs, ctx).routing == st.routing
    ensures !rs.enabled ==> Apply(st, rs, ctx).pool == st.pool
  {
  }

  /** A ruleset that matches files its matches under its name, and takes them out of the pool. */
  lemma OrderHoldsMatches(st: Progress, rs: Ruleset, ctx: Context)
    requires rs.enabled && Matched(st.pool, rs.rules, ctx) != []
    ensures Get(Apply(st, rs, ctx).routing.order, rs.name) == Some(Matched(st.pool, rs.rules, ctx))
    ensures forall x :: x in Apply(st, rs, ctx).pool <==>
      x in st.pool && x !in Numbers(Matched(st.pool, rs.rules, ctx))
  {
    var m := Matched(st.pool, rs.rules, ctx);
    PutGet(st.routing.order, rs.name, m, rs.name);
  }

  /** __default__ holds, in both arrays, the pool the last ruleset left. */
  lemma DefaultHoldsRest(rulesets: seq<Ruleset>, recipients: seq<string>, ctx: Context)
    ensures Get(Route(rulesets, recipients, ctx).routes, DefaultRoute) ==
      Some(Indexed(ApplyAll(SortByWeight(rulesets), recipients, ctx).pool))
    ensures Get(Route(rulesets, recipients, ctx).order, DefaultRoute) ==
      Some(Indexed(ApplyAll(SortByWeight(rulesets), recipients, ctx).pool))
  {
    var st := ApplyAll(SortByWeight(rulesets), recipients, ctx);
    PutGet(st.routing.routes, DefaultRoute, Indexed(st.pool), DefaultRoute);
    PutGet(st.routing.order, DefaultRoute, Indexed(st.pool), DefaultRoute);
  }

  /** Rulesets are applied lightest first, as a permutation of the list given. */
  lemma AppliedInWeightOrder(rulesets: seq<Ruleset>)
    ensures SortedByWeight(SortByWeight(rulesets))
    ensures multiset(SortByWeight(rulesets)) == multiset(rulesets)
  {
    SortSorted(rulesets);
  }

  /** Some route holds x. */
  ghost predicate Routed(routes: Table<string, Table<int, string>>, x: string) {
    exists i :: 0 <= i < |routes| && x in Numbers(routes[i].val)
  }

  function Gateways(rulesets: seq<Ruleset>): (gs: seq<string>)
    ensures |gs| == |rulesets|
    ensures forall i :: 0 <= i < |rulesets| ==> gs[i] == rulesets[i].gateway
  {
    seq(|rulesets|, i requires 0 <= i < |rulesets| => rulesets[i].gateway)
  }

  /** Every route is named after one of the gateways gs. */
  predicate KeysAmong(routes: Table<string, Table<int, string>>, gs: seq<string>) {
    forall i :: 0 <= i < |routes| ==> routes[i].key in gs
  }

  /** Every recipient is still in the pool or routed, and nothing else is. */
  ghost predicate Covers(recipients: seq<string>, pool: seq<string>, routes: Table<string, Table<int, string>>) {
    forall x :: x in recipients <==> x in pool || Routed(routes, x)
  }

  /** No routed number is still in the pool. */
  ghost predicate OutOfPool(routes: Table<string, Table<int, string>>, pool: seq<string>) {
    forall i, x :: 0 <= i < |routes| && x in Numbers(routes[i].val) ==> x !in pool
  }

  /** No number is in two routes. */
  ghost predicate Exclusive(routes: Table<string, Table<int, string>>) {
    forall i, j, x :: 0 <= i < j < |routes| && x in Numbers(routes[i].val) ==> x !in Numbers(routes[j].val)
  }

  /** What the loop keeps true when no two rulesets share a gateway: every recipient is in
      the pool or in exactly one route, and every route is named after a gateway seen so far. */
  ghost predicate Partitioned(st: Progress, recipients: seq<string>, done: seq<Ruleset>) {
    var routes := st.routing.routes;
    UniqueKeys(routes) && KeysAmong(routes, Gateways(done)) &&
    Covers(recipients, st.pool, routes) && OutOfPool(routes, st.pool) && Exclusive(routes)
  }

  lemma RoutedSnoc(routes: Table<string, Table<int, string>>, p: Pair<string, Table<int, string>>, x: string)
    ensures Routed(routes + [p], x) <==> Routed(routes, x) || x in Numbers(p.val)
  {
    var routes' := routes + [p];
    if Routed(routes', x) {
      var i :| 0 <= i < |routes'| && x in Numbers(routes'[i].val);
      if i < |routes| {
        assert routes'[i] == routes[i];
      }
    }
    if Routed(routes, x) {
      var i :| 0 <= i < |routes| && x in Numbers(routes[i].val);
      assert routes'[i] == routes[i];
    }
    if x in Numbers(p.val) {
      assert routes'[|routes|] == p;
    }
  }

  /** Filing the matches m, taken from pool, as a new route keeps the recipients covered. */
  lemma CoversSnoc(recipients: seq<string>, pool: seq<string>, rest: seq<string>,
                   routes: Table<string, Table<int, string>>, p: Pair<string, Table<int, string>>)
    requires Covers(recipients, pool, routes)
    requires forall x :: x in rest <==> x in pool && x !in Numbers(p.val)
    requires forall x :: x in Numbers(p.val) ==> x in pool
    ensures Covers(recipients, rest, routes + [p])
  {
    forall x ensures x in recipients <==> x in rest || Routed(routes + [p], x) {
      RoutedSnoc(routes, p, x);
    }
  }

  lemma OutOfPoolSnoc(routes: Table<string, Table<int, string>>, pool: seq<string>, rest: seq<string>,
                      p: Pair<string, Table<int, string>>)
    requires OutOfPool(routes, pool)
    requires forall x :: x in rest <==> x in pool && x !in Numbers(p.val)
    ensures OutOfPool(routes + [p], rest)
  {
    var routes' := routes + [p];
    forall i, x | 0 <= i < |routes'| && x in Numbers(routes'[i].val) ensures x !in rest {
      if i < |routes| {
        assert routes'[i] == routes[i];
      }
    }
  }

  lemma ExclusiveSnoc(routes: Table<string, Table<int, string>>, pool: seq<string>, p: Pair<string, Table<int, string>>)
    requires Exclusive(routes) && OutOfPool(routes, pool)
    requires forall x :: x in Numbers(p.val) ==> x in pool
    ensures Exclusive(routes + [p])
  {
    var routes' := routes + [p];
    forall i, j, x | 0 <= i < j < |routes'| && x in Numbers(routes'[i].val)
      ensures x !in Numbers(routes'[j].val)
    {
      assert routes'[i] == routes[i];
      if j < |routes| {
        assert routes'[j] == routes[j];
      }
    }
  }

  lemma KeysAmongSnoc(routes: Table<string, Table<int, string>>, done: seq<Ruleset>, rs: Ruleset, m: Table<int, string>)
    requires KeysAmong(routes, Gateways(done))
    ensures KeysAmong(routes + [Pair(rs.gateway, m)], Gateways(done + [rs]))
  {
    var routes' := routes + [Pair(rs.gateway, m)];
    forall i | 0 <= i < |routes'| ensures routes'[i].key in Gateways(done + [rs]) {
      if i < |routes| {
        assert routes'[i] == routes[i];
        var k :| 0 <= k < |done| && Gateways(done)[k] == routes[i].key;
        assert Gateways(done + [rs])[k] == routes[i].key;
      } else {
        assert Gateways(done + [rs])[|done|] == rs.gateway;
      }
    }
  }

  lemma KeysAmongGrow(routes: Table<string, Table<int, string>>, done: seq<Ruleset>, rs: Ruleset)
    requires KeysAmong(routes, Gateways(done))
    ensures KeysAmong(routes, Gateways(done + [rs]))
  {
    forall i | 0 <= i < |routes| ensures routes[i].key in Gateways(done + [rs]) {
      var k :| 0 <= k < |done| && Gateways(done)[k] == routes[i].key;
      assert Gateways(done + [rs])[k] == routes[i].key;
    }
  }

  /** A gateway that no ruleset seen so far names is not yet a route. */
  lemma FreshGateway(routes: Table<string, Table<int, string>>, gs: seq<string>, g: string)
    requires KeysAmong(routes, gs) && g !in gs
    ensures !HasKey(routes, g)
  {
    forall i | 0 <= i < |routes| ensures Keys(routes)[i] != g {
      assert routes[i].key in gs;
    }
  }

  /** One turn of the loop keeps the partition, when the ruleset's gateway is new. */
  lemma ApplyPartitioned(st: Progress, rs: Ruleset, ctx: Context, recipients: seq<string>, done: seq<Ruleset>)
    requires Partitioned(st, recipients, done)
    requires rs.gateway !in Gateways(done)
    ensures Partitioned(Apply(st, rs, ctx), recipients, done + [rs])
  {
    var routes := st.routing.routes;
    KeysAmongGrow(routes, done, rs);
    if rs.enabled {
      var m := Matched(st.pool, rs.rules, ctx);
      MatchPartitions(st.pool, rs.rules, ctx);
      if m == [] {
        DiffNothing(st.pool);
      } else {
        var rest := Diff(st.pool, m);
        var p := Pair(rs.gateway, m);
        FreshGateway(routes, Gateways(done), rs.gateway);
        UnionIntoEmpty(m);
        PutNew(routes, rs.gateway, m);
        assert Apply(st, rs, ctx) == Progress(Routing(routes + [p], Put(st.routing.order, rs.name, m)), rest);
        PutUnique(routes, rs.gateway, m);
        KeysAmongSnoc(routes, done, rs, m);
        CoversSnoc(recipients, st.pool, rest, routes, p);
        OutOfPoolSnoc(routes, st.pool, rest, p);
        ExclusiveSnoc(routes, st.pool, p);
      }
    }
  }

  lemma {:induction false} ApplyAllPartitioned(rulesets: seq<Ruleset>, recipients: seq<string>, ctx: Context)
    requires DistinctGateways(rulesets)
    ensures Partitioned(ApplyAll(rulesets, recipients, ctx), recipients, rulesets)
    decreases |rulesets|
  {
    if rulesets == [] {
      assert Covers(recipients, recipients, []);
    } else {
      var init := rulesets[..|rulesets| - 1];
      var last := rulesets[|rulesets| - 1];
      assert DistinctGateways(init);
      ApplyAllPartitioned(init, recipients, ctx);
      assert last.gateway !in Gateways(init) by {
        forall k | 0 <= k < |init| ensures Gateways(init)[k] != last.gateway {
          assert rulesets[k].gateway != rulesets[|rulesets| - 1].gateway;
        }
      }
      ApplyPartitioned(ApplyAll(init, recipients, ctx), last, ctx, recipients, init);
      assert init + [last] == rulesets;
    }
  }

  /**
   * When no two rulesets share a gateway and none is routed to __default__, every
   * recipient ends up in exactly one route and nothing else is routed.
   */
  lemma RoutesPartitionRecipients(rulesets: seq<Ruleset>, recipients: seq<string>, ctx: Context)
    requires DistinctGateways(rulesets)
    requires forall i :: 0 <= i < |rulesets| ==> rulesets[i].gateway != DefaultRoute
    ensures forall x :: x in recipients <==> Routed(Route(rulesets, recipients, ctx).routes, x)
    ensures Exclusive(Route(rulesets, recipients, ctx).routes)
  {
    var sorted := SortByWeight(rulesets);
    SortDistinct(rulesets);
    SortMembers(rulesets);
    ApplyAllPartitioned(sorted, recipients, ctx);
    var st := ApplyAll(sorted, recipients, ctx);
    var routes := st.routing.routes;
    assert DefaultRoute !in Gateways(sorted) by {
      forall k | 0 <= k < |sorted| ensures Gateways(sorted)[k] != DefaultRoute {
        assert sorted[k] in rulesets;
      }
    }
    FreshGateway(routes, Gateways(sorted), DefaultRoute);
    PutNew(routes, DefaultRoute, Indexed(st.pool));
    var p := Pair(DefaultRoute, Indexed(st.pool));
    assert Route(rulesets, recipients, ctx).routes == routes + [p];
    assert Numbers(p.val) == st.pool;
    CoversSnoc(recipients, st.pool, [], routes, p);
    ExclusiveSnoc(routes, st.pool, p);
    forall x ensures x in recipients <==> Routed(routes + [p], x) {
    }
  }

  /** Sorting the rulesets before handing them to the router changes nothing. */
  lemma PresortIrrelevant(rulesets: seq<Ruleset>, recipients: seq<string>, ctx: Context)
    ensures Route(SortByWeight(rulesets), recipients, ctx) == Route(rulesets, recipients, ctx)
  {
    SortSorted(rulesets);
    SortIdempotent(SortByWeight(rulesets));
  }

  /** The rule "number matches body" picks a out of [a, b] when only a matches, under key 0. */
  lemma PicksFirst(ctx: Context, rules: RuleArray, a: string, b: string, body: string)
    requires ctx.regex(body, a) && !ctx.regex(body, b) && a != b
    requires rules == RuleArray(true, [Pair("number", Rule("RX", false, body, "", false, ""))])
    ensures Matched([a, b], rules, ctx) == [Pair(0, a)]
    ensures Diff([a, b], Matched([a, b], rules, ctx)) == [b]
  {
    var pool := [a, b];
    NumberRegexRule(a, body, ctx);
    NumberRegexRule(b, body, ctx);
    PassingSingle(a, "number", "RX", false, body, ctx);
    PassingSingle(b, "number", "RX", false, body, ctx);
    PassingAppend([a], [b], "number", "RX", false, body, ctx);
    assert pool == [a] + [b];
    var sel := RuleMatches(pool, "number", "RX", false, body, ctx);
    assert sel == [a];
    var sels := AndSelections(pool, rules.entries, ctx);
    assert sels[0] == AndRuleMatches(pool, "number", rules.entries[0].val, ctx);
    assert sels == [sel];
    assert sels[..0] == [];
    var t := Indexed(pool);
    assert t == [Pair(0, a), Pair(1, b)];
    var m := [Pair(0, a)];
    assert IntersectAll(t, sels) == Intersect(t, sel);
    assert t[..1] == m;
    assert m[..0] == [];
    assert Intersect(m, sel) == m;
    assert Intersect(t, sel) == m;
    assert Numbers(m) == [a];
    assert pool[..1] == [a];
    assert Diff([a], m) == [];
  }

  /** A ruleset with no rules in AND mode takes the whole pool, under keys from 0. */
  lemma TakesRest(ctx: Context, x: string)
    ensures Matched([x], RuleArray(true, []), ctx) == [Pair(0, x)]
    ensures Diff([x], [Pair(0, x)]) == []
  {
    NoRules([x], true, ctx);
    assert Indexed([x]) == [Pair(0, x)];
    assert Numbers([Pair(0, x)]) == [x];
  }

  /** The first ruleset of the example files "1" under its gateway and leaves ["2"]. */
  lemma FirstStage(ctx: Context, first: Ruleset, recipients: seq<string>)
    requires recipients == ["1", "2"]
    requires ctx.regex("^1$", "1") && !ctx.regex("^1$", "2")
    requires first == Ruleset("first", 0.0, true, "gw", RuleArray(true, [Pair("number", Rule("RX", false, "^1$", "", false, ""))]))
    ensures ApplyAll([first], recipients, ctx) ==
      Progress(Routing([Pair("gw", [Pair(0, "1")])], [Pair("first", [Pair(0, "1")])]), ["2"])
  {
    assert [first][..0] == [];
    PicksFirst(ctx, first.rules, "1", "2", "^1$");
    var m1 := [Pair(0, "1")];
    assert Union([], m1) == m1;
  }

  /** The second ruleset of the example matches "2" under key 0, which the gateway already holds. */
  lemma SecondStage(ctx: Context, second: Ruleset, st: Progress)
    requires second == Ruleset("second", 1.0, true, "gw", RuleArray(true, []))
    requires st.routing.routes == [Pair("gw", [Pair(0, "1")])] && st.pool == ["2"]
    ensures Apply(st, second, ctx).routing.routes == [Pair("gw", [Pair(0, "1")])]
    ensures Apply(st, second, ctx).pool == []
  {
    TakesRest(ctx, "2");
    var m1 := [Pair(0, "1")];
    var m2 := [Pair(0, "2")];
    assert Get(st.routing.routes, "gw") == Some(m1);
    assert Keys(m1) == [0];
    assert m2[..0] == [];
    assert Union(m1, m2) == m1;
  }

  /** Two rulesets already in weight order are applied in that order. */
  lemma TwoInOrder(first: Ruleset, second: Ruleset, recipients: seq<string>, ctx: Context)
    requires first.weight <= second.weight
    ensures Route([first, second], recipients, ctx) ==
      Finish(Apply(ApplyAll([first], recipients, ctx), second, ctx))
  {
    var rulesets := [first, second];
    assert SortedByWeight(rulesets);
    SortIdempotent(rulesets);
    assert rulesets[..1] == [first];
  }

  /** Once the pool is empty, __default__ is filed with nothing after the other routes. */
  lemma FinishEmpty(st: Progress, m: Table<int, string>)
    requires st.routing.routes == [Pair("gw", m)] && st.pool == []
    ensures Finish(st).routes == [Pair("gw", m), Pair(DefaultRoute, [])]
  {
    assert Indexed(st.pool) == [];
    assert Keys(st.routing.routes) == ["gw"];
    PutNew(st.routing.routes, DefaultRoute, []);
  }

  /**
   * Two rulesets on one gateway: the first matches "1", the second "2", and both
   * come back under array key 0, so the += merge keeps "1" and drops "2", which
   * is then routed nowhere, not even to __default__.
   */
  lemma SharedGatewayLosesNumber(ctx: Context, first: Ruleset, second: Ruleset, recipients: seq<string>)
    requires recipients == ["1", "2"]
    requires ctx.regex("^1$", "1") && !ctx.regex("^1$", "2")
    requires first == Ruleset("first", 0.0, true, "gw", RuleArray(true, [Pair("number", Rule("RX", false, "^1$", "", false, ""))]))
    requires second == Ruleset("second", 1.0, true, "gw", RuleArray(true, []))
    ensures Route([first, second], recipients, ctx).routes == [Pair("gw", [Pair(0, "1")]), Pair(DefaultRoute, [])]
    ensures "2" in recipients && !Routed(Route([first, second], recipients, ctx).routes, "2")
  {
    TwoInOrder(first, second, recipients, ctx);
    FirstStage(ctx, first, recipients);
    var st1 := ApplyAll([first], recipients, ctx);
    SecondStage(ctx, second, st1);
    FinishEmpty(Apply(st1, second, ctx), [Pair(0, "1")]);
    OnlyOneRouted(Route([first, second], recipients, ctx).routes);
  }

  /** In the routes of the example, "2" is in no gateway's list. */
  lemma OnlyOneRouted(routes: Table<string, Table<int, string>>)
    requires routes == [Pair("gw", [Pair(0, "1")]), Pair(DefaultRoute, [])]
    ensures !Routed(routes, "2")
  {
    assert Numbers(routes[0].val) == ["1"];
    assert Numbers(routes[1].val) == [];
  }

  /** A number rule that only the pool's first number passes keeps that number alone. */
  lemma {:induction false} PassingOnlyFirst(pool: seq<string>, op: string, neg: bool, exp: string, ctx: Context)
    requires pool != [] && NumberPasses(pool[0], "number", op, neg, exp, ctx)
    requires forall i :: 1 <= i < |pool| ==> !NumberPasses(pool[i], "number", op, neg, exp, ctx)
    ensures Passing(pool, "number", op, neg, exp, ctx) == [pool[0]]
    decreases |pool|
  {
    var init := pool[..|pool| - 1];
    if |pool| == 1 {
      assert init == [];
    } else {
      PassingOnlyFirst(init, op, neg, exp, ctx);
    }
  }

  /** Intersecting with the first number alone keeps the first pair, where no other pair holds that number. */
  lemma {:induction false} IntersectKeepsFirst(t: Table<int, string>, x: string)
    requires t != [] && t[0].val == x
    requires forall i :: 1 <= i < |t| ==> t[i].val != x
    ensures Intersect(t, [x]) == [t[0]]
    decreases |t|
  {
    var init := t[..|t| - 1];
    if |t| == 1 {
      assert init == [];
    } else {
      IntersectKeepsFirst(init, x);
    }
  }

  /** Taking the pool's first number out, when it stands nowhere else, leaves the rest in order. */
  lemma {:induction false} DiffDropsFirst(pool: seq<string>, m: Table<int, string>)
    requires pool != [] && Numbers(m) == [pool[0]]
    requires forall i :: 1 <= i < |pool| ==> pool[i] != pool[0]
    ensures Diff(pool, m) == pool[1..]
    decreases |pool|
  {
    var init := pool[..|pool| - 1];
    if |pool| == 1 {
      assert init == [];
    } else {
      DiffDropsFirst(init, m);
      assert init[1..] + [pool[|pool| - 1]] == pool[1..];
    }
  }

  /** The one rule selects the pool's first number alone. */
  lemma SelectsOnlyFirst(entries: Table<string, Rule>, rule: Rule, nums: seq<string>, ctx: Context)
    requires entries == [Pair("number", rule)]
    requires nums != [] && Passing(nums, "number", rule.op, rule.neg, rule.exp, ctx) == [nums[0]]
    ensures AndSelections(nums, entries, ctx) == [[nums[0]]]
  {
    var sel := RuleMatches(nums, "number", rule.op, rule.neg, rule.exp, ctx);
    assert sel == [nums[0]];
    var sels := AndSelections(nums, entries, ctx);
    assert sels[0] == AndRuleMatches(nums, "number", rule, ctx);
  }

  /** Intersecting the keyed pool with its first number alone keeps key 0. */
  lemma IntersectsOnlyFirst(nums: seq<string>)
    requires nums != [] && forall i :: 1 <= i < |nums| ==> nums[i] != nums[0]
    ensures IntersectAll(Indexed(nums), [[nums[0]]]) == [Pair(0, nums[0])]
  {
    var t := Indexed(nums);
    var sels := [[nums[0]]];
    assert sels[..0] == [];
    assert IntersectAll(t, sels) == Intersect(t, [nums[0]]);
    IntersectKeepsFirst(t, nums[0]);
  }

  /** A number that passes differs from every number that does not. */
  lemma FirstDistinct(rule: Rule, nums: seq<string>, ctx: Context)
    requires nums != [] && NumberPasses(nums[0], "number", rule.op, rule.neg, rule.exp, ctx)
    requires forall i :: 1 <= i < |nums| ==> !NumberPasses(nums[i], "number", rule.op, rule.neg, rule.exp, ctx)
    ensures forall i :: 1 <= i < |nums| ==> nums[i] != nums[0]
  {
  }

  /** In AND mode, a lone selection of the first number matches it under key 0. */
  lemma MatchedFromSelection(rules: RuleArray, nums: seq<string>, ctx: Context)
    requires rules.allTrue
    requires nums != [] && forall i :: 1 <= i < |nums| ==> nums[i] != nums[0]
    requires AndSelections(nums, rules.entries, ctx) == [[nums[0]]]
    ensures Matched(nums, rules, ctx) == [Pair(0, nums[0])]
  {
    IntersectsOnlyFirst(nums);
  }

  /** The pool without its first number, when that number stands nowhere else. */
  lemma DiffFirstPair(nums: seq<string>)
    requires nums != [] && forall i :: 1 <= i < |nums| ==> nums[i] != nums[0]
    ensures Diff(nums, [Pair(0, nums[0])]) == nums[1..]
  {
    var m := [Pair(0, nums[0])];
    assert Numbers(m) == [nums[0]];
    DiffDropsFirst(nums, m);
  }

  /** An AND ruleset whose one number rule keeps the pool's first number alone. */
  lemma MatchedOnlyFirst(rules: RuleArray, rule: Rule, nums: seq<string>, ctx: Context)
    requires rules == RuleArray(true, [Pair("number", rule)])
    requires nums != [] && Passing(nums, "number", rule.op, rule.neg, rule.exp, ctx) == [nums[0]]
    requires forall i :: 1 <= i < |nums| ==> nums[i] != nums[0]
    ensures Matched(nums, rules, ctx) == [Pair(0, nums[0])]
    ensures Diff(nums, [Pair(0, nums[0])]) == nums[1..]
  {
    SelectsOnlyFirst(rules.entries, rule, nums, ctx);
    MatchedFromSelection(rules, nums, ctx);
    DiffFirstPair(nums);
  }

  /** A lone enabled ruleset that matches one number and leaves rest. */
  lemma LoneApply(rs: Ruleset, nums: seq<string>, m: Table<int, string>, rest: seq<string>, ctx: Context)
    requires rs.enabled && |m| == 1
    requires Matched(nums, rs.rules, ctx) == m && Diff(nums, m) == rest
    ensures ApplyAll([rs], nums, ctx).routing.routes == [Pair(rs.gateway, m)]
    ensures ApplyAll([rs], nums, ctx).pool == rest
  {
    assert [rs][..0] == [];
    UnionIntoEmpty(m);
  }

  /** After it, m stands under the gateway and rest under __default__. */
  lemma LoneRuleset(rs: Ruleset, nums: seq<string>, m: Table<int, string>, rest: seq<string>, ctx: Context)
    requires rs.enabled && rs.gateway != DefaultRoute && |m| == 1
    requires Matched(nums, rs.rules, ctx) == m && Diff(nums, m) == rest
    ensures Route([rs], nums, ctx).routes == [Pair(rs.gateway, m), Pair(DefaultRoute, Indexed(rest))]
  {
    assert SortByWeight([rs]) == [rs];
    LoneApply(rs, nums, m, rest, ctx);
    assert Keys([Pair(rs.gateway, m)]) == [rs.gateway];
    PutNew([Pair(rs.gateway, m)], DefaultRoute, Indexed(rest));
  }

  /**
   * A lone enabled ruleset in AND mode with one number rule that only the first
   * recipient passes: the gateway receives that recipient under key 0, and
   * __default__ all the others, keyed again from 0.
   */
  lemma OnlyFirstRouted(rs: Ruleset, rule: Rule, nums: seq<string>, ctx: Context)
    requires rs.enabled && rs.gateway != DefaultRoute
    requires rs.rules == RuleArray(true, [Pair("number", rule)])
    requires nums != [] && NumberPasses(nums[0], "number", rule.op, rule.neg, rule.exp, ctx)
    requires forall i :: 1 <= i < |nums| ==> !NumberPasses(nums[i], "number", rule.op, rule.neg, rule.exp, ctx)
    ensures Get(Route([rs], nums, ctx).routes, rs.gateway) == Some([Pair(0, nums[0])])
    ensures Get(Route([rs], nums, ctx).routes, DefaultRoute) == Some(Indexed(nums[1..]))
  {
    PassingOnlyFirst(nums, rule.op, rule.neg, rule.exp, ctx);
    FirstDistinct(rule, nums, ctx);
    MatchedOnlyFirst(rs.rules, rule, nums, ctx);
    LoneRuleset(rs, nums, [Pair(0, nums[0])], nums[1..], ctx);
  }

  /** A number rule passes a number exactly when its operator holds for the number itself. */
  lemma NumberRule(x: string, op: string, neg: bool, exp: string, ctx: Context)
    ensures NumberPasses(x, "number", op, neg, exp, ctx) == Operators.Evaluate(Operators.Str(x), op, exp, neg, ctx.regex)
  {
  }

  /** The number rule passes the numbers its operator holds for, and no others. */
  lemma NumberRuleOnFirst(rule: Rule, nums: seq<string>, ctx: Context)
    requires nums != [] && Operators.Evaluate(Operators.Str(nums[0]), rule.op, rule.exp, rule.neg, ctx.regex)
    requires forall i :: 1 <= i < |nums| ==> !Operators.Evaluate(Operators.Str(nums[i]), rule.op, rule.exp, rule.neg, ctx.regex)
    ensures NumberPasses(nums[0], "number", rule.op, rule.neg, rule.exp, ctx)
    ensures forall i :: 1 <= i < |nums| ==> !NumberPasses(nums[i], "number", rule.op, rule.neg, rule.exp, ctx)
  {
    NumberRule(nums[0], rule.op, rule.neg, rule.exp, ctx);
    forall i | 1 <= i < |nums| ensures !NumberPasses(nums[i], "number", rule.op, rule.neg, rule.exp, ctx) {
      NumberRule(nums[i], rule.op, rule.neg, rule.exp, ctx);
    }
  }

  lemma IndexedTail(nums: seq<string>)
    requires |nums| == 4
    ensures Indexed(nums[1..]) == [Pair(0, nums[1]), Pair(1, nums[2]), Pair(2, nums[3])]
  {
  }

  /** Three separate failures as one statement about the last three of four numbers. */
  lemma LastThreeFail(nums: seq<string>, op: string, exp: string, neg: bool, regex: Operators.Regex)
    requires |nums| == 4
    requires !Operators.Evaluate(Operators.Str(nums[1]), op, exp, neg, regex)
    requires !Operators.Evaluate(Operators.Str(nums[2]), op, exp, neg, regex)
    requires !Operators.Evaluate(Operators.Str(nums[3]), op, exp, neg, regex)
    ensures forall i :: 1 <= i < |nums| ==> !Operators.Evaluate(Operators.Str(nums[i]), op, exp, neg, regex)
  {
    forall i | 1 <= i < |nums|
      ensures !Operators.Evaluate(Operators.Str(nums[i]), op, exp, neg, regex)
    {
      assert i == 1 || i == 2 || i == 3;
    }
  }

  /** The rule of the cdma ruleset holds for the test's first number only. */
  lemma CdmaRule(rule: Rule, nums: seq<string>, ctx: Context)
    requires rule == Rule("LK", false, "234819%,234704%,234702%,234709%,234707%", "", false, "")
    requires nums == ["2348191234500", "2348101234500", "2348171234500", "2348031234500"]
    ensures Operators.Evaluate(Operators.Str(nums[0]), rule.op, rule.exp, rule.neg, ctx.regex)
    ensures forall i :: 1 <= i < |nums| ==> !Operators.Evaluate(Operators.Str(nums[i]), rule.op, rule.exp, rule.neg, ctx.regex)
  {
    Operators.CdmaNumbers(rule.exp, nums[0], nums[1], nums[2], nums[3], ctx.regex);
    LastThreeFail(nums, "LK", rule.exp, false, ctx.regex);
  }

  /** A ruleset on 42tele whose one number rule holds for the first of four numbers only. */
  lemma RoutedTo42tele(cdma: Ruleset, rule: Rule, nums: seq<string>, ctx: Context)
    requires cdma.enabled && cdma.gateway == "42tele" && cdma.rules == RuleArray(true, [Pair("number", rule)])
    requires |nums| == 4 && Operators.Evaluate(Operators.Str(nums[0]), rule.op, rule.exp, rule.neg, ctx.regex)
    requires forall i :: 1 <= i < |nums| ==> !Operators.Evaluate(Operators.Str(nums[i]), rule.op, rule.exp, rule.neg, ctx.regex)
    ensures Get(Route([cdma], nums, ctx).routes, "42tele") == Some([Pair(0, nums[0])])
    ensures Get(Route([cdma], nums, ctx).routes, DefaultRoute) == Some([Pair(0, nums[1]), Pair(1, nums[2]), Pair(2, nums[3])])
  {
    NumberRuleOnFirst(rule, nums, ctx);
    OnlyFirstRouted(cdma, rule, nums, ctx);
    IndexedTail(nums);
  }

  /**
   * The "cdma" ruleset of the kernel test: AND mode, the rule number LK
   * 234819%,234704%,234702%,234709%,234707%, gateway 42tele, weight -4. Of the
   * test's four numbers only 2348191234500 is routed to 42tele, under key 0; the
   * other three go to __default__.
   */
  lemma CdmaExample(cdma: Ruleset, nums: seq<string>, ctx: Context)
    requires cdma == Ruleset("cdma", -4.0, true, "42tele", RuleArray(true, [Pair("number",
      Rule("LK", false, "234819%,234704%,234702%,234709%,234707%", "", false, ""))]))
    requires nums == ["2348191234500", "2348101234500", "2348171234500", "2348031234500"]
    ensures Get(Route([cdma], nums, ctx).routes, "42tele") == Some([Pair(0, "2348191234500")])
    ensures Get(Route([cdma], nums, ctx).routes, DefaultRoute) ==
      Some([Pair(0, "2348101234500"), Pair(1, "2348171234500"), Pair(2, "2348031234500")])
  {
    var rule := cdma.rules.entries[0].val;
    CdmaRule(rule, nums, ctx);
    RoutedTo42tele(cdma, rule, nums, ctx);
  }
}
