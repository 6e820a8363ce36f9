/**
 * One routing rule applied to the pool of recipient numbers
 * (AdvancedRouting::matchRuleType). Rules on the message as a whole keep or
 * drop the entire pool; rules on a recipient filter it number by number.
 */
module RuleTypes {
  import opened Text
  import opened Operators

  /**
   * What a rule can look at besides the numbers: the current user's name, the
   * message's sender id, the country-code lookup of the SMS framework and the
   * regex engine. Each stands for a call the model cannot see.
   */
  datatype Context = Context(
    userName: string,
    sender: string,
    countryCode: string -> string,
    regex: Regex)

  /** Rule types evaluated once for the whole pool. */
  predicate MessageScoped(ruleType: string) {
    ruleType == "user" || ruleType == "sender" || ruleType == "count"
  }

  /** Rule types evaluated on every number. */
  predicate RecipientScoped(ruleType: string) {
    ruleType == "country" || ruleType == "number" || ruleType == "area"
  }

  /** The value a message-scoped rule evaluates; count is the size of the pool it is given. */
  function MessageParam(ruleType: string, pool: seq<string>, ctx: Context): Scalar
    requires MessageScoped(ruleType)
  {
    if ruleType == "user" then Str(ctx.userName)
    else if ruleType == "sender" then Str(ctx.sender)
    else Int(|pool|)
  }

  /** The area code: at most three characters right after the number's country code. */
  function AreaCode(number: string, ctx: Context): (r: string)
    ensures |r| <= 3
    ensures |ctx.countryCode(number)| <= |number| ==>
      r == number[|ctx.countryCode(number)|..Min(|ctx.countryCode(number)| + 3, |number|)]
  {
    Substr(number, |ctx.countryCode(number)|, 3)
  }

  /** Whether one number passes a recipient-scoped rule; no number passes a rule of another type. */
  predicate NumberPasses(number: string, ruleType: string, op: string, neg: bool, exp: string, ctx: Context) {
    if ruleType == "country" then Evaluate(Str(ctx.countryCode(number)), op, exp, neg, ctx.regex)
    else if ruleType == "number" then Evaluate(Str(number), op, exp, neg, ctx.regex)
    else if ruleType == "area" then Evaluate(Str(AreaCode(number, ctx)), op, exp, neg, ctx.regex)
    else false
  }

  /** The numbers of pool that pass, in pool order. */
  function Passing(pool: seq<string>, ruleType: string, op: string, neg: bool, exp: string, ctx: Context): (r: seq<string>)
    ensures |r| <= |pool|
    ensures !RecipientScoped(ruleType) ==> r == []
  {
    if pool == [] then []
    else
      var init := pool[..|pool| - 1];
      var last := pool[|pool| - 1];
      Passing(init, ruleType, op, neg, exp, ctx) +
        (if NumberPasses(last, ruleType, op, neg, exp, ctx) then [last] else [])
  }

  /** A number is kept exactly when it is in the pool and passes. */
  lemma {:induction false} PassingIff(pool: seq<string>, ruleType: string, op: string, neg: bool, exp: string, ctx: Context, x: string)
    ensures x in Passing(pool, ruleType, op, neg, exp, ctx) <==> x in pool && NumberPasses(x, ruleType, op, neg, exp, ctx)
    decreases |pool|
  {
    if pool != [] {
      var init := pool[..|pool| - 1];
      assert pool == init + [pool[|pool| - 1]];
      PassingIff(init, ruleType, op, neg, exp, ctx, x);
    }
  }

  /** matchRuleType: the subset of pool that the rule selects. */
  function RuleMatches(pool: seq<string>, ruleType: string, op: string, neg: bool, exp: string, ctx: Context): (r: seq<string>)
    ensures MessageScoped(ruleType) ==> r == pool || r == []
    ensures !MessageScoped(ruleType) && !RecipientScoped(ruleType) ==> r == []
  {
    if MessageScoped(ruleType) then
      if Evaluate(MessageParam(ruleType, pool, ctx), op, exp, neg, ctx.regex) then pool else []
    else
      Passing(pool, ruleType, op, neg, exp, ctx)
  }

  /** A message-scoped rule hands back the entire pool when it holds and nothing otherwise;
      count is judged on the size of the pool it is given. */
  lemma MessageRule(pool: seq<string>, ruleType: string, op: string, neg: bool, exp: string, ctx: Context)
    requires MessageScoped(ruleType) && pool != []
    ensures RuleMatches(pool, ruleType, op, neg, exp, ctx) == pool <==>
      Evaluate(MessageParam(ruleType, pool, ctx), op, exp, neg, ctx.regex)
    ensures RuleMatches(pool, ruleType, op, neg, exp, ctx) != pool ==> RuleMatches(pool, ruleType, op, neg, exp, ctx) == []
    ensures ruleType == "count" ==> MessageParam(ruleType, pool, ctx) == Int(|pool|)
  {
  }

  /** A recipient-scoped rule keeps, in pool order, the numbers that individually pass;
      a rule of an unknown type keeps nothing. */
  lemma RecipientRule(pool: seq<string>, ruleType: string, op: string, neg: bool, exp: string, ctx: Context, x: string)
    requires !MessageScoped(ruleType)
    ensures x in RuleMatches(pool, ruleType, op, neg, exp, ctx) <==>
      x in pool && RecipientScoped(ruleType) && NumberPasses(x, ruleType, op, neg, exp, ctx)
  {
    PassingIff(pool, ruleType, op, neg, exp, ctx, x);
  }

  /** Whatever rule is applied, it selects numbers of the pool only. */
  lemma RuleMatchesFromPool(pool: seq<string>, ruleType: string, op: string, neg: bool, exp: string, ctx: Context, x: string)
    requires x in RuleMatches(pool, ruleType, op, neg, exp, ctx)
    ensures x in pool
  {
    if !MessageScoped(ruleType) {
      PassingIff(pool, ruleType, op, neg, exp, ctx, x);
    }
  }

  /** matchRuleType: a message-scoped rule is evaluated once, any other rule per number. */
  method MatchRuleType(numbers: seq<string>, ruleType: string, op: string, neg: bool, exp: string, ctx: Context)
    returns (r: seq<string>)
    ensures r == RuleMatches(numbers, ruleType, op, neg, exp, ctx)
  {
    if ruleType == "user" || ruleType == "sender" || ruleType == "count" {
      var param := if ruleType == "user" then Str(ctx.userName)
        else if ruleType == "sender" then Str(ctx.sender)
        else Int(|numbers|);
      var ok := EvaluateRule(param, op, exp, neg, ctx.regex);
      r := if ok then numbers else [];
    } else {
      r := CollectPassing(numbers, ruleType, op, neg, exp, ctx);
    }
  }

  /** The foreach of matchRuleType that appends each passing number to $return_numbers. */
  method CollectPassing(numbers: seq<string>, ruleType: string, op: string, neg: bool, exp: string, ctx: Context)
    returns (r: seq<string>)
    ensures r == Passing(numbers, ruleType, op, neg, exp, ctx)
  {
    r := [];
    var k := 0;
    while k < |numbers|
      invariant 0 <= k <= |numbers|
      invariant r == Passing(numbers[..k], ruleType, op, neg, exp, ctx)
    {
      var number := numbers[k];
      var ok := false;
      if ruleType == "country" {
        ok := EvaluateRule(Str(ctx.countryCode(number)), op, exp, neg, ctx.regex);
      } else if ruleType == "number" {
        ok := EvaluateRule(Str(number), op, exp, neg, ctx.regex);
      } else if ruleType == "area" {
        ok := EvaluateRule(Str(Substr(number, |ctx.countryCode(number)|, 3)), op, exp, neg, ctx.regex);
      }
      assert ok == NumberPasses(number, ruleType, op, neg, exp, ctx);
      ghost var before := numbers[..k];
      assert numbers[..k + 1] == before + [number];
      PassingAppend(before, [number], ruleType, op, neg, exp, ctx);
      PassingSingle(number, ruleType, op, neg, exp, ctx);
      if ok {
        r := r + [number];
      }
      assert r == Passing(before + [number], ruleType, op, neg, exp, ctx);
      k := k + 1;
    }
    assert numbers[..k] == numbers;
  }

  /** Passing keeps pool order: it is the pool with the failing numbers taken out, so
      splitting the pool splits the result. */
  lemma {:induction false} PassingAppend(a: seq<string>, b: seq<string>, ruleType: string, op: string, neg: bool, exp: string, ctx: Context)
    ensures Passing(a + b, ruleType, op, neg, exp, ctx) ==
      Passing(a, ruleType, op, neg, exp, ctx) + Passing(b, ruleType, op, neg, exp, ctx)
    decreases |b|
  {
    if b == [] {
      assert a + b == a;
    } else {
      var init := b[..|b| - 1];
      assert (a + b)[..|a + b| - 1] == a + init;
      PassingAppend(a, init, ruleType, op, neg, exp, ctx);
    }
  }

  /** A number that passes and is kept alone is kept alone: the filter is pointwise. */
  lemma PassingSingle(x: string, ruleType: string, op: string, neg: bool, exp: string, ctx: Context)
    ensures Passing([x], ruleType, op, neg, exp, ctx) ==
      (if NumberPasses(x, ruleType, op, neg, exp, ctx) then [x] else [])
  {
    assert [x][..0] == [];
  }

  /** A number rule with operator RX and no negation keeps exactly the numbers the regex matches. */
  lemma NumberRegexRule(x: string, body: string, ctx: Context)
    ensures NumberPasses(x, "number", "RX", false, body, ctx) == ctx.regex(body, x)
  {
    assert OperatorOf("RX") == RX;
  }
}
