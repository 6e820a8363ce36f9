/**
 * RuleBasedSmsProvider: the routing it asks for (routeMessage) and the merge
 * of the results the gateways hand back (mergeMessageResults).
 */
module Provider {
  import opened Options
  import opened Tables
  import opened RuleTypes
  import opened RouteMatch
  import opened Weights
  import opened Router

  // ---------------------------------------------------------------------
  // routeMessage
  // ---------------------------------------------------------------------

  /**
   * routeMessage: with advanced routing enabled, the rulesets sorted by weight
   * go to the router; otherwise every recipient goes to __default__. The
   * disabled branch builds no 'order' entry, held here as an empty table.
   */
  function RouteMessage(enabled: bool, rulesets: seq<Ruleset>, recipients: seq<string>, ctx: Context): Routing {
    if enabled then Route(SortByWeight(rulesets), recipients, ctx)
    else Routing([Pair(DefaultRoute, Indexed(recipients))], [])
  }

  /** With routing disabled there is one route, __default__, and it holds every recipient in order. */
  lemma RoutingDisabled(rulesets: seq<Ruleset>, recipients: seq<string>, ctx: Context)
    ensures Keys(RouteMessage(false, rulesets, recipients, ctx).routes) == [DefaultRoute]
    ensures Get(RouteMessage(false, rulesets, recipients, ctx).routes, DefaultRoute) == Some(Indexed(recipients))
    ensures Numbers(Indexed(recipients)) == recipients
  {
    var t := Indexed(recipients);
    assert Vals(t) == recipients;
  }

  /** With routing enabled the router is handed the rulesets as a permutation sorted by
      non-decreasing weight, and routes them as it would the unsorted list. */
  lemma RoutingEnabled(rulesets: seq<Ruleset>, recipients: seq<string>, ctx: Context)
    ensures SortedByWeight(SortByWeight(rulesets))
    ensures multiset(SortByWeight(rulesets)) == multiset(rulesets)
    ensures RouteMessage(true, rulesets, recipients, ctx) == Route(rulesets, recipients, ctx)
  {
    SortSorted(rulesets);
    PresortIrrelevant(rulesets, recipients, ctx);
  }

  // ---------------------------------------------------------------------
  // mergeMessageResults
  // ---------------------------------------------------------------------

  /** What one gateway send returns: status, balance, credits used, error message and the
      delivery report by recipient number. */
  datatype SmsResult = SmsResult(
    status: bool,
    balance: int,
    creditsUsed: int,
    errorMessage: string,
    report: Table<string, string>)

  /** The accumulator before the first result: statuses and-ed from true, credits summed from 0,
      reports united from the empty array. */
  const Start: SmsResult := SmsResult(true, 0, 0, "", [])

  /** One turn of the merge loop. */
  function MergeStep(acc: SmsResult, r: SmsResult): SmsResult {
    SmsResult(
      acc.status && r.status,
      r.balance,
      acc.creditsUsed + r.creditsUsed,
      r.errorMessage,
      Union(acc.report, r.report))
  }

  function Fold(results: seq<SmsResult>): SmsResult
    decreases |results|
  {
    if results == [] then Start
    else MergeStep(Fold(results[..|results| - 1]), results[|results| - 1])
  }

  /** The merged result; an empty list merges to the empty data array (None). */
  function Merge(results: seq<SmsResult>): (m: Option<SmsResult>)
    ensures m.None? <==> results == []
  {
    if results == [] then None else Some(Fold(results))
  }

  /** mergeMessageResults, with $data's keys set before the loop. */
  method MergeMessageResults(results: seq<SmsResult>) returns (data: Option<SmsResult>)
    ensures data == Merge(results)
  {
    var status, balance, credits, error := true, 0, 0, "";
    var report: Table<string, string> := [];
    var i := 0;
    while i < |results|
      invariant 0 <= i <= |results|
      invariant SmsResult(status, balance, credits, error, report) == Fold(results[..i])
    {
      var r := results[i];
      FoldSnoc(results, i);
      status := status && r.status;
      balance := r.balance;
      credits := credits + r.creditsUsed;
      error := r.errorMessage;
      report := Union(report, r.report);
      i := i + 1;
    }
    assert results[..i] == results;
    if i == 0 {
      data := None;
    } else {
      data := Some(SmsResult(status, balance, credits, error, report));
    }
  }

  lemma FoldSnoc(results: seq<SmsResult>, i: int)
    requires 0 <= i < |results|
    ensures Fold(results[..i + 1]) == MergeStep(Fold(results[..i]), results[i])
  {
    assert results[..i + 1][..i] == results[..i];
  }

  /** The credits of all results, added up front to back. */
  function TotalCredits(results: seq<SmsResult>): int
    decreases |results|
  {
    if results == [] then 0 else results[0].creditsUsed + TotalCredits(results[1..])
  }

  /** The report entry for number k in the first result whose report has one. */
  function FirstReport(results: seq<SmsResult>, k: string): Option<string>
    decreases |results|
  {
    if results == [] then None
    else match Get(results[0].report, k)
      case Some(v) => Some(v)
      case None => FirstReport(results[1..], k)
  }

  lemma {:induction false} TotalCreditsSnoc(results: seq<SmsResult>, r: SmsResult)
    ensures TotalCredits(results + [r]) == TotalCredits(results) + r.creditsUsed
    decreases |results|
  {
    if results != [] {
      assert (results + [r])[1..] == results[1..] + [r];
      TotalCreditsSnoc(results[1..], r);
    }
  }

  lemma {:induction false} FirstReportSnoc(results: seq<SmsResult>, r: SmsResult, k: string)
    ensures FirstReport(results + [r], k) ==
      if FirstReport(results, k).Some? then FirstReport(results, k) else Get(r.report, k)
    decreases |results|
  {
    if results == [] {
      assert [r][1..] == [];
    } else {
      assert (results + [r])[1..] == results[1..] + [r];
      FirstReportSnoc(results[1..], r, k);
    }
  }

  lemma {:induction false} FoldStatus(results: seq<SmsResult>)
    ensures Fold(results).status <==> forall i :: 0 <= i < |results| ==> results[i].status
    decreases |results|
  {
    if results != [] {
      var init := results[..|results| - 1];
      FoldStatus(init);
      assert forall i :: 0 <= i < |init| ==> init[i] == results[i];
    }
  }

  lemma {:induction false} FoldCredits(results: seq<SmsResult>)
    ensures Fold(results).creditsUsed == TotalCredits(results)
    decreases |results|
  {
    if results != [] {
      var init := results[..|results| - 1];
      var last := results[|results| - 1];
      FoldCredits(init);
      TotalCreditsSnoc(init, last);
      assert init + [last] == results;
    }
  }

  lemma {:induction false} FoldReport(results: seq<SmsResult>, k: string)
    ensures Get(Fold(results).report, k) == FirstReport(results, k)
    decreases |results|
  {
    if results != [] {
      var init := results[..|results| - 1];
      var last := results[|results| - 1];
      FoldReport(init, k);
      UnionGet(Fold(init).report, last.report, k);
      FirstReportSnoc(init, last, k);
      assert init + [last] == results;
    }
  }

  /** The merged status holds exactly when every result's status does. */
  lemma MergeStatus(results: seq<SmsResult>)
    requires results != []
    ensures Merge(results).value.status <==> forall i :: 0 <= i < |results| ==> results[i].status
  {
    FoldStatus(results);
  }

  /** Credits used are the sum over all results; balance and error message are the last result's. */
  lemma MergeCreditsAndLast(results: seq<SmsResult>)
    requires results != []
    ensures Merge(results).value.creditsUsed == TotalCredits(results)
    ensures Merge(results).value.balance == results[|results| - 1].balance
    ensures Merge(results).value.errorMessage == results[|results| - 1].errorMessage
  {
    FoldCredits(results);
  }

  /** The merged report is a key-union: each number's entry comes from the first result
      that reports on it, later results never overwrite it. */
  lemma MergeReport(results: seq<SmsResult>, k: string)
    requires results != []
    ensures Get(Merge(results).value.report, k) == FirstReport(results, k)
  {
    FoldReport(results, k);
  }

  // ---------------------------------------------------------------------
  // The loop as written: $data starts as an empty array
  // ---------------------------------------------------------------------

  /** $data as the loop leaves it, each key unset (None) until first assigned. */
  datatype Data = Data(
    status: Option<int>,
    balance: Option<int>,
    creditsUsed: Option<int>,
    errorMessage: Option<string>,
    report: Option<Table<string, string>>)

  const NoData: Data := Data(None, None, None, None, None)

  /** `$x &= $s` on a boolean status: an unset $x reads as null, that is 0. */
  function AndAssign(acc: Option<int>, s: bool): int {
    var a := if acc.None? then 0 else acc.value;
    if s then a % 2 else 0
  }

  /** `$x += $n` on a number: an unset $x reads as null, that is 0. */
  function AddAssign(acc: Option<int>, n: int): int {
    (if acc.None? then 0 else acc.value) + n
  }

  /** `$x += $t` on an array: null + array raises "Unsupported operand types" (None). */
  function UnionAssign(acc: Option<Table<string, string>>, t: Table<string, string>): Option<Table<string, string>> {
    if acc.None? then None else Some(Union(acc.value, t))
  }

  /** One turn of the loop as written; None when it raises. */
  function StepAsWritten(d: Data, r: SmsResult): Option<Data> {
    match UnionAssign(d.report, r.report)
    case None => None
    case Some(report) =>
      Some(Data(
        Some(AndAssign(d.status, r.status)),
        Some(r.balance),
        Some(AddAssign(d.creditsUsed, r.creditsUsed)),
        Some(r.errorMessage),
        Some(report)))
  }

  /** mergeMessageResults as written; None when the loop raises. */
  function MergeAsWritten(results: seq<SmsResult>): Option<Data>
    decreases |results|
  {
    if results == [] then Some(NoData)
    else
      match MergeAsWritten(results[..|results| - 1])
      case None => None
      case Some(d) => StepAsWritten(d, results[|results| - 1])
  }

  /** As written, merging any non-empty list raises on its first report. */
  lemma {:induction false} MergeAsWrittenRaises(results: seq<SmsResult>)
    requires results != []
    ensures MergeAsWritten(results) == None
    decreases |results|
  {
    var init := results[..|results| - 1];
    if init != [] {
      MergeAsWrittenRaises(init);
    }
  }

  /** The status key alone as the loop folds it with `&=` from unset. */
  function StatusAsWritten(statuses: seq<bool>): Option<int>
    decreases |statuses|
  {
    if statuses == [] then None
    else Some(AndAssign(StatusAsWritten(statuses[..|statuses| - 1]), statuses[|statuses| - 1]))
  }

  /** Folded with `&=` from unset, the status is 0 whatever the results say. */
  lemma {:induction false} StatusAsWrittenFalsy(statuses: seq<bool>)
    requires statuses != []
    ensures StatusAsWritten(statuses) == Some(0)
    decreases |statuses|
  {
    var init := statuses[..|statuses| - 1];
    if init != [] {
      StatusAsWrittenFalsy(init);
    }
  }

  /** A single successful result: as written the status is 0 and the merge raises; the
      merge that starts from true and [] reports success and the result's own report. */
  lemma OneSuccess(r: SmsResult, k: string)
    requires r.status
    ensures StatusAsWritten([r.status]) == Some(0)
    ensures MergeAsWritten([r]) == None
    ensures Merge([r]).value.status
    ensures Get(Merge([r]).value.report, k) == Get(r.report, k)
  {
    MergeStatus([r]);
    MergeReport([r], k);
    assert [r][1..] == [];
  }
}
