/**
 * The ruleset rule codec (AdvancedRouting::compactRulesetRules and
 * expandRulesetRules): a flag character for _ALL_TRUE_, then for every rule
 * `len(key) '.' key len(payload) '.' payload` with payload = op, a '1'/'0'
 * negation flag and the expression.
 *
 * Decoding reads the string with PHP's substr, strpos and intval (which reads
 * decimals and exponents, so "3.1e1" is 31) and never rejects its input: a
 * corrupted string decodes to whatever those calls make of it. The one input it cannot get past is a remainder that a round of the
 * loop hands back unchanged; the PHP loop then never ends, and the model
 * returns None.
 */
module Codec {
  import opened Options
  import opened Text
  import opened Tables
  import opened RouteMatch

  /** '1' for true, '0' for false, as ($x ? '1' : '0'). */
  function Flag(b: bool): (r: string)
    ensures |r| == 1 && (r[0] == '1' <==> b) && (Truthy(r) <==> b)
  {
    if b then "1" else "0"
  }

  /** The payload of one rule: op, the negation flag, then the expression. */
  function Payload(rule: Rule): string {
    rule.op + Flag(rule.neg) + rule.exp
  }

  /** One rule, length-prefixed key then length-prefixed payload. */
  function Segment(p: Pair<string, Rule>): (r: string)
    ensures |r| >= 4
  {
    NatToString(|p.key|) + "." + p.key + NatToString(|Payload(p.val)|) + "." + Payload(p.val)
  }

  function Segments(es: Table<string, Rule>): string
    decreases |es|
  {
    if es == [] then "" else Segment(es[0]) + Segments(es[1..])
  }

  /** What compactRulesetRules returns. */
  function Compacted(rules: RuleArray): (c: string)
    ensures |c| >= 1
    ensures c[0] == '1' <==> rules.allTrue
    ensures Truthy(c[..1]) <==> rules.allTrue
  {
    Flag(rules.allTrue) + Segments(rules.entries)
  }

  lemma {:induction false} SegmentsAppend(es: Table<string, Rule>, i: nat)
    requires i < |es|
    ensures Segments(es[..i + 1]) == Segments(es[..i]) + Segment(es[i])
    decreases i
  {
    if i == 0 {
      assert es[..1][1..] == [];
      assert es[..1][0] == es[0];
    } else {
      var tail := es[1..];
      assert es[..i + 1][1..] == tail[..i];
      assert es[..i][1..] == tail[..i - 1];
      assert es[..i + 1][0] == es[0] && es[..i][0] == es[0];
      assert tail[i - 1] == es[i];
      calc {
        Segments(es[..i + 1]);
        Segment(es[0]) + Segments(tail[..i]);
        { SegmentsAppend(tail, i - 1); }
        Segment(es[0]) + (Segments(tail[..i - 1]) + Segment(es[i]));
        Segment(es[0]) + Segments(tail[..i - 1]) + Segment(es[i]);
        Segments(es[..i]) + Segment(es[i]);
      }
    }
  }

  /** Appending the next rule's segment extends the compacted prefix by one rule. */
  lemma CompactStep(rules: RuleArray, i: nat)
    requires i < |rules.entries|
    ensures Flag(rules.allTrue) + Segments(rules.entries[..i]) + Segment(rules.entries[i]) ==
      Flag(rules.allTrue) + Segments(rules.entries[..i + 1])
  {
    SegmentsAppend(rules.entries, i);
    var before := Segments(rules.entries[..i]);
    assert Flag(rules.allTrue) + before + Segment(rules.entries[i]) ==
      Flag(rules.allTrue) + (before + Segment(rules.entries[i]));
  }

  /** compactRulesetRules: the flag, then one segment per rule in array order. */
  method CompactRulesetRules(rules: RuleArray) returns (compacted: string)
    ensures compacted == Compacted(rules)
  {
    compacted := if rules.allTrue then "1" else "0";
    var i := 0;
    while i < |rules.entries|
      invariant 0 <= i <= |rules.entries|
      invariant compacted == Flag(rules.allTrue) + Segments(rules.entries[..i])
    {
      var key := rules.entries[i].key;
      var rule := rules.entries[i].val;
      var s := rule.op + (if rule.neg then "1" else "0") + rule.exp;
      var segment := NatToString(|key|) + "." + key + NatToString(|s|) + "." + s;
      assert compacted + segment == Flag(rules.allTrue) + Segments(rules.entries[..i + 1]) by {
        assert segment == Segment(rules.entries[i]);
        CompactStep(rules, i);
      }
      compacted := compacted + segment;
      i := i + 1;
    }
    assert rules.entries[..i] == rules.entries;
  }

  // ---------------------------------------------------------------------
  // Decoding, one PHP local at a time
  // ---------------------------------------------------------------------

  /** A strpos result used as an integer: false counts as 0. */
  function AsPosition(p: Option<nat>): nat {
    match p
    case None => 0
    case Some(i) => i
  }

  /** $k_pos: the first '.', or 0 when there is none. */
  function KeyDot(c: string): (r: nat)
    requires c != []
    ensures r < |c|
  {
    AsPosition(StrPos(c, '.', 0))
  }

  /** $k_len: the number before the first '.'. */
  function KeyLen(c: string): int
    requires c != []
  {
    IntVal(Substr(c, 0, KeyDot(c)))
  }

  /** $s_pos: the first '.' after $k_pos, or 0 when there is none. */
  function PayloadDot(c: string): nat
    requires c != []
  {
    AsPosition(StrPos(c, '.', KeyDot(c) + 1))
  }

  /** $s_len: the number read from right after the key. */
  function PayloadLen(c: string): int
    requires c != []
  {
    LengthAfterKey(c, KeyDot(c), KeyLen(c), PayloadDot(c))
  }

  /** intval(substr($compacted, $k_pos + 1 + $k_len, $s_pos - $k_pos - 1)). */
  function LengthAfterKey(c: string, kPos: int, kLen: int, sPos: int): int {
    IntVal(Substr(c, kPos + 1 + kLen, sPos - kPos - 1))
  }

  /** What one round of the loop reads: a key, its rule, and the remainder. */
  datatype Decoded = Decoded(key: string, rule: Rule, rest: string)

  /** One round of expandRulesetRules' loop. The rule carries op, neg and exp only. */
  function Step(c: string): (d: Decoded)
    requires c != []
    ensures |d.rest| <= |c|
    ensures |d.rest| == |c| ==> d.rest == c
  {
    StepAt(c, KeyDot(c), KeyLen(c), PayloadDot(c), PayloadLen(c))
  }

  /** The round, given $k_pos, $k_len, $s_pos and $s_len: $key, the rule in $string, and
      the remainder. */
  function StepAt(c: string, kPos: int, kLen: int, sPos: int, sLen: int): (d: Decoded)
    ensures |d.rest| <= |c|
    ensures |d.rest| == |c| ==> d.rest == c
  {
    var rest := SubstrFrom(c, sPos + sLen + 1);
    Decoded(Substr(c, kPos + 1, kLen), RuleOf(Substr(c, sPos + 1, sLen)), rest)
  }

  /** The rule a payload holds: two characters of op, the negation flag, the rest as exp.
      The keys operator, negate and value are not set. */
  function RuleOf(payload: string): Rule {
    Rule(Substr(payload, 0, 2), Truthy(Substr(payload, 2, 1)), SubstrFrom(payload, 3), "", false, "")
  }

  /** $rules[$key] = array(...): an _ALL_TRUE_ key turns AND mode on (a non-empty array is
      truthy), any other key is set in the rules array. */
  function Store(acc: RuleArray, d: Decoded): RuleArray {
    if d.key == AllTrueKey then RuleArray(true, acc.entries)
    else RuleArray(acc.allTrue, Put(acc.entries, d.key, d.rule))
  }

  /** The loop `while ($compacted)`, from remainder c with the rules read so far; None when
      a round leaves the remainder as it was, so that the loop never ends. */
  function ExpandFrom(c: string, acc: RuleArray): Option<RuleArray>
    decreases |c|
  {
    if !Truthy(c) then Some(acc)
    else
      var d := Step(c);
      if |d.rest| >= |c| then None else ExpandFrom(d.rest, Store(acc, d))
  }

  /** What expandRulesetRules returns. */
  function Expanded(compacted: string): Option<RuleArray> {
    ExpandFrom(SubstrFrom(compacted, 1), RuleArray(Truthy(Substr(compacted, 0, 1)), []))
  }

  /** expandRulesetRules. */
  method ExpandRulesetRules(compacted: string) returns (r: Option<RuleArray>)
    ensures r == Expanded(compacted)
  {
    var rules := RuleArray(Truthy(Substr(compacted, 0, 1)), []);
    var c := SubstrFrom(compacted, 1);
    while Truthy(c)
      invariant ExpandFrom(c, rules) == Expanded(compacted)
      decreases |c|
    {
      // $k_pos, $k_len, $key, $s_pos, $s_len, $string, then $op, $neg and $exp
      var round := Step(c);
      var key, rule, next := round.key, round.rule, round.rest;
      if |next| >= |c| {
        // The next round would read the same string again: the PHP loop never ends.
        return None;
      }
      if key == AllTrueKey {
        rules := RuleArray(true, rules.entries);
      } else {
        rules := RuleArray(rules.allTrue, Put(rules.entries, key, rule));
      }
      c := next;
    }
    r := Some(rules);
  }

  // ---------------------------------------------------------------------
  // Properties of the codec
  // ---------------------------------------------------------------------

  /** A round that does not shorten the remainder hands it back unchanged, so every later
      round reads it again: this is the only way the decoder fails to return. */
  lemma NoProgressRepeats(c: string)
    requires Truthy(c) && |Step(c).rest| >= |c|
    ensures Step(c).rest == c && Step(Step(c).rest) == Step(c)
  {
  }

  /** Whatever string it is given, expand returns rules in the shape matchRoute reads:
      each key once, and _ALL_TRUE_ never among the rules. */
  lemma {:induction false} ExpandWellFormed(c: string, acc: RuleArray)
    requires WellFormed(acc)
    ensures ExpandFrom(c, acc).Some? ==> WellFormed(ExpandFrom(c, acc).value)
    decreases |c|
  {
    if Truthy(c) {
      var d := Step(c);
      if |d.rest| < |c| {
        var acc' := Store(acc, d);
        if d.key != AllTrueKey {
          PutUnique(acc.entries, d.key, d.rule);
        }
        ExpandWellFormed(d.rest, acc');
      }
    }
  }

  lemma ExpandedWellFormed(compacted: string)
    ensures Expanded(compacted).Some? ==> WellFormed(Expanded(compacted).value)
  {
    ExpandWellFormed(SubstrFrom(compacted, 1), RuleArray(Truthy(Substr(compacted, 0, 1)), []));
  }

  /** The operator codes of getOpTypes, the ones the ruleset forms offer. */
  predicate IsOpType(op: string) {
    op in {"EQ", "LT", "LE", "GT", "GE", "IN", "LK", "RX"}
  }

  /** An operator code has two characters, and no numeral continues into it: it starts with
      a letter, and the one starting with 'E' has no digit or sign after it. */
  lemma OpTypeShape(op: string)
    requires IsOpType(op)
    ensures |op| == 2 && !IsDigit(op[0])
    ensures op[0] == 'e' || op[0] == 'E' ==> !IsDigit(op[1]) && op[1] != '+' && op[1] != '-'
  {
  }

  /** The rules compactRulesetRules can encode faithfully: a key without '.', an operator code
      of getOpTypes, and none of the OR-branch keys set. */
  predicate Encodable(p: Pair<string, Rule>) {
    '.' !in p.key && IsOpType(p.val.op) && p.val.operator == "" && !p.val.negate && p.val.value == ""
  }

  predicate EncodableRules(rules: RuleArray) {
    WellFormed(rules) && forall i :: 0 <= i < |rules.entries| ==> Encodable(rules.entries[i])
  }

  lemma {:induction false} LeadingDigitsOf(d: string, t: string)
    requires forall i :: 0 <= i < |d| ==> IsDigit(d[i])
    requires t == [] || !IsDigit(t[0])
    ensures LeadingDigits(d + t) == d
    decreases |d|
  {
    if d != [] {
      assert (d + t)[1..] == d[1..] + t;
      LeadingDigitsOf(d[1..], t);
    } else {
      assert d + t == t;
    }
  }

  /** intval of a decimal numeral, alone or followed by a '.' that neither fraction digits nor
      an exponent follow, is that number. */
  lemma IntValOfNumeral(n: nat, t: string, s: string)
    requires t == [] || (t[0] == '.' && (|t| == 1 || !IsDigit(t[1])) && !StartsExponent(t[1..]))
    requires s == NatToString(n) + t
    ensures IntVal(s) == n
  {
    var d := NatToString(n);
    assert s[0] == d[0] && IsDigit(s[0]);
    assert !IsNumericSpace(s[0]);
    assert SkipSpace(s) == s;
    LeadingDigitsOf(d, t);
    DigitsOfNat(n);
    assert s[|d|..] == t;
    if t != [] {
      assert LeadingDigits(t[1..]) == [];
      assert t[1 + 0..] == t[1..];
      assert d + [] == d;
    }
  }

  /** Nothing at position i of c continues a numeral that ends in '.' just before it: no digit,
      and no 'e' or 'E' followed by a digit or a sign. */
  predicate NoNumberAt(c: string, i: nat) {
    i < |c| ==>
      !IsDigit(c[i]) &&
      ((c[i] != 'e' && c[i] != 'E') || i + 1 >= |c| || (!IsDigit(c[i + 1]) && c[i + 1] != '+' && c[i + 1] != '-'))
  }

  /** strpos finds the first occurrence at or after the offset. */
  lemma StrPosAt(s: string, c: char, offset: nat, p: nat)
    requires offset <= p < |s| && s[p] == c
    requires forall i :: offset <= i < p ==> s[i] != c
    ensures StrPos(s, c, offset) == Some(p)
  {
  }

  /** Where the pieces of a segment sit: the key's length, '.', the key, the payload's
      length, '.', the payload. */
  function FirstDot(p: Pair<string, Rule>): nat {
    |NatToString(|p.key|)|
  }

  function SecondDot(p: Pair<string, Rule>): nat {
    FirstDot(p) + 1 + |p.key| + |NatToString(|Payload(p.val)|)|
  }

  /** c holds segment p followed by rest, described slice by slice. */
  ghost predicate LaidOut(p: Pair<string, Rule>, rest: string, c: string) {
    |c| == SecondDot(p) + 1 + |Payload(p.val)| + |rest| &&
    c[..FirstDot(p)] == NatToString(|p.key|) && c[FirstDot(p)] == '.' &&
    c[FirstDot(p) + 1..FirstDot(p) + 1 + |p.key|] == p.key &&
    c[FirstDot(p) + 1 + |p.key|..SecondDot(p)] == NatToString(|Payload(p.val)|) &&
    c[SecondDot(p)] == '.' &&
    c[SecondDot(p) + 1..SecondDot(p) + 1 + |Payload(p.val)|] == Payload(p.val) &&
    c[SecondDot(p) + 1 + |Payload(p.val)|..] == rest
  }

  lemma SegmentLayout(p: Pair<string, Rule>, rest: string)
    ensures LaidOut(p, rest, Segment(p) + rest)
  {
    var d1, d2, payload := NatToString(|p.key|), NatToString(|Payload(p.val)|), Payload(p.val);
    Slices(d1, p.key, d2, payload, rest, Segment(p) + rest);
    assert FirstDot(p) == |d1|;
    assert SecondDot(p) == |d1| + 1 + |p.key| + |d2|;
  }

  /** The slices of a segment followed by more text, with its parts left abstract. */
  lemma Slices(d1: string, key: string, d2: string, payload: string, rest: string, c: string)
    requires c == d1 + "." + key + d2 + "." + payload + rest
    ensures var a := |d1|;
      var b := a + 1 + |key| + |d2|;
      |c| == b + 1 + |payload| + |rest| &&
      c[..a] == d1 && c[a] == '.' && c[a + 1..a + 1 + |key|] == key &&
      c[a + 1 + |key|..b] == d2 && c[b] == '.' &&
      c[b + 1..b + 1 + |payload|] == payload && c[b + 1 + |payload|..] == rest
  {
    assert c == d1 + (['.'] + (key + (d2 + (['.'] + (payload + rest)))));
  }

  /** intval reads the numeral written at c[start..end] when a '.' follows it, however far
      past the '.' the substring it is given runs, provided nothing after the '.' continues
      the numeral as a fraction or an exponent. */
  lemma ReadNumeral(c: string, start: nat, end: nat, len: int, n: nat)
    requires start <= end < |c| && c[start..end] == NatToString(n) && c[end] == '.'
    requires len >= end - start
    requires len > end - start ==> NoNumberAt(c, end + 1)
    ensures IntVal(Substr(c, start, len)) == n
  {
    var sub := Substr(c, start, len);
    var t := c[end..Min(start + len, |c|)];
    assert sub == c[start..end] + t;
    if t != [] && |t| >= 2 {
      assert t[1] == c[end + 1];
      assert |t| >= 3 ==> t[2] == c[end + 2];
    }
    IntValOfNumeral(n, t, sub);
  }

  /** No '.' before position `end`, from `start` on: the first '.' is at `end`. */
  lemma FirstDotAt(c: string, start: nat, end: nat)
    requires start <= end < |c| && c[end] == '.'
    requires '.' !in c[start..end]
    ensures StrPos(c, '.', start) == Some(end)
  {
    forall i | start <= i < end ensures c[i] != '.' {
      assert c[i] == c[start..end][i - start];
    }
  }

  /** $k_pos and $k_len are read back from the front of a segment. */
  lemma KeyOfSegment(p: Pair<string, Rule>, rest: string, c: string)
    requires LaidOut(p, rest, c)
    ensures KeyDot(c) == FirstDot(p)
    ensures KeyLen(c) == |p.key|
  {
    var a := FirstDot(p);
    FirstDotAt(c, 0, a);
    ReadNumeral(c, 0, a, a, |p.key|);
  }

  /** $s_pos is the '.' after the payload's length. */
  lemma PayloadDotOfSegment(p: Pair<string, Rule>, rest: string, c: string)
    requires Encodable(p) && LaidOut(p, rest, c)
    ensures PayloadDot(c) == SecondDot(p)
  {
    KeyOfSegment(p, rest, c);
    var a := FirstDot(p);
    var b := SecondDot(p);
    var k := a + 1 + |p.key|;
    forall i | a + 1 <= i < k ensures c[i] != '.' {
      assert c[i] == c[a + 1..k][i - a - 1];
    }
    forall i | k <= i < b ensures c[i] != '.' {
      assert c[i] == c[k..b][i - k];
    }
    StrPosAt(c, '.', a + 1, b);
  }

  /** $s_len: intval reads the payload's length and stops at the '.' after it. */
  lemma PayloadLenOfSegment(p: Pair<string, Rule>, rest: string, c: string)
    requires Encodable(p) && LaidOut(p, rest, c)
    ensures PayloadLen(c) == |Payload(p.val)|
  {
    KeyOfSegment(p, rest, c);
    PayloadDotOfSegment(p, rest, c);
    var a := FirstDot(p);
    var b := SecondDot(p);
    PayloadStartsWithOp(p, rest, c);
    ReadPayloadLength(c, a, |p.key|, b, |Payload(p.val)|);
  }

  /** The payload after the second '.' starts with an operator code, so no numeral runs on. */
  lemma PayloadStartsWithOp(p: Pair<string, Rule>, rest: string, c: string)
    requires Encodable(p) && LaidOut(p, rest, c)
    ensures NoNumberAt(c, SecondDot(p) + 1)
  {
    var b := SecondDot(p);
    var payload := Payload(p.val);
    OpTypeShape(p.val.op);
    assert payload == p.val.op + (Flag(p.val.neg) + p.val.exp);
    assert c[b + 1] == c[b + 1..b + 1 + |payload|][0] == payload[0] == p.val.op[0];
    assert c[b + 2] == c[b + 1..b + 1 + |payload|][1] == payload[1] == p.val.op[1];
  }

  lemma ReadPayloadLength(c: string, kPos: nat, kLen: nat, sPos: nat, n: nat)
    requires kPos + 1 + kLen <= sPos < |c| && c[sPos] == '.'
    requires c[kPos + 1 + kLen..sPos] == NatToString(n)
    requires NoNumberAt(c, sPos + 1)
    ensures LengthAfterKey(c, kPos, kLen, sPos) == n
  {
    var start := kPos + 1 + kLen;
    var len := sPos - kPos - 1;
    assert len >= sPos - start;
    ReadNumeral(c, start, sPos, len, n);
  }

  /** The rule a payload written by compactRulesetRules holds is the rule it was written from. */
  lemma RuleOfPayload(rule: Rule)
    requires |rule.op| == 2 && rule.operator == "" && !rule.negate && rule.value == ""
    ensures RuleOf(Payload(rule)) == rule
  {
    var s := Payload(rule);
    assert s == rule.op + (Flag(rule.neg) + rule.exp);
    assert Substr(s, 0, 2) == rule.op;
    assert Substr(s, 2, 1) == Flag(rule.neg);
    assert SubstrFrom(s, 3) == rule.exp;
  }

  /** One round of the loop reads a segment back: its key, its rule, and what follows. */
  lemma StepOfSegment(p: Pair<string, Rule>, rest: string, c: string)
    requires Encodable(p) && LaidOut(p, rest, c)
    ensures Step(c) == Decoded(p.key, p.val, rest)
  {
    OpTypeShape(p.val.op);
    RuleOfPayload(p.val);
    ReadSegmentAt(c, FirstDot(p), |p.key|, SecondDot(p), |Payload(p.val)|, p, rest);
    KeyOfSegment(p, rest, c);
    PayloadDotOfSegment(p, rest, c);
    PayloadLenOfSegment(p, rest, c);
  }

  lemma ReadSegmentAt(c: string, kPos: nat, kLen: nat, sPos: nat, sLen: nat, p: Pair<string, Rule>, rest: string)
    requires kPos + 1 + kLen <= sPos && sPos + 1 + sLen <= |c|
    requires c[kPos + 1..kPos + 1 + kLen] == p.key
    requires c[sPos + 1..sPos + 1 + sLen] == Payload(p.val)
    requires c[sPos + 1 + sLen..] == rest
    requires RuleOf(Payload(p.val)) == p.val
    ensures StepAt(c, kPos, kLen, sPos, sLen) == Decoded(p.key, p.val, rest)
  {
  }

  lemma {:induction false} ExpandSegments(es: Table<string, Rule>, acc: RuleArray)
    requires UniqueKeys(acc.entries + es)
    requires forall i :: 0 <= i < |es| ==> Encodable(es[i]) && es[i].key != AllTrueKey
    ensures ExpandFrom(Segments(es), acc) == Some(RuleArray(acc.allTrue, acc.entries + es))
    decreases |es|
  {
    if es == [] {
      assert acc.entries + es == acc.entries;
    } else {
      var p := es[0];
      SegmentLayout(p, Segments(es[1..]));
      StepOfSegment(p, Segments(es[1..]), Segments(es));
      var c := Segments(es);
      assert Truthy(c) by {
        assert |Segment(p)| >= 4;
      }
      assert !HasKey(acc.entries, p.key) by {
        forall i | 0 <= i < |acc.entries| ensures Keys(acc.entries)[i] != p.key {
          assert (acc.entries + es)[i] == acc.entries[i];
          assert (acc.entries + es)[|acc.entries|] == p;
        }
      }
      PutNew(acc.entries, p.key, p.val);
      var acc' := RuleArray(acc.allTrue, acc.entries + [p]);
      assert Store(acc, Step(c)) == acc';
      MoveFirst(acc.entries, es);
      ExpandSegments(es[1..], acc');
    }
  }

  lemma MoveFirst<T>(a: seq<T>, b: seq<T>)
    requires b != []
    ensures (a + [b[0]]) + b[1..] == a + b
  {
    assert b == [b[0]] + b[1..];
  }

  /**
   * The round trip: expanding what compactRulesetRules produced gives the rules back,
   * in the same order and with the same AND/OR flag.
   */
  lemma RoundTrip(rules: RuleArray)
    requires EncodableRules(rules)
    ensures Expanded(Compacted(rules)) == Some(rules)
  {
    var c := Compacted(rules);
    assert Substr(c, 0, 1) == Flag(rules.allTrue);
    assert SubstrFrom(c, 1) == Segments(rules.entries);
    assert forall i :: 0 <= i < |rules.entries| ==> rules.entries[i].key != AllTrueKey by {
      forall i | 0 <= i < |rules.entries| ensures rules.entries[i].key != AllTrueKey {
        assert Keys(rules.entries)[i] == rules.entries[i].key;
      }
    }
    assert [] + rules.entries == rules.entries;
    ExpandSegments(rules.entries, RuleArray(rules.allTrue, []));
  }
}
