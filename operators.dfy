/**
 * The operator evaluator of the routing engine (AdvancedRouting::evaluateRule):
 * one scalar comparison, wildcard search or regex search, optionally negated.
 *
 * PHP's loose comparison is replaced by an explicit comparator: two operands
 * are compared as integers when both are numeric (an integer, or a string made
 * of an optional sign and decimal digits), and as strings, character code by
 * character code, otherwise (an integer is then written in decimal).
 */
module Operators {
  import opened Text
  import opened Pattern

  /** A value handed to the evaluator: a string, or the recipient count. */
  datatype Scalar = Str(s: string) | Int(n: int)

  datatype Operator = EQ | LT | LE | GT | GE | IN | LK | RX | Unknown

  /** regex(body, subject) stands for preg_match("/body/i", subject) == 1. */
  type Regex = (string, string) -> bool

  const OperatorCodes: set<string> := {"EQ", "LT", "LE", "GT", "GE", "IN", "LK", "RX"}

  /** The switch on the operator code; every other code falls through all cases. */
  function OperatorOf(op: string): (o: Operator)
    ensures o == Unknown <==> op !in OperatorCodes
  {
    if op == "EQ" then EQ
    else if op == "LT" then LT
    else if op == "LE" then LE
    else if op == "GT" then GT
    else if op == "GE" then GE
    else if op == "IN" then IN
    else if op == "LK" then LK
    else if op == "RX" then RX
    else Unknown
  }

  predicate AllDigits(s: string) { forall k :: 0 <= k < |s| ==> IsDigit(s[k]) }

  /** A numeric string of the model: an optional sign, then one or more decimal digits. */
  predicate IsNumeric(s: string) {
    if s != [] && (s[0] == '-' || s[0] == '+') then |s| >= 2 && AllDigits(s[1..])
    else s != [] && AllDigits(s)
  }

  function NumericValue(s: string): int
    requires IsNumeric(s)
  {
    if s[0] == '-' then -(DigitsValue(s[1..]) as int)
    else if s[0] == '+' then DigitsValue(s[1..])
    else DigitsValue(s)
  }

  /** The string PHP makes of a scalar when a string is needed. */
  function AsString(v: Scalar): string {
    match v
    case Str(s) => s
    case Int(n) => IntToString(n)
  }

  predicate IsNumericScalar(v: Scalar) {
    v.Int? || IsNumeric(v.s)
  }

  function ScalarValue(v: Scalar): int
    requires IsNumericScalar(v)
  {
    match v
    case Int(n) => n
    case Str(s) => NumericValue(s)
  }

  /** strcmp-like order on strings: by character code, a proper prefix first. */
  function LexCompare(a: string, b: string): (r: int)
    ensures -1 <= r <= 1
  {
    if a == [] && b == [] then 0
    else if a == [] then -1
    else if b == [] then 1
    else if a[0] < b[0] then -1
    else if a[0] > b[0] then 1
    else LexCompare(a[1..], b[1..])
  }

  function Sign(x: int): (r: int)
    ensures -1 <= r <= 1
  {
    if x < 0 then -1 else if x == 0 then 0 else 1
  }

  /** The comparator standing for PHP's ==, <, <=, >, >= between param and operand. */
  function Compare(param: Scalar, operand: string): (r: int)
    ensures -1 <= r <= 1
  {
    if IsNumericScalar(param) && IsNumeric(operand) then Sign(ScalarValue(param) - NumericValue(operand))
    else LexCompare(AsString(param), operand)
  }

  /** The IN/LK operand with spaces removed, split on commas. */
  function Operands(exp: string): seq<string> {
    Explode(',', Remove(' ', exp))
  }

  /** One IN/LK operand searched for in subject: patterns of the fragment are matched
      here, any other rewritten pattern goes to the regex predicate. */
  predicate WildcardFound(p: string, subject: string, regex: Regex) {
    var t := WildcardToRegex(p);
    if Simple(t) then Found(t, subject) else regex(t, subject)
  }

  /** Some operand of ps is found in subject. */
  predicate AnyWildcardFound(ps: seq<string>, subject: string, regex: Regex) {
    exists k :: 0 <= k < |ps| && WildcardFound(ps[k], subject, regex)
  }

  /** The outcome of the operator before negation; false for an unknown operator. */
  predicate Outcome(param: Scalar, op: string, exp: string, regex: Regex) {
    match OperatorOf(op)
    case EQ => Compare(param, exp) == 0
    case LT => Compare(param, exp) < 0
    case LE => Compare(param, exp) <= 0
    case GT => Compare(param, exp) > 0
    case GE => Compare(param, exp) >= 0
    case IN => AnyWildcardFound(Operands(exp), AsString(param), regex)
    case LK => AnyWildcardFound(Operands(exp), AsString(param), regex)
    case RX => regex(exp, AsString(param))
    case Unknown => false
  }

  /** evaluateRule: the outcome, inverted when neg is set. */
  predicate Evaluate(param: Scalar, op: string, exp: string, neg: bool, regex: Regex) {
    if neg then !Outcome(param, op, exp, regex) else Outcome(param, op, exp, regex)
  }

  /** evaluateRule, with the IN/LK loop that stops at the first operand found. */
  method EvaluateRule(param: Scalar, op: string, exp: string, neg: bool, regex: Regex) returns (r: bool)
    ensures r == Evaluate(param, op, exp, neg, regex)
  {
    var ret := false;
    var o := OperatorOf(op);
    match o {
      case EQ => ret := Compare(param, exp) == 0;
      case LT => ret := Compare(param, exp) < 0;
      case LE => ret := Compare(param, exp) <= 0;
      case GT => ret := Compare(param, exp) > 0;
      case GE => ret := Compare(param, exp) >= 0;
      case IN =>
        ret := AnyOperandFound(exp, AsString(param), regex);
      case LK =>
        ret := AnyOperandFound(exp, AsString(param), regex);
      case RX => ret := regex(exp, AsString(param));
      case Unknown =>
    }
    r := if neg then !ret else ret;
  }

  /** The foreach over the IN/LK operands with its early break. */
  method AnyOperandFound(exp: string, subject: string, regex: Regex) returns (ret: bool)
    ensures ret == AnyWildcardFound(Operands(exp), subject, regex)
  {
    ret := FirstFound(Operands(exp), subject, regex);
  }

  /** The loop itself: true as soon as one pattern is found, false when none is. */
  method FirstFound(patterns: seq<string>, subject: string, regex: Regex) returns (ret: bool)
    ensures ret == AnyWildcardFound(patterns, subject, regex)
  {
    ret := false;
    var i := 0;
    while i < |patterns| && !ret
      invariant 0 <= i <= |patterns|
      invariant ret == AnyWildcardFound(patterns[..i], subject, regex)
    {
      ret := WildcardFound(patterns[i], subject, regex);
      AnyFoundSnoc(patterns[..i], patterns[i], subject, regex);
      assert patterns[..i + 1] == patterns[..i] + [patterns[i]];
      i := i + 1;
    }
    if ret {
      AnyFoundPrefix(patterns, i, subject, regex);
    } else {
      assert patterns[..i] == patterns;
    }
  }

  lemma AnyFoundSnoc(ps: seq<string>, p: string, subject: string, regex: Regex)
    requires !AnyWildcardFound(ps, subject, regex)
    ensures AnyWildcardFound(ps + [p], subject, regex) == WildcardFound(p, subject, regex)
  {
    forall k | 0 <= k < |ps| ensures (ps + [p])[k] == ps[k] {
    }
    assert (ps + [p])[|ps|] == p;
  }

  lemma AnyFoundPrefix(ps: seq<string>, i: int, subject: string, regex: Regex)
    requires 0 <= i <= |ps| && AnyWildcardFound(ps[..i], subject, regex)
    ensures AnyWildcardFound(ps, subject, regex)
  {
    var k :| 0 <= k < i && WildcardFound(ps[..i][k], subject, regex);
    assert ps[..i][k] == ps[k];
  }

  // ---------------------------------------------------------------------
  // Properties of the evaluator
  // ---------------------------------------------------------------------

  /** Setting the negate flag inverts the result, whatever the operator. */
  lemma NegationInverts(param: Scalar, op: string, exp: string, regex: Regex)
    ensures Evaluate(param, op, exp, true, regex) == !Evaluate(param, op, exp, false, regex)
  {
  }

  /** An unrecognised operator is false, and true once negated ($ret starts false and is set). */
  lemma UnknownOperator(param: Scalar, op: string, exp: string, regex: Regex)
    requires op !in OperatorCodes
    ensures !Evaluate(param, op, exp, false, regex)
    ensures Evaluate(param, op, exp, true, regex)
  {
  }

  /** IN and LK share one branch. */
  lemma InIsLike(param: Scalar, exp: string, neg: bool, regex: Regex)
    ensures Evaluate(param, "IN", exp, neg, regex) == Evaluate(param, "LK", exp, neg, regex)
  {
    assert OperatorOf("IN") == IN && OperatorOf("LK") == LK;
  }

  lemma {:induction false} LexCompareZero(a: string, b: string)
    ensures LexCompare(a, b) == 0 <==> a == b
    decreases |a|
  {
    if a != [] && b != [] && a[0] == b[0] {
      LexCompareZero(a[1..], b[1..]);
      if a[1..] == b[1..] {
        assert a == [a[0]] + a[1..] && b == [b[0]] + b[1..];
      }
    }
  }

  lemma {:induction false} LexCompareAntisymmetric(a: string, b: string)
    ensures LexCompare(a, b) == -LexCompare(b, a)
    decreases |a|
  {
    if a != [] && b != [] && a[0] == b[0] {
      LexCompareAntisymmetric(a[1..], b[1..]);
    }
  }

  lemma {:induction false} LexCompareTransitive(a: string, b: string, c: string)
    requires LexCompare(a, b) < 0 && LexCompare(b, c) < 0
    ensures LexCompare(a, c) < 0
    decreases |a|
  {
    if a != [] && b != [] && c != [] && a[0] == b[0] && b[0] == c[0] {
      LexCompareTransitive(a[1..], b[1..], c[1..]);
    }
  }

  /** A value equals itself, so EQ with itself negated is false. */
  lemma EqualSelfNegated(x: string, regex: Regex)
    ensures !Evaluate(Str(x), "EQ", x, true, regex)
  {
    LexCompareZero(x, x);
  }

  /** Between strings that are not both numeric, negated EQ holds exactly when they differ. */
  lemma NotEqualNegated(x: string, y: string, regex: Regex)
    requires !(IsNumeric(x) && IsNumeric(y))
    ensures Evaluate(Str(x), "EQ", y, true, regex) <==> x != y
  {
    LexCompareZero(x, y);
  }

  /** The comparator is antisymmetric on strings: x < y exactly when y > x. */
  lemma CompareAntisymmetric(x: string, y: string)
    ensures Compare(Str(x), y) == -Compare(Str(y), x)
  {
    if !(IsNumeric(x) && IsNumeric(y)) {
      LexCompareAntisymmetric(x, y);
    }
  }

  /** LT and GE are complements, as are GT and LE. */
  lemma OrderComplements(param: Scalar, exp: string, neg: bool, regex: Regex)
    ensures Evaluate(param, "LT", exp, neg, regex) == Evaluate(param, "GE", exp, !neg, regex)
    ensures Evaluate(param, "GT", exp, neg, regex) == Evaluate(param, "LE", exp, !neg, regex)
  {
    assert OperatorOf("LT") == LT && OperatorOf("GE") == GE;
    assert OperatorOf("GT") == GT && OperatorOf("LE") == LE;
  }

  /** Glob matched somewhere in s: some slice of s matches p in full. */
  ghost predicate GlobSomewhere(p: string, s: string) {
    exists i, j :: 0 <= i <= j <= |s| && Glob(p, s[i..j])
  }

  /** One operand free of regex metacharacters is found exactly when its glob matches
      some slice of the subject. */
  lemma WildcardFoundIsGlob(p: string, s: string, regex: Regex)
    requires PlainWildcard(p)
    ensures WildcardFound(p, s, regex) <==> GlobSomewhere(p, s)
  {
    var t := WildcardToRegex(p);
    WildcardMeansGlob(p, []);
    FoundIff(t, s);
    forall i, j | 0 <= i <= j <= |s| ensures MatchHere(t, s[i..j]) <==> Glob(p, s[i..j]) {
      WildcardMeansGlob(p, s[i..j]);
    }
  }

  /** For operands free of regex metacharacters, IN/LK is an unanchored, case-insensitive
      glob search ('%' any run, '?' one character) that succeeds when some operand is found. */
  lemma LikeIsGlobSearch(param: Scalar, exp: string, regex: Regex)
    requires forall k :: 0 <= k < |Operands(exp)| ==> PlainWildcard(Operands(exp)[k])
    ensures Evaluate(param, "LK", exp, false, regex) <==>
      exists k :: 0 <= k < |Operands(exp)| && GlobSomewhere(Operands(exp)[k], AsString(param))
  {
    var ps := Operands(exp);
    var s := AsString(param);
    forall k | 0 <= k < |ps| ensures WildcardFound(ps[k], s, regex) <==> GlobSomewhere(ps[k], s) {
      WildcardFoundIsGlob(ps[k], s, regex);
    }
    assert Evaluate(param, "LK", exp, false, regex) == AnyWildcardFound(ps, s, regex);
  }

  /** A literal operand followed by '%' is a search for the literal followed by '.*'. */
  lemma LiteralPercentOperand(q: string, subject: string, regex: Regex)
    requires forall k :: 0 <= k < |q| ==> !IsMeta(q[k]) && q[k] !in "%? ,"
    ensures Operands(q + "%") == [q + "%"]
    ensures WildcardFound(q + "%", subject, regex) == Found(q + ".*", subject)
  {
    var p := q + "%";
    assert ' ' !in p && ',' !in p;
    assert '%' !in q && '?' !in q;
    TrailingPercent(q);
    assert Simple(".*");
    SimpleAfterLiteral(q, ".*");
  }

  /** A single LK operand: the result is whether that operand is found. */
  lemma SingleOperandLike(param: string, p: string, regex: Regex)
    requires Operands(p) == [p]
    ensures Evaluate(Str(param), "LK", p, false, regex) == WildcardFound(p, param, regex)
  {
    assert OperatorOf("LK") == LK;
    AnyFoundSingle(p, param, regex);
  }

  lemma AnyFoundSingle(p: string, subject: string, regex: Regex)
    ensures AnyWildcardFound([p], subject, regex) == WildcardFound(p, subject, regex)
  {
    assert [p][0] == p;
  }

  /** The matching case of LikeExample, stated over variables bound to the literals. */
  lemma LikeExampleHit(q: string, p: string, t: string, hit: string, regex: Regex)
    requires q == "234819" && p == "234819%" && t == "234819.*"
    requires hit == "2348191234500"
    ensures Evaluate(Str(hit), "LK", p, false, regex)
  {
    assert q + "%" == p && q + ".*" == t;
    PrefixFound(q, t, hit);
    LiteralPercentOperand(q, hit, regex);
    SingleOperandLike(hit, p, regex);
  }

  /** The operand's pattern occurs at the start of the matching number. */
  lemma PrefixFound(q: string, t: string, hit: string)
    requires q == "234819" && t == "234819.*" && hit == "2348191234500"
    ensures Found(t, hit)
  {
    assert q + ".*" == t;
    assert MatchPrefix(".*", hit[6..]);
    LiteralThenPrefix(q, ".*", hit);
    assert MatchPrefix(t, hit);
  }

  /** The failing case of LikeExample, stated over variables bound to the literals. */
  lemma LikeExampleMiss(q: string, p: string, t: string, miss: string, regex: Regex)
    requires q == "234819" && p == "234819%" && t == "234819.*"
    requires miss == "2348101234500"
    ensures !Evaluate(Str(miss), "LK", p, false, regex)
  {
    assert q + "%" == p && q + ".*" == t;
    NineNotFound(t, miss);
    LiteralPercentOperand(q, miss, regex);
    SingleOperandLike(miss, p, regex);
  }

  /** The operand's pattern needs a '9' that the failing number lacks. */
  lemma NineNotFound(t: string, miss: string)
    requires t == "234819.*" && miss == "2348101234500"
    ensures !Found(t, miss)
  {
    assert t[5] == '9' && '9' !in miss;
    if Found(t, miss) {
      FoundNeedsDigit(t, miss, '9');
    }
  }

  /** '234819%' finds 2348191234500 and not 2348101234500. */
  lemma LikeExample(regex: Regex)
    ensures Evaluate(Str("2348191234500"), "LK", "234819%", false, regex)
    ensures !Evaluate(Str("2348101234500"), "LK", "234819%", false, regex)
  {
    LikeExampleHit("234819", "234819%", "234819.*", "2348191234500", regex);
    LikeExampleMiss("234819", "234819%", "234819.*", "2348101234500", regex);
  }

  // The number rule of the "cdma" ruleset: LK with five prefixes.

  /** A run of digits is a literal operand: no metacharacter, wildcard, space or comma. */
  lemma DigitsArePlain(q: string)
    requires forall k :: 0 <= k < |q| ==> IsDigit(q[k])
    ensures forall k :: 0 <= k < |q| ==> !IsMeta(q[k]) && q[k] !in "%? ,"
  {
  }

  /** An operand made of digits then '%' is missed by a number lacking one of those digits. */
  lemma DigitOperandMiss(q: string, m: string, c: char, regex: Regex)
    requires forall k :: 0 <= k < |q| ==> IsDigit(q[k])
    requires c in q && c !in m
    ensures !WildcardFound(q + "%", m, regex)
  {
    DigitsArePlain(q);
    LiteralPercentOperand(q, m, regex);
    var t := q + ".*";
    assert c in t;
    if Found(t, m) {
      FoundNeedsDigit(t, m, c);
    }
  }

  /** Such an operand is also missed by a number in which its first four digits stand nowhere. */
  lemma HeadOperandMiss(q: string, m: string, regex: Regex)
    requires |q| >= 4 && forall k :: 0 <= k < |q| ==> IsDigit(q[k])
    requires forall i :: 0 <= i <= |m| ==> !LiteralAt(q[..4], m[i..])
    ensures !WildcardFound(q + "%", m, regex)
  {
    DigitsArePlain(q);
    LiteralPercentOperand(q, m, regex);
    var t := q + ".*";
    assert t == q[..4] + (q[4..] + ".*");
    if Found(t, m) {
      FoundLiteral(q[..4], q[4..] + ".*", m);
    }
  }

  /** An LK rule without negation fails when none of its operands is found. */
  lemma LikeNoneFound(exp: string, m: string, regex: Regex)
    requires !AnyWildcardFound(Operands(exp), m, regex)
    ensures !Evaluate(Str(m), "LK", exp, false, regex)
  {
    assert OperatorOf("LK") == LK;
  }

  /** An LK rule without negation holds when one of its operands is found. */
  lemma LikeSomeFound(exp: string, m: string, k: int, regex: Regex)
    requires 0 <= k < |Operands(exp)| && WildcardFound(Operands(exp)[k], m, regex)
    ensures Evaluate(Str(m), "LK", exp, false, regex)
  {
    assert OperatorOf("LK") == LK;
  }

  /** Five pieces joined by commas explode back into the five pieces. */
  lemma ExplodeFive(a: string, b: string, c: string, d: string, e: string)
    requires ',' !in a && ',' !in b && ',' !in c && ',' !in d && ',' !in e
    ensures Explode(',', a + [','] + (b + [','] + (c + [','] + (d + [','] + e)))) == [a, b, c, d, e]
  {
    var t3 := d + [','] + e;
    ExplodeSplit(',', d, e);
    assert Explode(',', t3) == [d, e];
    var t2 := c + [','] + t3;
    ExplodeSplit(',', c, t3);
    assert Explode(',', t2) == [c, d, e];
    var t1 := b + [','] + t2;
    ExplodeSplit(',', b, t2);
    assert Explode(',', t1) == [b, c, d, e];
    ExplodeSplit(',', a, t1);
  }

  lemma NoSpaceFive(a: string, b: string, c: string, d: string, e: string)
    requires ' ' !in a && ' ' !in b && ' ' !in c && ' ' !in d && ' ' !in e
    ensures ' ' !in a + [','] + (b + [','] + (c + [','] + (d + [','] + e)))
  {
  }

  /** The cdma expression is its five prefixes joined by commas. */
  lemma CdmaPieces(exp: string, a: string, b: string, c: string, d: string, e: string)
    requires exp == "234819%,234704%,234702%,234709%,234707%"
    requires a == "234819%" && b == "234704%" && c == "234702%" && d == "234709%" && e == "234707%"
    ensures exp == a + [','] + (b + [','] + (c + [','] + (d + [','] + e)))
  {
  }

  lemma CdmaPiecesPlain(a: string, b: string, c: string, d: string, e: string)
    requires a == "234819%" && b == "234704%" && c == "234702%" && d == "234709%" && e == "234707%"
    ensures ',' !in a && ',' !in b && ',' !in c && ',' !in d && ',' !in e
    ensures ' ' !in a && ' ' !in b && ' ' !in c && ' ' !in d && ' ' !in e
  {
  }

  /** The operands of the cdma ruleset's number rule are its five prefixes, in order. */
  lemma CdmaOperands(exp: string, a: string, b: string, c: string, d: string, e: string)
    requires exp == "234819%,234704%,234702%,234709%,234707%"
    requires a == "234819%" && b == "234704%" && c == "234702%" && d == "234709%" && e == "234707%"
    ensures Operands(exp) == [a, b, c, d, e]
  {
    CdmaPieces(exp, a, b, c, d, e);
    CdmaPiecesPlain(a, b, c, d, e);
    NoSpaceFive(a, b, c, d, e);
    ExplodeFive(a, b, c, d, e);
  }

  /** A number that starts with 234819 has the first operand's prefix. */
  lemma StartFound(q: string, m: string, regex: Regex)
    requires q == "234819" && |m| >= 6 && m[..6] == q
    ensures WildcardFound(q + "%", m, regex)
  {
    DigitsArePlain(q);
    LiteralPercentOperand(q, m, regex);
    assert MatchPrefix(".*", m[6..]);
    LiteralThenPrefix(q, ".*", m);
  }

  /** The cdma rule holds for every number that starts with 234819. */
  lemma CdmaHit(exp: string, m: string, regex: Regex)
    requires exp == "234819%,234704%,234702%,234709%,234707%"
    requires |m| >= 6 && m[..6] == "234819"
    ensures Evaluate(Str(m), "LK", exp, false, regex)
  {
    var q := "234819";
    var ops := [q + "%", "234704%", "234702%", "234709%", "234707%"];
    CdmaOperands(exp, ops[0], ops[1], ops[2], ops[3], ops[4]);
    StartFound(q, m, regex);
    LikeSomeFound(exp, m, 0, regex);
  }

  /** Where 2347 stands nowhere in a number, no operand 2347dd% is found in it. */
  lemma SevenOperandMiss(q: string, m: string, regex: Regex)
    requires |q| == 6 && q[..4] == "2347" && IsDigit(q[4]) && IsDigit(q[5])
    requires forall i :: 0 <= i <= |m| ==> !LiteralAt("2347", m[i..])
    ensures !WildcardFound(q + "%", m, regex)
  {
    assert forall k :: 0 <= k < 4 ==> q[k] == q[..4][k];
    HeadOperandMiss(q, m, regex);
  }

  /** An operand 2347dd% joins the operands already missed in a number where 2347 stands nowhere. */
  lemma SevenSnoc(ps: seq<string>, p: string, m: string, regex: Regex)
    requires !AnyWildcardFound(ps, m, regex)
    requires |p| == 7 && p[..4] == "2347" && IsDigit(p[4]) && IsDigit(p[5]) && p[6] == '%'
    requires forall i :: 0 <= i <= |m| ==> !LiteralAt("2347", m[i..])
    ensures !AnyWildcardFound(ps + [p], m, regex)
  {
    var q := p[..6];
    assert p == q + "%" && q[..4] == p[..4];
    SevenOperandMiss(q, m, regex);
    AnyFoundSnoc(ps, p, m, regex);
  }

  /** The operand 234819% is missed in a number without a '9'. */
  lemma NineFirst(p: string, m: string, regex: Regex)
    requires p == "234819%" && '9' !in m
    ensures !AnyWildcardFound([p], m, regex)
  {
    var q := "234819";
    assert p == q + "%" && '9' in q;
    DigitOperandMiss(q, m, '9', regex);
    AnyFoundSingle(p, m, regex);
  }

  /** Operands shaped as the cdma rule's are all missed in a number without '9' or 2347. */
  lemma FiveMiss(exp: string, ops: seq<string>, m: string, regex: Regex)
    requires Operands(exp) == ops && |ops| == 5
    requires ops[0] == "234819%"
    requires forall k :: 1 <= k < 5 ==> |ops[k]| == 7 && ops[k][..4] == "2347" && IsDigit(ops[k][4]) && IsDigit(ops[k][5]) && ops[k][6] == '%'
    requires '9' !in m
    requires forall i :: 0 <= i <= |m| ==> !LiteralAt("2347", m[i..])
    ensures !Evaluate(Str(m), "LK", exp, false, regex)
  {
    NineFirst(ops[0], m, regex);
    SevenSnoc(ops[..1], ops[1], m, regex);
    assert ops[..1] + [ops[1]] == ops[..2];
    SevenSnoc(ops[..2], ops[2], m, regex);
    assert ops[..2] + [ops[2]] == ops[..3];
    SevenSnoc(ops[..3], ops[3], m, regex);
    assert ops[..3] + [ops[3]] == ops[..4];
    SevenSnoc(ops[..4], ops[4], m, regex);
    assert ops[..4] + [ops[4]] == ops;
    LikeNoneFound(exp, m, regex);
  }

  lemma CdmaOperandsMiss(exp: string, m: string, regex: Regex)
    requires Operands(exp) == ["234819%", "234704%", "234702%", "234709%", "234707%"]
    requires '9' !in m
    requires forall i :: 0 <= i <= |m| ==> !LiteralAt("2347", m[i..])
    ensures !Evaluate(Str(m), "LK", exp, false, regex)
  {
    FiveMiss(exp, Operands(exp), m, regex);
  }

  /**
   * The cdma rule fails for every number without a '9' in which 2347 stands
   * nowhere: the first operand needs its '9', the other four their 2347.
   */
  lemma CdmaMiss(exp: string, m: string, regex: Regex)
    requires exp == "234819%,234704%,234702%,234709%,234707%"
    requires '9' !in m
    requires forall i :: 0 <= i <= |m| ==> !LiteralAt("2347", m[i..])
    ensures !Evaluate(Str(m), "LK", exp, false, regex)
  {
    CdmaOperands(exp, "234819%", "234704%", "234702%", "234709%", "234707%");
    CdmaOperandsMiss(exp, m, regex);
  }

  /** A number without a '7' holds 2347 nowhere. */
  lemma NoSevenNo2347(m: string)
    requires '7' !in m
    ensures forall i :: 0 <= i <= |m| ==> !LiteralAt("2347", m[i..])
  {
    forall i | 0 <= i <= |m| ensures !LiteralAt("2347", m[i..]) {
      if i + 4 <= |m| {
        DigitLetter('7', m[i + 3]);
        assert m[i..][3] == m[i + 3];
      }
    }
  }

  /** 2347 stands nowhere in 2348171234500, though its '7' does. */
  lemma NoLiteral2347(s: string)
    requires s == "2348171234500"
    ensures forall i :: 0 <= i <= |s| ==> !LiteralAt("2347", s[i..])
  {
    forall i | 0 <= i <= |s| ensures !LiteralAt("2347", s[i..]) {
      if i + 4 <= |s| {
        var u := s[i..];
        DigitLetter('4', u[2]);
        DigitLetter('7', u[3]);
        assert u[2] == s[i + 2] && u[3] == s[i + 3];
        if i < 2 {
          assert s[i + 3] != '7';
        } else if i == 2 {
          assert s[i + 2] != '4';
        } else {
          assert 3 <= i <= 9;
          assert s[i + 3] != '7';
        }
      }
    }
  }

  /** A number with neither a 9 nor a 7 misses every operand of the cdma rule. */
  lemma CdmaNoSevenMiss(exp: string, m: string, regex: Regex)
    requires exp == "234819%,234704%,234702%,234709%,234707%"
    requires '9' !in m && '7' !in m
    ensures !Evaluate(Str(m), "LK", exp, false, regex)
  {
    NoSevenNo2347(m);
    CdmaMiss(exp, m, regex);
  }

  /** The test's third number has a 7 but not after 234, and no 9. */
  lemma CdmaThirdMiss(exp: string, m: string, regex: Regex)
    requires exp == "234819%,234704%,234702%,234709%,234707%"
    requires m == "2348171234500"
    ensures !Evaluate(Str(m), "LK", exp, false, regex)
  {
    assert '9' !in m;
    NoLiteral2347(m);
    CdmaMiss(exp, m, regex);
  }

  /** The test's first number starts with the first operand's prefix. */
  lemma CdmaFirstHit(exp: string, m: string, regex: Regex)
    requires exp == "234819%,234704%,234702%,234709%,234707%"
    requires m == "2348191234500"
    ensures Evaluate(Str(m), "LK", exp, false, regex)
  {
    assert m[..6] == "234819";
    CdmaHit(exp, m, regex);
  }

  /** The test's second and fourth numbers hold neither a 9 nor a 7. */
  lemma CdmaPlainMiss(exp: string, m: string, regex: Regex)
    requires exp == "234819%,234704%,234702%,234709%,234707%"
    requires m == "2348101234500" || m == "2348031234500"
    ensures !Evaluate(Str(m), "LK", exp, false, regex)
  {
    assert '9' !in m && '7' !in m;
    CdmaNoSevenMiss(exp, m, regex);
  }

  /** The test's four numbers against the cdma rule: only the first passes. */
  lemma CdmaNumbers(exp: string, n0: string, n1: string, n2: string, n3: string, regex: Regex)
    requires exp == "234819%,234704%,234702%,234709%,234707%"
    requires n0 == "2348191234500" && n1 == "2348101234500" && n2 == "2348171234500" && n3 == "2348031234500"
    ensures Evaluate(Str(n0), "LK", exp, false, regex)
    ensures !Evaluate(Str(n1), "LK", exp, false, regex)
    ensures !Evaluate(Str(n2), "LK", exp, false, regex)
    ensures !Evaluate(Str(n3), "LK", exp, false, regex)
  {
    CdmaFirstHit(exp, n0, regex);
    CdmaPlainMiss(exp, n1, regex);
    CdmaThirdMiss(exp, n2, regex);
    CdmaPlainMiss(exp, n3, regex);
  }
}
