/**
 * String primitives the PHP sources rely on: explode, str_replace on single
 * characters, trim, strtolower, PHP truthiness of strings and decimal digits.
 * Strings are sequences of single-byte characters; case folding is ASCII only.
 */
module Text {
  import opened Options

  /** Whitespace removed by PHP's trim() with its default character list. */
  predicate IsTrimmed(c: char) {
    c == ' ' || c == '\t' || c == '\n' || c == '\r' || c == '\0' || c == 11 as char
  }

  predicate IsDigit(c: char) { '0' <= c <= '9' }

  predicate IsLetter(c: char) { 'a' <= c <= 'z' || 'A' <= c <= 'Z' }

  /** A character of the class [a-zA-Z0-9]. */
  predicate IsAlnum(c: char) { IsLetter(c) || IsDigit(c) }

  /** ASCII lower-casing, as strtolower() and the /i regex flag do. */
  function Lower(c: char): (r: char)
    ensures IsLetter(c) ==> 'a' <= r <= 'z'
    ensures !('A' <= c <= 'Z') ==> r == c
  {
    if 'A' <= c <= 'Z' then (c as int + 32) as char else c
  }

  function LowerString(s: string): (r: string)
    ensures |r| == |s|
    ensures forall i :: 0 <= i < |s| ==> r[i] == Lower(s[i])
  {
    if s == [] then [] else [Lower(s[0])] + LowerString(s[1..])
  }

  /** PHP truthiness of a string: "" and "0" are false, every other string is true. */
  predicate Truthy(s: string) { s != "" && s != "0" }

  /** explode(d, s): the pieces of s between occurrences of d; never an empty list. */
  function Explode(d: char, s: string): (parts: seq<string>)
    ensures |parts| >= 1
    ensures d !in s ==> parts == [s]
  {
    if s == [] then [""]
    else
      var rest := Explode(d, s[1..]);
      if s[0] == d then [""] + rest
      else
        assert s == [s[0]] + s[1..];
        [[s[0]] + rest[0]] + rest[1..]
  }

  /** The first delimiter ends the first piece. */
  lemma {:induction false} ExplodeSplit(d: char, a: string, b: string)
    requires d !in a
    ensures Explode(d, a + [d] + b) == [a] + Explode(d, b)
    decreases |a|
  {
    var s := a + [d] + b;
    if a == [] {
      assert s[1..] == b;
    } else {
      assert s[1..] == a[1..] + [d] + b;
      ExplodeSplit(d, a[1..], b);
      assert [a[0]] + a[1..] == a;
    }
  }

  /** implode(d, parts), the inverse of Explode. */
  function Join(d: char, parts: seq<string>): string
    requires |parts| >= 1
  {
    if |parts| == 1 then parts[0] else parts[0] + [d] + Join(d, parts[1..])
  }

  /** implode undoes explode. */
  lemma {:induction false} ExplodeJoin(d: char, s: string)
    ensures Join(d, Explode(d, s)) == s
    decreases |s|
  {
    if s != [] {
      ExplodeJoin(d, s[1..]);
      var rest := Explode(d, s[1..]);
      if s[0] == d {
        assert Explode(d, s) == [""] + rest;
        assert s == [] + [d] + s[1..];
      } else {
        var parts := [[s[0]] + rest[0]] + rest[1..];
        assert Explode(d, s) == parts;
        assert s == [s[0]] + s[1..];
        if |rest| > 1 {
          assert parts[1..] == rest[1..];
        }
      }
    }
  }

  /** No piece of explode holds the delimiter. */
  lemma {:induction false} ExplodePieces(d: char, s: string)
    ensures forall i :: 0 <= i < |Explode(d, s)| ==> d !in Explode(d, s)[i]
    decreases |s|
  {
    if s != [] {
      ExplodePieces(d, s[1..]);
      var rest := Explode(d, s[1..]);
      if s[0] != d {
        var parts := [[s[0]] + rest[0]] + rest[1..];
        assert Explode(d, s) == parts;
        forall i | 0 <= i < |parts| ensures d !in parts[i] {
          if i == 0 {
            assert d !in rest[0];
          } else {
            assert parts[i] == rest[i];
          }
        }
      }
    }
  }

  /** str_replace(c, "", s): every occurrence of c removed. */
  function Remove(c: char, s: string): (r: string)
    ensures c !in r
    ensures c !in s ==> r == s
  {
    if s == [] then [] else (if s[0] == c then [] else [s[0]]) + Remove(c, s[1..])
  }

  /** str_replace(c, rep, s) for a single-character search string. */
  function Replace(c: char, rep: string, s: string): (r: string)
    ensures c !in s ==> r == s
  {
    if s == [] then [] else (if s[0] == c then rep else [s[0]]) + Replace(c, rep, s[1..])
  }

  /** Every character str_replace leaves behind comes from the replacement or is an unreplaced
      character of the subject. */
  lemma {:induction false} ReplaceChars(c: char, rep: string, s: string, x: char)
    ensures x in Replace(c, rep, s) ==> x in rep || (x in s && x != c)
    decreases |s|
  {
    if s != [] {
      ReplaceChars(c, rep, s[1..], x);
      assert Replace(c, rep, s) == (if s[0] == c then rep else [s[0]]) + Replace(c, rep, s[1..]);
    }
  }

  function TrimLeft(s: string): (r: string)
    ensures r == [] || !IsTrimmed(r[0])
    ensures |r| <= |s|
    ensures s == [] || !IsTrimmed(s[0]) ==> r == s
  {
    if s != [] && IsTrimmed(s[0]) then TrimLeft(s[1..]) else s
  }

  function TrimRight(s: string): (r: string)
    ensures r == [] || !IsTrimmed(r[|r| - 1])
    ensures |r| <= |s|
    ensures r != [] ==> r[0] == s[0]
    ensures s == [] || !IsTrimmed(s[|s| - 1]) ==> r == s
  {
    if s != [] && IsTrimmed(s[|s| - 1]) then TrimRight(s[..|s| - 1]) else s
  }

  /** trim(s): s without leading or trailing whitespace; a string with neither is unchanged. */
  function Trim(s: string): (r: string)
    ensures r == [] || (!IsTrimmed(r[0]) && !IsTrimmed(r[|r| - 1]))
    ensures |r| <= |s|
    ensures s == [] || (!IsTrimmed(s[0]) && !IsTrimmed(s[|s| - 1])) ==> r == s
  {
    TrimRight(TrimLeft(s))
  }

  /** The decimal digit string of a natural number, most significant digit first. */
  function NatToString(n: nat): (r: string)
    ensures |r| >= 1
    ensures forall i :: 0 <= i < |r| ==> IsDigit(r[i])
    decreases n
  {
    if n < 10 then [Digit(n)] else NatToString(n / 10) + [Digit(n % 10)]
  }

  function Digit(d: nat): (c: char)
    requires d < 10
    ensures IsDigit(c) && DigitValue(c) == d
  {
    ('0' as int + d) as char
  }

  function DigitValue(c: char): (d: nat)
    requires IsDigit(c)
    ensures d < 10
  {
    c as int - '0' as int
  }

  /** The value of a non-empty run of decimal digits. */
  function DigitsValue(s: string): nat
    requires forall i :: 0 <= i < |s| ==> IsDigit(s[i])
  {
    if s == [] then 0 else 10 * DigitsValue(s[..|s| - 1]) + DigitValue(s[|s| - 1])
  }

  lemma {:induction false} DigitsOfNat(n: nat)
    ensures DigitsValue(NatToString(n)) == n
    decreases n
  {
    var r := NatToString(n);
    if n >= 10 {
      DigitsOfNat(n / 10);
      assert r[..|r| - 1] == NatToString(n / 10);
    }
  }

  /** Decimal string of a PHP integer: a leading '-' for negative values. */
  function IntToString(n: int): (r: string)
    ensures |r| >= 1
  {
    if n < 0 then "-" + NatToString(-n) else NatToString(n)
  }
  function Min(a: int, b: int): int { if a <= b then a else b }

  /** substr(s, offset, length) of PHP 8: a negative offset counts from the end, a negative
      length leaves that many characters off the end, a start past the end gives "". */
  function Substr(s: string, offset: int, length: int): (r: string)
    ensures |r| <= |s|
    ensures 0 <= offset <= |s| && length >= 0 ==> r == s[offset..Min(offset + length, |s|)]
  {
    if offset > |s| then ""
    else
      var f := if offset >= 0 then offset else if -offset > |s| then 0 else |s| + offset;
      if length < 0 then (if |s| - f < -length then "" else s[f..|s| + length])
      else s[f..Min(f + length, |s|)]
  }

  /** substr(s, offset) of PHP 8, without a length: everything from the start on. */
  function SubstrFrom(s: string, offset: int): (r: string)
    ensures 0 <= offset <= |s| ==> r == s[offset..]
    ensures offset > |s| ==> r == ""
    ensures |r| <= |s| && r == s[|s| - |r|..]
  {
    if offset > |s| then ""
    else if offset >= 0 then s[offset..]
    else if -offset > |s| then s
    else s[|s| + offset..]
  }

  /** strpos(s, c, offset) for 0 <= offset <= |s|: the first position at or after offset
      holding c, or None (PHP's false). */
  function StrPos(s: string, c: char, offset: nat): (r: Option<nat>)
    requires offset <= |s|
    ensures r.Some? ==> offset <= r.value < |s| && s[r.value] == c
    ensures r.Some? ==> forall i :: offset <= i < r.value ==> s[i] != c
    ensures r.None? ==> forall i :: offset <= i < |s| ==> s[i] != c
    decreases |s| - offset
  {
    if offset == |s| then None
    else if s[offset] == c then Some(offset)
    else StrPos(s, c, offset + 1)
  }

  /** The longest prefix of s made of decimal digits. */
  function LeadingDigits(s: string): (r: string)
    ensures forall i :: 0 <= i < |r| ==> IsDigit(r[i])
    ensures |r| <= |s| && r == s[..|r|]
    ensures |r| < |s| ==> !IsDigit(s[|r|])
  {
    if s != [] && IsDigit(s[0]) then [s[0]] + LeadingDigits(s[1..]) else ""
  }

  /** Whitespace PHP skips before the digits of a numeric string. */
  predicate IsNumericSpace(c: char) {
    c == ' ' || c == '\t' || c == '\n' || c == '\r' || c == 11 as char || c == 12 as char
  }

  /** The string without its leading whitespace. */
  function SkipSpace(s: string): string {
    if s != [] && IsNumericSpace(s[0]) then SkipSpace(s[1..]) else s
  }

  /** An exponent, [eE][+-]?digits, at the front of r. */
  predicate StartsExponent(r: string) {
    |r| >= 2 && (r[0] == 'e' || r[0] == 'E') &&
    (IsDigit(r[1]) || (|r| >= 3 && (r[1] == '+' || r[1] == '-') && IsDigit(r[2])))
  }

  /** The value of the exponent at the front of r; 0 when there is none. */
  function Exponent(r: string): int {
    if !StartsExponent(r) then 0
    else if IsDigit(r[1]) then DigitsValue(LeadingDigits(r[1..]))
    else if r[1] == '-' then -(DigitsValue(LeadingDigits(r[2..])) as int)
    else DigitsValue(LeadingDigits(r[2..]))
  }

  /** m times ten to the e, truncated toward zero (one digit at a time). */
  function Scale(m: nat, e: int): (r: nat)
    ensures e == 0 ==> r == m
    decreases if e >= 0 then e else -e
  {
    if e == 0 then m
    else if e > 0 then Scale(10 * m, e - 1)
    else Scale(m / 10, e + 1)
  }

  /**
   * The unsigned number at the front of t, read as PHP reads a leading-numeric string
   * (digits, then an optional '.' with fraction digits, then an optional exponent) and
   * truncated toward zero; 0 when t does not start with a number.
   */
  function UnsignedValue(t: string): nat {
    var whole := LeadingDigits(t);
    var after := t[|whole|..];
    if after != [] && after[0] == '.' && (whole != [] || (|after| >= 2 && IsDigit(after[1]))) then
      var frac := LeadingDigits(after[1..]);
      Scale(DigitsValue(whole + frac), Exponent(after[1 + |frac|..]) - |frac|)
    else if whole == [] then 0
    else Scale(DigitsValue(whole), Exponent(after))
  }

  /** intval(s) of PHP 8: leading whitespace, an optional sign and the number that follows,
      decimal and exponent forms included; 0 when there is none. */
  function IntVal(s: string): int {
    var t := SkipSpace(s);
    if t != [] && t[0] == '-' then -(UnsignedValue(t[1..]) as int)
    else if t != [] && t[0] == '+' then UnsignedValue(t[1..])
    else UnsignedValue(t)
  }

  /** A decimal with an exponent is read whole: intval("3.1e1") is 31. */
  lemma IntValExponent(s: string)
    requires s == "3.1e1"
    ensures IntVal(s) == 31
  {
    assert SkipSpace(s) == s;
    assert LeadingDigits(s) == "3";
    var after := s[1..];
    assert LeadingDigits(after[1..]) == "1";
    var e := after[2..];
    assert e == "e1" && StartsExponent(e);
    assert LeadingDigits(e[1..]) == "1" && DigitsValue("1") == 1;
    assert Exponent(e) == 1;
    assert DigitsValue("3" + "1") == 31;
  }

  /** An 'E' that no digit follows is no exponent: intval("3.E") is 3. */
  lemma IntValNoExponent(s: string)
    requires s == "3.EQ"
    ensures IntVal(s) == 3
  {
    assert SkipSpace(s) == s;
    assert LeadingDigits(s) == "3";
    var after := s[1..];
    assert LeadingDigits(after[1..]) == "";
    assert !StartsExponent(after[1..]);
    assert DigitsValue("3" + "") == 3;
  }
}
