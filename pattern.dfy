/**
 * The fragment of PCRE that the wildcard operators produce: literal
 * characters, '.' (any character but a newline) and '.*' (any run of such
 * characters), matched case-insensitively as with the /i flag.
 *
 * A pattern outside this fragment (one holding any other regex
 * metacharacter) is not interpreted here: callers hand it to an abstract
 * regex predicate instead.
 */
module Pattern {
  import opened Text

  /** Characters with a meaning of their own in a PCRE pattern (or the '/' delimiter). */
  predicate IsMeta(c: char) {
    c in "\\^$.[]|()?*+{}/" || c == '\0'
  }

  /** The pattern lies in the fragment: every '*' follows a '.', no other metacharacter. */
  predicate Simple(t: string)
    decreases |t|
  {
    if t == [] then true
    else if |t| >= 2 && t[0] == '.' && t[1] == '*' then Simple(t[2..])
    else if t[0] == '.' then Simple(t[1..])
    else !IsMeta(t[0]) && Simple(t[1..])
  }

  predicate SameLetter(a: char, b: char) { Lower(a) == Lower(b) }

  /** t matches the whole of s. */
  predicate MatchHere(t: string, s: string)
    decreases |t| + |s|
  {
    if t == [] then s == []
    else if |t| >= 2 && t[0] == '.' && t[1] == '*' then
      MatchHere(t[2..], s) || (s != [] && s[0] != '\n' && MatchHere(t, s[1..]))
    else if t[0] == '.' then s != [] && s[0] != '\n' && MatchHere(t[1..], s[1..])
    else s != [] && SameLetter(t[0], s[0]) && MatchHere(t[1..], s[1..])
  }

  /** t matches some prefix of s. */
  predicate MatchPrefix(t: string, s: string)
    decreases |t| + |s|
  {
    if t == [] then true
    else if |t| >= 2 && t[0] == '.' && t[1] == '*' then
      MatchPrefix(t[2..], s) || (s != [] && s[0] != '\n' && MatchPrefix(t, s[1..]))
    else if t[0] == '.' then s != [] && s[0] != '\n' && MatchPrefix(t[1..], s[1..])
    else s != [] && SameLetter(t[0], s[0]) && MatchPrefix(t[1..], s[1..])
  }

  /** Unanchored search, as preg_match("/t/i", s) performs it. */
  predicate Found(t: string, s: string)
    decreases |s|
  {
    MatchPrefix(t, s) || (s != [] && Found(t, s[1..]))
  }

  lemma {:induction false} MatchPrefixIff(t: string, s: string)
    ensures MatchPrefix(t, s) <==> exists j :: 0 <= j <= |s| && MatchHere(t, s[..j])
    decreases |t| + |s|
  {
    if t == [] {
      assert MatchHere(t, s[..0]);
    } else if |t| >= 2 && t[0] == '.' && t[1] == '*' {
      MatchPrefixIff(t[2..], s);
      if s != [] {
        MatchPrefixIff(t, s[1..]);
        forall j | 1 <= j <= |s| ensures s[..j][1..] == s[1..][..j - 1] { }
        if MatchPrefix(t, s) {
          if MatchPrefix(t[2..], s) {
            var j :| 0 <= j <= |s| && MatchHere(t[2..], s[..j]);
            assert MatchHere(t, s[..j]);
          } else {
            var j :| 0 <= j <= |s[1..]| && MatchHere(t, s[1..][..j]);
            assert s[..j + 1][0] == s[0];
            assert MatchHere(t, s[..j + 1]);
          }
        }
        if exists j :: 0 <= j <= |s| && MatchHere(t, s[..j]) {
          var j :| 0 <= j <= |s| && MatchHere(t, s[..j]);
          if !MatchHere(t[2..], s[..j]) {
            assert j >= 1 && MatchHere(t, s[..j][1..]);
            assert MatchHere(t, s[1..][..j - 1]);
          }
        }
      } else {
        forall j | 0 <= j <= |s| ensures s[..j] == [] { }
      }
    } else {
      if s != [] {
        MatchPrefixIff(t[1..], s[1..]);
        forall j | 1 <= j <= |s| ensures s[..j][1..] == s[1..][..j - 1] { }
        if MatchPrefix(t, s) {
          var j :| 0 <= j <= |s[1..]| && MatchHere(t[1..], s[1..][..j]);
          assert s[..j + 1][0] == s[0];
          assert MatchHere(t, s[..j + 1]);
        }
        if exists j :: 0 <= j <= |s| && MatchHere(t, s[..j]) {
          var j :| 0 <= j <= |s| && MatchHere(t, s[..j]);
          assert j >= 1;
          assert MatchHere(t[1..], s[1..][..j - 1]);
        }
      } else {
        forall j | 0 <= j <= |s| ensures s[..j] == [] { }
      }
    }
  }

  /** Found is the unanchored search: some slice of s is matched in full. */
  lemma {:induction false} FoundIff(t: string, s: string)
    ensures Found(t, s) <==> exists i, j :: 0 <= i <= j <= |s| && MatchHere(t, s[i..j])
    decreases |s|
  {
    MatchPrefixIff(t, s);
    if s != [] {
      FoundIff(t, s[1..]);
      if Found(t, s) {
        if MatchPrefix(t, s) {
          var j :| 0 <= j <= |s| && MatchHere(t, s[..j]);
          assert s[..j] == s[0..j];
        } else {
          var i, j :| 0 <= i <= j <= |s[1..]| && MatchHere(t, s[1..][i..j]);
          assert s[1..][i..j] == s[i + 1..j + 1];
          assert MatchHere(t, s[i + 1..j + 1]);
        }
      }
      if exists i, j :: 0 <= i <= j <= |s| && MatchHere(t, s[i..j]) {
        var i, j :| 0 <= i <= j <= |s| && MatchHere(t, s[i..j]);
        if i == 0 {
          assert s[i..j] == s[..j];
        } else {
          assert s[1..][i - 1..j - 1] == s[i..j];
          assert MatchHere(t, s[1..][i - 1..j - 1]);
        }
      }
    } else {
      if MatchPrefix(t, s) {
        assert MatchHere(t, s[..0]) && s[..0] == s[0..0];
      }
    }
  }

  /** PCRE's \w for the ASCII locale. */
  predicate IsWord(c: char) { IsAlnum(c) || c == '_' }

  /** Position i of s is a \b word boundary. */
  predicate AtBoundary(s: string, i: int)
    requires 0 <= i <= |s|
  {
    (i > 0 && IsWord(s[i - 1])) != (i < |s| && IsWord(s[i]))
  }

  /** Reference meaning of preg_match("/\bt\b/i", s): some boundary-to-boundary slice matches. */
  ghost predicate BoundedMatch(t: string, s: string) {
    exists i, j :: 0 <= i <= j <= |s| && AtBoundary(s, i) && AtBoundary(s, j) && MatchHere(t, s[i..j])
  }

  /** \bt\b search on a string made of word characters only. */
  predicate WordFound(t: string, s: string) {
    s != [] && (MatchHere(t, s) || MatchHere(t, []))
  }

  /** On a string of word characters the only boundaries are both ends, so a \b-bounded
      search is a whole-string match (or an empty match) and never succeeds on "". */
  lemma WordFoundIff(t: string, s: string)
    requires forall k :: 0 <= k < |s| ==> IsWord(s[k])
    ensures WordFound(t, s) <==> BoundedMatch(t, s)
  {
    if s != [] {
      assert AtBoundary(s, 0) && AtBoundary(s, |s|);
      forall i | 0 < i < |s| ensures !AtBoundary(s, i) {
        assert IsWord(s[i - 1]) && IsWord(s[i]);
      }
      if MatchHere(t, s) {
        assert s[0..|s|] == s;
      } else if MatchHere(t, []) {
        assert s[0..0] == [];
      }
      if BoundedMatch(t, s) {
        var i, j :| 0 <= i <= j <= |s| && AtBoundary(s, i) && AtBoundary(s, j) && MatchHere(t, s[i..j]);
        assert (i == 0 && j == |s| && s[i..j] == s) || s[i..j] == [];
      }
    } else {
      assert !AtBoundary(s, 0);
    }
  }

  /** A non-empty pattern of the fragment that matches "" matches every newline-free string. */
  lemma {:induction false} EmptyMatchIsUniversal(t: string, s: string)
    requires t != [] && Simple(t) && MatchHere(t, [])
    requires '\n' !in s
    ensures MatchHere(t, s)
    decreases |t| + |s|
  {
    assert |t| >= 2 && t[0] == '.' && t[1] == '*';
    if s != [] {
      EmptyMatchIsUniversal(t, s[1..]);
    }
  }

  /** A string without metacharacters is a plain test and matches itself. */
  lemma {:induction false} LiteralMatchesItself(s: string)
    requires forall k :: 0 <= k < |s| ==> !IsMeta(s[k])
    ensures Simple(s) && MatchHere(s, s)
    decreases |s|
  {
    if s != [] {
      assert !IsMeta(s[0]);
      LiteralMatchesItself(s[1..]);
    }
  }

  /** For the non-empty patterns the sender filter stores, a match on a word-only id is a
      match of the whole id. */
  lemma WordFoundWhole(t: string, s: string)
    requires t != [] && Simple(t)
    requires forall k :: 0 <= k < |s| ==> IsWord(s[k])
    ensures WordFound(t, s) <==> s != [] && MatchHere(t, s)
  {
    if s != [] && MatchHere(t, []) {
      forall k | 0 <= k < |s| ensures s[k] != '\n' {
        assert IsWord(s[k]);
      }
      EmptyMatchIsUniversal(t, s);
    }
  }

  /** Glob semantics of an IN/LK operand: '%' is any run, '?' any one character. */
  predicate Glob(p: string, s: string)
    decreases |p| + |s|
  {
    if p == [] then s == []
    else if p[0] == '%' then Glob(p[1..], s) || (s != [] && s[0] != '\n' && Glob(p, s[1..]))
    else if p[0] == '?' then s != [] && s[0] != '\n' && Glob(p[1..], s[1..])
    else s != [] && SameLetter(p[0], s[0]) && Glob(p[1..], s[1..])
  }

  /** The rewriting evaluateRule applies to an IN/LK operand: '?' to '.', then '%' to '.*'. */
  function WildcardToRegex(p: string): (t: string)
    ensures '%' !in t && '?' !in t
  {
    var q := Replace('?', ".", p);
    ReplaceChars('?', ".", p, '?');
    ReplaceChars('%', ".*", q, '%');
    ReplaceChars('%', ".*", q, '?');
    Replace('%', ".*", q)
  }

  /** An operand whose characters other than '%' and '?' are all literal. */
  predicate PlainWildcard(p: string) {
    forall k :: 0 <= k < |p| ==> p[k] == '%' || p[k] == '?' || !IsMeta(p[k])
  }

  lemma {:induction false} WildcardCons(c: char, p: string)
    ensures WildcardToRegex([c] + p) ==
      (if c == '%' then ".*" else if c == '?' then "." else [c]) + WildcardToRegex(p)
  {
    assert ([c] + p)[1..] == p;
    var q := Replace('?', ".", [c] + p);
    assert q == (if c == '?' then "." else [c]) + Replace('?', ".", p);
    ReplaceAppend('%', ".*", if c == '?' then "." else [c], Replace('?', ".", p));
  }

  lemma {:induction false} ReplaceAppend(c: char, rep: string, a: string, b: string)
    ensures Replace(c, rep, a + b) == Replace(c, rep, a) + Replace(c, rep, b)
    decreases |a|
  {
    if a != [] {
      assert (a + b)[1..] == a[1..] + b;
      ReplaceAppend(c, rep, a[1..], b);
    } else {
      assert a + b == b;
    }
  }

  /** Rewriting a plain operand yields a pattern of the fragment that means exactly the glob. */
  lemma {:induction false} WildcardMeansGlob(p: string, s: string)
    requires PlainWildcard(p)
    ensures Simple(WildcardToRegex(p))
    ensures MatchHere(WildcardToRegex(p), s) <==> Glob(p, s)
    decreases |p| + |s|
  {
    if p == [] {
    } else {
      var c := p[0];
      assert p == [c] + p[1..];
      WildcardCons(c, p[1..]);
      var rest := WildcardToRegex(p[1..]);
      var t := WildcardToRegex(p);
      assert PlainWildcard(p[1..]) by {
        forall k | 0 <= k < |p[1..]| ensures p[1..][k] == '%' || p[1..][k] == '?' || !IsMeta(p[1..][k]) {
          assert p[1..][k] == p[k + 1];
        }
      }
      if c == '%' {
        assert t == ".*" + rest;
        assert t[2..] == rest;
        WildcardMeansGlob(p[1..], s);
        if s != [] {
          WildcardMeansGlob(p, s[1..]);
        }
      } else if c == '?' {
        assert t == "." + rest;
        assert t[1..] == rest;
        WildcardMeansGlob(p[1..], if s == [] then s else s[1..]);
      } else {
        assert !IsMeta(c);
        assert t == [c] + rest;
        assert t[1..] == rest;
        WildcardMeansGlob(p[1..], if s == [] then s else s[1..]);
      }
    }
  }

  /** A literal run of the pattern consumes the same characters of the subject. */
  lemma {:induction false} LiteralThenPrefix(q: string, rest: string, s: string)
    requires |q| <= |s|
    requires forall k :: 0 <= k < |q| ==> q[k] != '.' && SameLetter(q[k], s[k])
    requires MatchPrefix(rest, s[|q|..])
    ensures MatchPrefix(q + rest, s)
    decreases |q|
  {
    if q != [] {
      LiteralThenPrefix(q[1..], rest, s[1..]);
      assert (q + rest)[1..] == q[1..] + rest;
      assert s[1..][|q[1..]|..] == s[|q|..];
    } else {
      assert q + rest == rest;
    }
  }

  /** A digit of the pattern is a literal, so the subject of any match contains it. */
  lemma {:induction false} MatchPrefixNeedsDigit(t: string, s: string, c: char)
    requires IsDigit(c) && c in t && MatchPrefix(t, s)
    ensures c in s
    decreases |t| + |s|
  {
    if |t| >= 2 && t[0] == '.' && t[1] == '*' {
      assert c in t[2..] by { assert t == t[..2] + t[2..]; }
      if MatchPrefix(t[2..], s) {
        MatchPrefixNeedsDigit(t[2..], s, c);
      } else {
        MatchPrefixNeedsDigit(t, s[1..], c);
      }
    } else if t[0] == '.' {
      assert c in t[1..] by { assert t == [t[0]] + t[1..]; }
      MatchPrefixNeedsDigit(t[1..], s[1..], c);
    } else if t[0] == c {
      assert Lower(s[0]) == c;
    } else {
      assert c in t[1..] by { assert t == [t[0]] + t[1..]; }
      MatchPrefixNeedsDigit(t[1..], s[1..], c);
    }
  }

  lemma {:induction false} FoundNeedsDigit(t: string, s: string, c: char)
    requires IsDigit(c) && c in t && Found(t, s)
    ensures c in s
    decreases |s|
  {
    if MatchPrefix(t, s) {
      MatchPrefixNeedsDigit(t, s, c);
    } else {
      FoundNeedsDigit(t, s[1..], c);
    }
  }

  /** q stands at the head of s, letter for letter. */
  predicate LiteralAt(q: string, s: string) {
    |q| <= |s| && forall k :: 0 <= k < |q| ==> SameLetter(q[k], s[k])
  }

  /** A digit is matched only by itself: the /i flag folds letters alone. */
  lemma DigitLetter(c: char, x: char)
    requires IsDigit(c)
    ensures SameLetter(c, x) <==> x == c
  {
  }

  /** A pattern that opens with a literal run matches only where that run stands. */
  lemma {:induction false} MatchPrefixLiteral(q: string, rest: string, s: string)
    requires forall k :: 0 <= k < |q| ==> !IsMeta(q[k])
    requires MatchPrefix(q + rest, s)
    ensures LiteralAt(q, s)
    decreases |q|
  {
    if q != [] {
      var t := q + rest;
      assert t[0] == q[0] && t[1..] == q[1..] + rest;
      MatchPrefixLiteral(q[1..], rest, s[1..]);
      forall k | 0 <= k < |q| ensures SameLetter(q[k], s[k]) {
        if k > 0 {
          assert q[1..][k - 1] == q[k] && s[1..][k - 1] == s[k];
        }
      }
    }
  }

  /** Wherever such a pattern is found, its literal run occurs in the subject. */
  lemma {:induction false} FoundLiteral(q: string, rest: string, s: string)
    requires forall k :: 0 <= k < |q| ==> !IsMeta(q[k])
    requires Found(q + rest, s)
    ensures exists i :: 0 <= i <= |s| && LiteralAt(q, s[i..])
    decreases |s|
  {
    if MatchPrefix(q + rest, s) {
      MatchPrefixLiteral(q, rest, s);
      assert s[0..] == s;
    } else {
      FoundLiteral(q, rest, s[1..]);
      var i :| 0 <= i <= |s[1..]| && LiteralAt(q, s[1..][i..]);
      assert s[1..][i..] == s[i + 1..];
    }
  }

  /** A literal word followed by a pattern of the fragment is in the fragment. */
  lemma {:induction false} SimpleAfterLiteral(q: string, rest: string)
    requires forall k :: 0 <= k < |q| ==> !IsMeta(q[k])
    requires Simple(rest)
    ensures Simple(q + rest)
    decreases |q|
  {
    if q != [] {
      SimpleAfterLiteral(q[1..], rest);
      assert (q + rest)[1..] == q[1..] + rest;
      assert (q + rest)[0] == q[0];
    } else {
      assert q + rest == rest;
    }
  }

  /** A literal operand ending in '%' becomes the literal followed by '.*'. */
  lemma TrailingPercent(q: string)
    requires '%' !in q && '?' !in q
    ensures WildcardToRegex(q + "%") == q + ".*"
  {
    ReplaceAppend('?', ".", q, "%");
    assert Replace('?', ".", "%") == "%";
    ReplaceAppend('%', ".*", q, "%");
    assert Replace('%', ".*", "%") == ".*";
  }
}
