/**
 * The sender-id filter (SenderIdFilter::isAllowed): whether a user may send
 * under a given sender id. The restricted_sender_ids settings name excluded
 * ids and, per user name (or '*' for everyone), ids that are allowed all the
 * same. Ids and tests are compared after normalization, as whole words,
 * case-insensitively; '%' in a test stands for any run of characters.
 *
 * The first call on a filter that files a test reads the settings and fills
 * the cache as it goes; once the cache is set, later calls answer from it and
 * nothing changes it. A call that files no test leaves it unset.
 */
module SenderFilter {
  import opened Options
  import opened Tables
  import opened Text
  import opened Pattern
  import Operators

  /** The restricted_sender_ids settings; an unset include_1 reads as false. */
  datatype Settings = Settings(include1: bool, excluded: Option<string>, included: Option<string>)

  /** The account the check is made for. */
  datatype Account = Account(id: int, name: string)

  /** The cache: the exclusion tests, and the inclusion tests per lower-cased user name or '*'. */
  datatype Cache = Cache(excluded: seq<string>, included: Table<string, seq<string>>)

  /** One inclusion the settings grant: a lower-cased user name (or '*') and a test. */
  datatype Grant = Grant(name: string, test: string)

  /** The answer and the value left in $word. */
  datatype Decision = Decision(allowed: bool, word: string)

  /** User 1 is not checked unless include_1 is set. */
  predicate Bypass(user: Account, settings: Settings) {
    user.id == 1 && !settings.include1
  }

  // ---------------------------------------------------------------------
  // Normalization of the sender id
  // ---------------------------------------------------------------------

  /** preg_replace('/[^a-zA-Z0-9]/', '', s). */
  function StripNonAlnum(s: string): string {
    if s == [] then [] else (if IsAlnum(s[0]) then [s[0]] else []) + StripNonAlnum(s[1..])
  }

  /** The id with non-alphanumerics stripped and the substitutes '@', '1', '0' read as
      'a', 'l', 'o' (str_replace with arrays replaces for each search string in turn). */
  function Normalize(s: string): string {
    Replace('0', "o", Replace('1', "l", Replace('@', "a", StripNonAlnum(s))))
  }

  lemma {:induction false} StripIff(s: string, x: char)
    ensures x in StripNonAlnum(s) <==> x in s && IsAlnum(x)
    decreases |s|
  {
    if s != [] {
      StripIff(s[1..], x);
      assert s == [s[0]] + s[1..];
    }
  }

  lemma {:induction false} StripAlnum(s: string)
    requires forall k :: 0 <= k < |s| ==> IsAlnum(s[k])
    ensures StripNonAlnum(s) == s
    decreases |s|
  {
    if s != [] {
      StripAlnum(s[1..]);
      assert s == [s[0]] + s[1..];
    }
  }

  /** A normalized id holds only letters and digits, and neither '0' nor '1'. */
  lemma NormalizedChars(s: string)
    ensures forall x :: x in Normalize(s) ==> IsAlnum(x) && x != '0' && x != '1'
  {
    var a := StripNonAlnum(s);
    var b := Replace('@', "a", a);
    var c := Replace('1', "l", b);
    forall x | x in Normalize(s) ensures IsAlnum(x) && x != '0' && x != '1' {
      StripIff(s, x);
      ReplaceChars('@', "a", a, x);
      ReplaceChars('1', "l", b, x);
      ReplaceChars('0', "o", c, x);
    }
  }

  /** Normalizing a normalized id changes nothing. */
  lemma NormalizeIdempotent(s: string)
    ensures Normalize(Normalize(s)) == Normalize(s)
  {
    var n := Normalize(s);
    NormalizedChars(s);
    forall k | 0 <= k < |n| ensures IsAlnum(n[k]) {
      assert n[k] in n;
    }
    StripAlnum(n);
    forall x | x in n ensures x != '@' {
      assert IsAlnum(x);
    }
  }

  // ---------------------------------------------------------------------
  // Matching one test against the id
  // ---------------------------------------------------------------------

  /** preg_match('/\b' . test . '\b/i', id): tests of the plain fragment are searched
      here, any other goes to the regex predicate. */
  predicate Matches(test: string, id: string, regex: Operators.Regex) {
    if Simple(test) then WordFound(test, id) else regex("\\b" + test + "\\b", id)
  }

  /** On a normalized id, the search of a plain test is the \b-bounded match of PCRE. */
  lemma MatchesBounded(test: string, s: string, regex: Operators.Regex)
    requires Simple(test)
    ensures Matches(test, Normalize(s), regex) <==> BoundedMatch(test, Normalize(s))
  {
    var id := Normalize(s);
    NormalizedChars(s);
    forall k | 0 <= k < |id| ensures IsWord(id[k]) {
      assert id[k] in id;
    }
    WordFoundIff(test, id);
  }

  // ---------------------------------------------------------------------
  // Reading the settings
  // ---------------------------------------------------------------------

  /** trim(str_replace('%', '.*', piece)): a piece of the settings as a test. */
  function TestOf(piece: string): string {
    Trim(Replace('%', ".*", piece))
  }

  /** strtolower(trim(name)). */
  function NameOf(name: string): string {
    LowerString(Trim(name))
  }

  /** The truthy tests among the pieces, in order. */
  function Tests(pieces: seq<string>): seq<string>
    decreases |pieces|
  {
    if pieces == [] then []
    else
      var test := TestOf(pieces[|pieces| - 1]);
      Tests(pieces[..|pieces| - 1]) + (if Truthy(test) then [test] else [])
  }

  /** The exclusion tests: the comma-separated pieces of the excluded setting. */
  function Exclusions(settings: Settings): seq<string> {
    match settings.excluded
    case None => []
    case Some(ex) => Tests(Explode(',', ex))
  }

  /** One user name against each of the ids; a falsy name or test grants nothing. */
  function IdGrants(name: string, ids: seq<string>): seq<Grant>
    decreases |ids|
  {
    if ids == [] then []
    else
      var test := TestOf(ids[|ids| - 1]);
      IdGrants(name, ids[..|ids| - 1]) + (if Truthy(test) && Truthy(name) then [Grant(name, test)] else [])
  }

  /** Each of the names against each of the ids, names outermost. */
  function NameGrants(names: seq<string>, ids: seq<string>): seq<Grant>
    decreases |names|
  {
    if names == [] then []
    else NameGrants(names[..|names| - 1], ids) + IdGrants(NameOf(names[|names| - 1]), ids)
  }

  /** One "names:ids" entry; without a ':' the ids are empty. */
  function ValueGrants(value: string): seq<Grant> {
    var parts := Explode(':', value);
    var ids := if |parts| >= 2 then parts[1] else "";
    NameGrants(Explode(',', parts[0]), Explode(',', ids))
  }

  function ValuesGrants(values: seq<string>): seq<Grant>
    decreases |values|
  {
    if values == [] then [] else ValuesGrants(values[..|values| - 1]) + ValueGrants(values[|values| - 1])
  }

  /** The grants of the included setting, in the order its three nested loops visit them. */
  function Grants(settings: Settings): seq<Grant> {
    match settings.included
    case None => []
    case Some(inc) => ValuesGrants(Explode(';', inc))
  }

  /** $this->cache['included'][$name], or nothing. */
  function Listed(t: Table<string, seq<string>>, name: string): seq<string> {
    match Get(t, name)
    case None => []
    case Some(l) => l
  }

  /** $this->cache['included'][$name][] = $test, for each grant in turn. */
  function Collect(gs: seq<Grant>): Table<string, seq<string>>
    decreases |gs|
  {
    if gs == [] then []
    else
      var t := Collect(gs[..|gs| - 1]);
      var g := gs[|gs| - 1];
      Put(t, g.name, Listed(t, g.name) + [g.test])
  }

  /** The tests granted to name, in order: the reference for what Collect files under it. */
  function TestsFor(gs: seq<Grant>, name: string): seq<string>
    decreases |gs|
  {
    if gs == [] then []
    else TestsFor(gs[..|gs| - 1], name) + (if gs[|gs| - 1].name == name then [gs[|gs| - 1].test] else [])
  }

  /** The cache lists under each name exactly the tests granted to it, in settings order. */
  lemma {:induction false} CollectListsTests(gs: seq<Grant>, name: string)
    ensures Listed(Collect(gs), name) == TestsFor(gs, name)
    decreases |gs|
  {
    if gs != [] {
      var init := gs[..|gs| - 1];
      var g := gs[|gs| - 1];
      CollectListsTests(init, name);
      PutGet(Collect(init), g.name, Listed(Collect(init), g.name) + [g.test], name);
      if g.name == name {
        CollectListsTests(init, g.name);
      }
    }
  }

  lemma {:induction false} TestsForIff(gs: seq<Grant>, name: string, t: string)
    ensures t in TestsFor(gs, name) <==> exists k :: 0 <= k < |gs| && gs[k] == Grant(name, t)
    decreases |gs|
  {
    if gs != [] {
      var init := gs[..|gs| - 1];
      TestsForIff(init, name, t);
      if exists k :: 0 <= k < |gs| && gs[k] == Grant(name, t) {
        var k :| 0 <= k < |gs| && gs[k] == Grant(name, t);
        if k < |init| {
          assert init[k] == gs[k];
        }
      }
      if exists k :: 0 <= k < |init| && init[k] == Grant(name, t) {
        var k :| 0 <= k < |init| && init[k] == Grant(name, t);
        assert gs[k] == init[k];
      }
    }
  }

  lemma TestsStep(pieces: seq<string>, i: int, test: string)
    requires 0 <= i < |pieces| && test == TestOf(pieces[i])
    ensures Tests(pieces[..i + 1]) == Tests(pieces[..i]) + (if Truthy(test) then [test] else [])
  {
    assert pieces[..i + 1][..i] == pieces[..i];
  }

  lemma LastMatchStep(ts: seq<string>, t: string, id: string, regex: Operators.Regex)
    ensures LastMatch(ts + [t], id, regex) == if Matches(t, id, regex) then Some(t) else LastMatch(ts, id, regex)
  {
    assert (ts + [t])[..|ts|] == ts;
  }

  lemma GrantStep(gs: seq<Grant>, j: int, u: string, id: string, regex: Operators.Regex)
    requires 0 <= j < |gs|
    ensures Collect(gs[..j + 1]) ==
      Put(Collect(gs[..j]), gs[j].name, Listed(Collect(gs[..j]), gs[j].name) + [gs[j].test])
    ensures LastGrant(gs[..j + 1], u, id, regex) ==
      if Applies(gs[j], u) && Matches(gs[j].test, id, regex) then Some(gs[j].test)
      else LastGrant(gs[..j], u, id, regex)
  {
    assert gs[..j + 1][..j] == gs[..j];
  }

  /** What the first call leaves in the cache: nothing when it collected no test. */
  function Built(ex: seq<string>, gs: seq<Grant>): Option<Cache> {
    if ex == [] && gs == [] then None else Some(Cache(ex, Collect(gs)))
  }

  // ---------------------------------------------------------------------
  // The two ways of deciding
  // ---------------------------------------------------------------------

  function Otherwise(o: Option<string>, default: string): string {
    if o.Some? then o.value else default
  }

  /** The last test that matches, as the build loop records it. */
  function LastMatch(ts: seq<string>, id: string, regex: Operators.Regex): Option<string>
    decreases |ts|
  {
    if ts == [] then None
    else if Matches(ts[|ts| - 1], id, regex) then Some(ts[|ts| - 1])
    else LastMatch(ts[..|ts| - 1], id, regex)
  }

  /** A grant counts for user name u when it names u lower-cased, or '*'. */
  predicate Applies(g: Grant, u: string) {
    g.name == LowerString(u) || g.name == "*"
  }

  /** The last grant that counts for u and matches. */
  function LastGrant(gs: seq<Grant>, u: string, id: string, regex: Operators.Regex): Option<string>
    decreases |gs|
  {
    if gs == [] then None
    else if Applies(gs[|gs| - 1], u) && Matches(gs[|gs| - 1].test, id, regex) then Some(gs[|gs| - 1].test)
    else LastGrant(gs[..|gs| - 1], u, id, regex)
  }

  /** The first call: every exclusion is tried and then every inclusion; a matching
      inclusion allows, otherwise a matching exclusion refuses; $word holds the last match. */
  function BuildDecision(settings: Settings, u: string, id: string, regex: Operators.Regex, word0: string): Decision {
    var ex := LastMatch(Exclusions(settings), id, regex);
    var inc := LastGrant(Grants(settings), u, id, regex);
    Decision(ex.None? || inc.Some?, Otherwise(inc, Otherwise(ex, word0)))
  }

  /** The first test that matches, as the cached loops return it. */
  function FirstMatch(ts: seq<string>, id: string, regex: Operators.Regex): Option<string>
    decreases |ts|
  {
    if ts == [] then None
    else if Matches(ts[0], id, regex) then Some(ts[0])
    else FirstMatch(ts[1..], id, regex)
  }

  /** Later calls: the inclusions listed under key, then those under '*', then the
      exclusions; the first match decides. */
  function CachedDecision(c: Cache, key: string, id: string, regex: Operators.Regex, word0: string): Decision {
    var own := FirstMatch(Listed(c.included, key), id, regex);
    var any := FirstMatch(Listed(c.included, "*"), id, regex);
    var ex := FirstMatch(c.excluded, id, regex);
    if own.Some? then Decision(true, own.value)
    else if any.Some? then Decision(true, any.value)
    else if ex.Some? then Decision(false, ex.value)
    else Decision(true, word0)
  }

  /** The cached path as written: the cache is read under the user name as given,
      though the build filed it under the lower-cased name. */
  function CachedAsWritten(c: Cache, user: Account, id: string, regex: Operators.Regex, word0: string): Decision {
    CachedDecision(c, user.name, id, regex, word0)
  }

  /** The cached path read under the lower-cased user name, as the build filed it. */
  function CachedLookup(c: Cache, user: Account, id: string, regex: Operators.Regex, word0: string): Decision {
    CachedDecision(c, LowerString(user.name), id, regex, word0)
  }

  /** isAllowed as written, on a filter whose cache is `cache`. */
  function Decide(cache: Option<Cache>, senderId: string, user: Account, settings: Settings,
                  regex: Operators.Regex, word0: string): Decision
  {
    if Bypass(user, settings) then Decision(true, "")
    else
      var id := Normalize(senderId);
      match cache
      case None => BuildDecision(settings, user.name, id, regex, word0)
      case Some(c) => CachedAsWritten(c, user, id, regex, word0)
  }

  /** isAllowed as intended: the cached path reads the key the build filed under. */
  function DecideIntended(cache: Option<Cache>, senderId: string, user: Account, settings: Settings,
                          regex: Operators.Regex, word0: string): Decision
  {
    match cache
    case Some(c) =>
      if Bypass(user, settings) then Decision(true, "")
      else CachedLookup(c, user, Normalize(senderId), regex, word0)
    case None => Decide(None, senderId, user, settings, regex, word0)
  }

  /** The cache after isAllowed: the first checked call that files a test fills it; once it is
      set, no call changes it. */
  function NextCache(cache: Option<Cache>, user: Account, settings: Settings): Option<Cache> {
    if Bypass(user, settings) || cache.Some? then cache
    else Built(Exclusions(settings), Grants(settings))
  }

  // ---------------------------------------------------------------------
  // Properties of the two decisions
  // ---------------------------------------------------------------------

  /** The build finds a match exactly when some test matches; what it records is such a test. */
  lemma {:induction false} LastMatchIff(ts: seq<string>, id: string, regex: Operators.Regex)
    ensures LastMatch(ts, id, regex).Some? <==> exists t :: t in ts && Matches(t, id, regex)
    ensures LastMatch(ts, id, regex).Some? ==>
      LastMatch(ts, id, regex).value in ts && Matches(LastMatch(ts, id, regex).value, id, regex)
    decreases |ts|
  {
    if ts != [] {
      var init := ts[..|ts| - 1];
      assert ts == init + [ts[|ts| - 1]];
      LastMatchIff(init, id, regex);
    }
  }

  /** The cached loops find a match exactly when some test matches; what they return is such a test. */
  lemma {:induction false} FirstMatchIff(ts: seq<string>, id: string, regex: Operators.Regex)
    ensures FirstMatch(ts, id, regex).Some? <==> exists t :: t in ts && Matches(t, id, regex)
    ensures FirstMatch(ts, id, regex).Some? ==>
      FirstMatch(ts, id, regex).value in ts && Matches(FirstMatch(ts, id, regex).value, id, regex)
    decreases |ts|
  {
    if ts != [] {
      assert ts == [ts[0]] + ts[1..];
      FirstMatchIff(ts[1..], id, regex);
    }
  }

  lemma {:induction false} LastGrantIff(gs: seq<Grant>, u: string, id: string, regex: Operators.Regex)
    ensures LastGrant(gs, u, id, regex).Some? <==>
      exists g :: g in gs && Applies(g, u) && Matches(g.test, id, regex)
    decreases |gs|
  {
    if gs != [] {
      var init := gs[..|gs| - 1];
      assert gs == init + [gs[|gs| - 1]];
      LastGrantIff(init, u, id, regex);
    }
  }

  /** On the first call, a matching inclusion for the user (or for '*') allows whatever the
      exclusions say; otherwise a matching exclusion refuses, and $word then holds it. */
  lemma InclusionOverridesExclusion(settings: Settings, u: string, id: string, regex: Operators.Regex, word0: string)
    ensures BuildDecision(settings, u, id, regex, word0).allowed <==>
      (forall t :: t in Exclusions(settings) ==> !Matches(t, id, regex)) ||
      (exists g :: g in Grants(settings) && Applies(g, u) && Matches(g.test, id, regex))
    ensures !BuildDecision(settings, u, id, regex, word0).allowed ==>
      BuildDecision(settings, u, id, regex, word0).word in Exclusions(settings) &&
      Matches(BuildDecision(settings, u, id, regex, word0).word, id, regex)
  {
    LastMatchIff(Exclusions(settings), id, regex);
    LastGrantIff(Grants(settings), u, id, regex);
  }

  /** Some test listed under name in the cache matches exactly when some grant to name does. */
  lemma ListedMatch(gs: seq<Grant>, name: string, id: string, regex: Operators.Regex)
    ensures FirstMatch(Listed(Collect(gs), name), id, regex).Some? <==>
      exists g :: g in gs && g.name == name && Matches(g.test, id, regex)
  {
    CollectListsTests(gs, name);
    FirstMatchIff(TestsFor(gs, name), id, regex);
    if exists g :: g in gs && g.name == name && Matches(g.test, id, regex) {
      var g :| g in gs && g.name == name && Matches(g.test, id, regex);
      var k :| 0 <= k < |gs| && gs[k] == g;
      TestsForIff(gs, name, g.test);
    }
    if FirstMatch(TestsFor(gs, name), id, regex).Some? {
      var t := FirstMatch(TestsFor(gs, name), id, regex).value;
      TestsForIff(gs, name, t);
      var k :| 0 <= k < |gs| && gs[k] == Grant(name, t);
      assert gs[k] in gs;
    }
  }

  /** The cache the first call fills, read under the lower-cased user name, gives every user
      the answer the build would give. */
  lemma CacheAgreesWithBuild(settings: Settings, user: Account, id: string, regex: Operators.Regex, w0: string, w1: string)
    ensures CachedLookup(Cache(Exclusions(settings), Collect(Grants(settings))), user, id, regex, w1).allowed ==
      BuildDecision(settings, user.name, id, regex, w0).allowed
  {
    var gs := Grants(settings);
    ListedMatch(gs, LowerString(user.name), id, regex);
    ListedMatch(gs, "*", id, regex);
    FirstMatchIff(Exclusions(settings), id, regex);
    InclusionOverridesExclusion(settings, user.name, id, regex, w0);
  }

  /** With the intended lookup, once a checked call has filled the cache, every later call
      gets the answer a fresh filter would give, whoever made the first call. */
  lemma RepeatAnswers(senderId: string, first: Account, user: Account, settings: Settings,
                      regex: Operators.Regex, w0: string, w1: string)
    ensures DecideIntended(NextCache(None, first, settings), senderId, user, settings, regex, w1).allowed ==
      DecideIntended(None, senderId, user, settings, regex, w0).allowed
  {
    if !Bypass(user, settings) && NextCache(None, first, settings).Some? {
      CacheAgreesWithBuild(settings, user, Normalize(senderId), regex, w0, w1);
    }
  }

  // ---------------------------------------------------------------------
  // A user name with capitals: the cached path answers differently
  // ---------------------------------------------------------------------

  /** A non-empty word of ASCII letters: read from the settings as itself, and its own test. */
  predicate PlainWord(w: string) {
    w != [] && forall k :: 0 <= k < |w| ==> IsLetter(w[k])
  }

  lemma PlainWordFacts(w: string)
    requires PlainWord(w)
    ensures ',' !in w && ';' !in w && ':' !in w && '%' !in w
    ensures Truthy(w) && TestOf(w) == w && Trim(w) == w
  {
    forall x | x in w ensures IsLetter(x) {
      var k :| 0 <= k < |w| && w[k] == x;
    }
    assert !IsTrimmed(w[0]) && !IsTrimmed(w[|w| - 1]) by {
      assert IsLetter(w[0]) && IsLetter(w[|w| - 1]);
    }
    assert Replace('%', ".*", w) == w;
    assert w != "0" by {
      assert IsLetter(w[0]);
    }
  }

  lemma PlainWordMatches(w: string, regex: Operators.Regex)
    requires PlainWord(w)
    ensures Normalize(w) == w && Matches(w, w, regex)
  {
    forall k | 0 <= k < |w| ensures IsAlnum(w[k]) && !IsMeta(w[k]) {
      assert IsLetter(w[k]);
    }
    forall x | x in w ensures IsLetter(x) {
      var k :| 0 <= k < |w| && w[k] == x;
    }
    StripAlnum(w);
    assert Replace('@', "a", w) == w;
    assert Replace('1', "l", w) == w;
    assert Replace('0', "o", w) == w;
    LiteralMatchesItself(w);
  }

  lemma SingleExclusion(settings: Settings, ex: string)
    requires PlainWord(ex) && settings.excluded == Some(ex)
    ensures Exclusions(settings) == [ex]
  {
    PlainWordFacts(ex);
    assert Explode(',', ex) == [ex];
    assert Tests([ex]) == Tests([]) + [ex] by { assert [ex][..0] == []; }
  }

  /** "names:ids" with no ':' or ';' in either part is one entry of two parts. */
  lemma SplitEntry(names: string, ids: string, value: string)
    requires ':' !in names && ':' !in ids && ';' !in names && ';' !in ids
    requires value == names + [':'] + ids
    ensures ';' !in value && Explode(':', value) == [names, ids]
  {
    ExplodeSplit(':', names, ids);
    assert [names] + [ids] == [names, ids];
  }

  lemma ValueGrantsOf(value: string, names: string, ids: string)
    requires Explode(':', value) == [names, ids]
    ensures ValueGrants(value) == NameGrants(Explode(',', names), Explode(',', ids))
  {
  }

  lemma SingleGrant(settings: Settings, name: string, ex: string, inc: string)
    requires PlainWord(name) && PlainWord(ex) && LowerString(name) == name
    requires ';' !in inc && Explode(':', inc) == [name, ex] && settings.included == Some(inc)
    ensures Grants(settings) == [Grant(name, ex)]
  {
    PlainWordFacts(name);
    PlainWordFacts(ex);
    assert Explode(';', inc) == [inc];
    assert ValuesGrants([inc]) == ValuesGrants([]) + ValueGrants(inc) by { assert [inc][..0] == []; }
    ValueGrantsOf(inc, name, ex);
    assert NameGrants([name], [ex]) == NameGrants([], [ex]) + IdGrants(NameOf(name), [ex]) by { assert [name][..0] == []; }
    assert IdGrants(name, [ex]) == IdGrants(name, []) + [Grant(name, ex)] by { assert [ex][..0] == []; }
  }

  /** With exclusion ex and the single grant of ex to name, the first call by a user
      whose lower-cased name is name allows ex. */
  lemma FirstCallAllows(settings: Settings, user: Account, regex: Operators.Regex, name: string, ex: string, w0: string)
    requires PlainWord(ex) && LowerString(user.name) == name && !Bypass(user, settings)
    requires Exclusions(settings) == [ex] && Grants(settings) == [Grant(name, ex)]
    ensures Decide(None, ex, user, settings, regex, w0) == Decision(true, ex)
  {
    PlainWordMatches(ex, regex);
    var g := Grant(name, ex);
    assert Applies(g, user.name) && Matches(ex, ex, regex);
    assert LastMatch([ex], ex, regex) == Some(ex);
    assert LastGrant([g], user.name, ex, regex) == Some(ex);
  }

  /** That call fills the cache with the exclusion ex and with ex listed under name. */
  lemma FirstCallFills(settings: Settings, user: Account, name: string, ex: string)
    requires !Bypass(user, settings)
    requires Exclusions(settings) == [ex] && Grants(settings) == [Grant(name, ex)]
    ensures NextCache(None, user, settings) == Some(Cache([ex], [Pair(name, [ex])]))
  {
    CollectSingle(Grant(name, ex));
  }

  lemma CollectSingle(g: Grant)
    ensures Collect([g]) == [Pair(g.name, [g.test])]
  {
    var t: Table<string, seq<string>> := [];
    assert [g][..0] == [];
    assert Collect([g]) == Put(t, g.name, Listed(t, g.name) + [g.test]);
    assert Listed(t, g.name) + [g.test] == [g.test];
  }

  /** The cached path as written looks the user up under the name as given. */
  lemma CachedRefuses(user: Account, regex: Operators.Regex, name: string, ex: string, w1: string)
    requires PlainWord(name) && PlainWord(ex) && user.name != name
    ensures CachedAsWritten(Cache([ex], [Pair(name, [ex])]), user, ex, regex, w1) == Decision(false, ex)
  {
    PlainWordMatches(ex, regex);
    var t: Table<string, seq<string>> := [Pair(name, [ex])];
    assert Get(t, user.name) == None;
    assert Get(t, "*") == None by {
      assert name[0] != '*' by { assert IsLetter(name[0]); }
    }
  }

  /**
   * A user whose name has capitals, name lower-cased, excluded ex and included
   * "name:ex", sender id ex: the first call allows (the build compares lower-cased
   * names) and fills the cache under the lower-cased name; the cached path as written
   * looks up the name as given, finds nothing and refuses.
   */
  lemma MixedCaseNameFlips(settings: Settings, user: Account, regex: Operators.Regex,
                           name: string, ex: string, inc: string, w0: string, w1: string)
    requires PlainWord(name) && PlainWord(ex) && LowerString(name) == name
    requires LowerString(user.name) == name && user.name != name && user.id != 1
    requires inc == name + [':'] + ex
    requires settings == Settings(false, Some(ex), Some(inc))
    ensures Decide(None, ex, user, settings, regex, w0) == Decision(true, ex)
    ensures NextCache(None, user, settings) == Some(Cache([ex], [Pair(name, [ex])]))
    ensures CachedAsWritten(Cache([ex], [Pair(name, [ex])]), user, Normalize(ex), regex, w1) == Decision(false, ex)
  {
    PlainWordFacts(name);
    PlainWordFacts(ex);
    SplitEntry(name, ex, inc);
    SingleExclusion(settings, ex);
    SingleGrant(settings, name, ex, inc);
    FirstCallAllows(settings, user, regex, name, ex, w0);
    FirstCallFills(settings, user, name, ex);
    PlainWordMatches(ex, regex);
    CachedRefuses(user, regex, name, ex, w1);
  }

  /** The same with user "Bob", excluded "ACME", included "bob:ACME", sender id "ACME". */
  lemma BobExample(settings: Settings, user: Account, regex: Operators.Regex, w0: string, w1: string)
    requires user == Account(2, "Bob") && settings == Settings(false, Some("ACME"), Some("bob:ACME"))
    ensures Decide(None, "ACME", user, settings, regex, w0) == Decision(true, "ACME")
    ensures NextCache(None, user, settings) == Some(Cache(["ACME"], [Pair("bob", ["ACME"])]))
    ensures CachedAsWritten(Cache(["ACME"], [Pair("bob", ["ACME"])]), user, Normalize("ACME"), regex, w1) ==
      Decision(false, "ACME")
  {
    var name, ex := "bob", "ACME";
    assert PlainWord(name) && PlainWord(ex);
    assert LowerString(name) == name && LowerString(user.name) == name;
    assert "bob:ACME" == name + [':'] + ex;
    MixedCaseNameFlips(settings, user, regex, name, ex, "bob:ACME", w0, w1);
  }

  // ---------------------------------------------------------------------
  // The filter object
  // ---------------------------------------------------------------------

  class SenderIdFilter {
    var cache: Option<Cache>

    constructor ()
      ensures cache == None
    {
      cache := None;
    }

    /** isAllowed: word0 is the caller's $word, word what the call leaves in it. */
    method IsAllowed(senderId: string, user: Account, settings: Settings, regex: Operators.Regex, word0: string)
      returns (allowed: bool, word: string)
      modifies this
      ensures Decision(allowed, word) == Decide(old(cache), senderId, user, settings, regex, word0)
      ensures cache == NextCache(old(cache), user, settings)
    {
      if Bypass(user, settings) {
        return true, "";
      }
      var id := Normalize(senderId);
      if cache.None? {
        var ex;
        ex, allowed, word := CollectExclusions(settings, id, regex, word0);
        allowed, word := CollectInclusions(settings, ex, user.name, id, regex, allowed, word);
        return;
      }
      var c := cache.value;
      var own := FirstMatching(Listed(c.included, user.name), id, regex);
      if own.Some? {
        return true, own.value;
      }
      var any := FirstMatching(Listed(c.included, "*"), id, regex);
      if any.Some? {
        return true, any.value;
      }
      var ex := FirstMatching(c.excluded, id, regex);
      if ex.Some? {
        return false, ex.value;
      }
      return true, word0;
    }

    /** The first loop of the build: each truthy exclusion test is filed in the cache, and
        each match refuses and is recorded in $word. */
    method CollectExclusions(settings: Settings, id: string, regex: Operators.Regex, word0: string)
      returns (ex: seq<string>, allowed: bool, word: string)
      requires cache.None?
      modifies this
      ensures ex == Exclusions(settings)
      ensures cache == Built(ex, [])
      ensures allowed == LastMatch(ex, id, regex).None?
      ensures word == Otherwise(LastMatch(ex, id, regex), word0)
    {
      ex, allowed, word := [], true, word0;
      if settings.excluded.Some? {
        var pieces := Explode(',', settings.excluded.value);
        var i := 0;
        while i < |pieces|
          invariant 0 <= i <= |pieces|
          invariant ex == Tests(pieces[..i])
          invariant cache == Built(ex, [])
          invariant allowed == LastMatch(ex, id, regex).None?
          invariant word == Otherwise(LastMatch(ex, id, regex), word0)
        {
          var test := TestOf(pieces[i]);
          TestsStep(pieces, i, test);
          if Truthy(test) {
            LastMatchStep(ex, test, id, regex);
            ex := ex + [test];
            cache := Some(Cache(ex, []));
            if Matches(test, id, regex) {
              allowed := false;
              word := test;
            }
          }
          i := i + 1;
        }
        assert pieces[..i] == pieces;
      }
    }

    /** The nested loops of the build over the inclusions, one (name, test) grant at a time:
        each is filed in the cache, and each that counts for user name u and matches allows. */
    method CollectInclusions(settings: Settings, ex: seq<string>, u: string, id: string, regex: Operators.Regex,
                             allowed0: bool, word0: string)
      returns (allowed: bool, word: string)
      requires cache == Built(ex, [])
      modifies this
      ensures cache == Built(ex, Grants(settings))
      ensures allowed == (allowed0 || LastGrant(Grants(settings), u, id, regex).Some?)
      ensures word == Otherwise(LastGrant(Grants(settings), u, id, regex), word0)
    {
      allowed, word := allowed0, word0;
      if settings.included.Some? {
        allowed, word := FileGrants(ValuesGrants(Explode(';', settings.included.value)), ex, u, id, regex, allowed, word);
      }
    }

    /** The grants in turn: each is filed in the cache, and each that counts for user
        name u and matches allows and is recorded in $word. */
    method FileGrants(gs: seq<Grant>, ex: seq<string>, u: string, id: string, regex: Operators.Regex,
                      allowed0: bool, word0: string)
      returns (allowed: bool, word: string)
      requires cache == Built(ex, [])
      modifies this
      ensures cache == Built(ex, gs)
      ensures allowed == (allowed0 || LastGrant(gs, u, id, regex).Some?)
      ensures word == Otherwise(LastGrant(gs, u, id, regex), word0)
    {
      allowed, word := allowed0, word0;
      var inc: Table<string, seq<string>> := [];
      var j := 0;
      while j < |gs|
        invariant 0 <= j <= |gs|
        invariant inc == Collect(gs[..j])
        invariant cache == Built(ex, gs[..j])
        invariant allowed == (allowed0 || LastGrant(gs[..j], u, id, regex).Some?)
        invariant word == Otherwise(LastGrant(gs[..j], u, id, regex), word0)
      {
        var g := gs[j];
        GrantStep(gs, j, u, id, regex);
        inc := Put(inc, g.name, Listed(inc, g.name) + [g.test]);
        cache := Some(Cache(ex, inc));
        if Applies(g, u) && Matches(g.test, id, regex) {
          allowed := true;
          word := g.test;
        }
        j := j + 1;
      }
      assert gs[..j] == gs;
    }
  }

  /**
   * Two calls on one fresh filter by user "Bob", with excluded "ACME" and included
   * "bob:ACME", both for sender id "ACME": the first call is allowed; the second,
   * answered from the cache under the name "Bob", is refused with $word "ACME".
   */
  method BobCallsTwice(regex: Operators.Regex) returns (first: bool, second: bool, word: string)
    ensures first && !second && word == "ACME"
  {
    var user := Account(2, "Bob");
    var settings := Settings(false, Some("ACME"), Some("bob:ACME"));
    var filter := new SenderIdFilter();
    var w;
    first, w := filter.IsAllowed("ACME", user, settings, regex, "");
    BobExample(settings, user, regex, "", w);
    second, word := filter.IsAllowed("ACME", user, settings, regex, w);
  }

  /** One loop of the cached path: the first test that matches, if any. */
  method FirstMatching(ts: seq<string>, id: string, regex: Operators.Regex) returns (found: Option<string>)
    ensures found == FirstMatch(ts, id, regex)
    ensures found.Some? ==> found.value in ts && Matches(found.value, id, regex)
  {
    var i := 0;
    while i < |ts|
      invariant 0 <= i <= |ts|
      invariant FirstMatch(ts[i..], id, regex) == FirstMatch(ts, id, regex)
    {
      assert ts[i..][1..] == ts[i + 1..];
      if Matches(ts[i], id, regex) {
        return Some(ts[i]);
      }
      i := i + 1;
    }
    return None;
  }
}
