# Rule-based SMS routing and sender-id filtering, in Dafny

This project models the core of the Drupal module `sms_rule_based`
(`sms_advanced`):

- **Advanced routing** (`AdvancedRouting`). An outgoing message's recipient
  numbers are split among gateways by rulesets. The rulesets are taken in
  weight order. Each ruleset is a compacted rules array of rules on the user,
  the sender, the recipient count, the country code, the number and the area
  code. The rules are combined under AND or OR. A ruleset files the numbers it
  matches under its gateway and takes them out of the pool. The numbers that
  are left go to `__default__`. The module also has the string codec that
  compacts a rules array and expands it again.
- **Sender-id filter** (`SenderIdFilter::isAllowed`). It decides whether a
  user may send under a sender id. Excluded ids are given as patterns.
  Inclusions, per user name or for `*`, override the exclusions. The first
  call that files a test fills a cache, and later calls answer from it.
- **Rule-based provider** (`RuleBasedSmsProvider`). `routeMessage` sorts the
  rulesets by weight and hands them to the router when advanced routing is
  enabled. `mergeMessageResults` folds the gateways' results into one.
- **Routing ruleset entity** (`SmsRoutingRuleset`). Its id, its rules keyed
  by rule name, and the plugin collection it builds lazily from them.

Layout, one module per file:

| file | module | what it holds |
|---|---|---|
| `tables.dfy` | `Options`, `Tables` | `Option`. PHP ordered arrays as sequences of key/value pairs: get, assign, unset and the array union `+`. |
| `text.dfy` | `Text` | The PHP string functions the core uses: `explode`, `trim`, `strtolower`, `substr`, `strpos`, `intval`, truthiness. |
| `pattern.dfy` | `Pattern` | The fragment of PCRE that the core builds itself: literals, `.`, `.*`, unanchored search, `\b…\b` with `/i`. |
| `operators.dfy` | `Operators` | `evaluateRule`. |
| `rule_types.dfy` | `RuleTypes` | `matchRuleType`. |
| `route_match.dfy` | `RouteMatch` | `matchRoute`. |
| `weights.dfy` | `Weights` | `weightSort` and the stable `uasort` by weight. |
| `router.dfy` | `Router` | `routeSmsRecipients`. |
| `codec.dfy` | `Codec` | `compactRulesetRules` / `expandRulesetRules`. |
| `sender_filter.dfy` | `SenderFilter` | `SenderIdFilter` as a class with its cache. |
| `provider.dfy` | `Provider` | `routeMessage` and `mergeMessageResults`. |
| `ruleset_entity.dfy` | `RulesetEntity` | `SmsRoutingRuleset` and its plugin collection as classes. |

The loops of the source are methods with loop invariants:
- `MatchRoute`, `MatchRuleType`, `CollectPassing`, `EvaluateRule`,
  `RouteSmsRecipients`, `CompactRulesetRules` and `ExpandRulesetRules`;
- `SenderIdFilter.IsAllowed` and its build loops;
- `MergeMessageResults`.

Each is proved equal to a specification function, and the properties are
proved about those functions as lemmas. The objects whose fields the source
updates are classes: the sender-id filter with its cache, and the ruleset
with its rules and plugin collection.

Calls the model cannot see become parameters (a `Context`):
- the current user's name;
- the message's sender;
- the country-code lookup `CountryCodes::getCountryCode`;
- a regex predicate standing for `preg_match` on patterns outside the fragment
  in `pattern.dfy`;
- the `sms_advanced.settings` configuration, given as a `Settings` value;
- the loaded rulesets, given as a list.

## Model

| member | source | states |
|---|---|---|
| Tables.PutGet | src/Entity/SmsRoutingRuleset.php:147 | After `$a[$k] = $v`, key k reads v and every other key reads what it read before. |
| Tables.DeleteGet | src/Entity/SmsRoutingRuleset.php:152 | After `unset($a[$k])`, key k is absent and every other key reads what it read before. |
| Tables.UnionGet | src/Provider/RuleBasedSmsProvider.php:112 | The array union `$a + $b` reads a's value for a key a has, and b's value otherwise. |
| Text.ExplodeJoin | src/Utility/SenderIdFilter.php:79 | `explode` loses nothing: joining the pieces with the delimiter gives the string back. |
| Text.StrPos | src/Utility/AdvancedRouting.php:329 | `strpos` from an offset finds the first occurrence at or after the offset, or reports that there is none. |
| Text.Substr | src/Utility/AdvancedRouting.php:162 | `substr` within bounds is the slice from the offset, at most length characters long. |
| Pattern.WildcardMeansGlob | src/Utility/AdvancedRouting.php:221 | A wildcard pattern rewritten into a regex (`?` to `.`, `%` to `.*`) matches exactly the strings the glob reading of the pattern accepts. |
| Pattern.WordFoundIff | src/Utility/SenderIdFilter.php:82 | On a string of word characters, the `/\b…\b/i` search succeeds exactly when some word-bounded slice matches. |
| Operators.OperatorOf | src/Utility/AdvancedRouting.php:198-231 | An operator code outside EQ, LT, LE, GT, GE, IN, LK, RX selects no case. |
| Operators.EvaluateRule | src/Utility/AdvancedRouting.php:196-236 | The switch on the operator, with negation applied afterwards, decides as the specification predicate `Evaluate` does. |
| Operators.AnyOperandFound | src/Utility/AdvancedRouting.php:217-226 | The IN/LK loop over the comma-separated operands holds exactly when one of them is found, and stops at the first. |
| Operators.NegationInverts | src/Utility/AdvancedRouting.php:232-235 | A negated rule holds exactly when the plain rule does not. |
| Operators.UnknownOperator | src/Utility/AdvancedRouting.php:196-236 | An unknown operator fails, and passes when negated. |
| Operators.InIsLike | src/Utility/AdvancedRouting.php:215-216 | IN and LK decide identically. |
| Operators.LexCompareZero | src/Utility/AdvancedRouting.php:201 | The string comparison reports equality exactly for equal strings. |
| Operators.LexCompareAntisymmetric | src/Utility/AdvancedRouting.php:204-213 | Swapping the operands of the string comparison negates its result. |
| Operators.LexCompareTransitive | src/Utility/AdvancedRouting.php:204-213 | The string order is transitive. |
| Operators.EqualSelfNegated | src/Utility/AdvancedRouting.php:200-235 | A negated EQ against the string itself never holds. |
| Operators.NotEqualNegated | src/Utility/AdvancedRouting.php:200-235 | A negated EQ between two strings that are not both numeric holds exactly when they differ. |
| Operators.CompareAntisymmetric | src/Utility/AdvancedRouting.php:200-214 | The loose comparison of two strings is antisymmetric. |
| Operators.OrderComplements | src/Utility/AdvancedRouting.php:203-214 | LT is the negation of GE, and GT the negation of LE. |
| Operators.WildcardFoundIsGlob | src/Utility/AdvancedRouting.php:221-222 | A plain wildcard operand is found in a subject exactly when some slice of the subject fits the glob. |
| Operators.LikeIsGlobSearch | src/Utility/AdvancedRouting.php:215-227 | LK over plain wildcard operands holds exactly when some operand fits some slice of the parameter. |
| Operators.LiteralPercentOperand | src/Utility/AdvancedRouting.php:217-222 | An operand `q%` stays one operand and is searched as the regex `q.*`. |
| Operators.SingleOperandLike | src/Utility/AdvancedRouting.php:215-227 | LK with a single operand is the search for that operand. |
| Operators.LikeExample | src/Utility/AdvancedRouting.php:215-227 | `234819%` is like 2348191234500 and is not like 2348101234500. |
| RuleTypes.AreaCode | src/Utility/AdvancedRouting.php:156-162 | The area code is at most three characters, taken right after the country code. |
| RuleTypes.PassingIff | src/Utility/AdvancedRouting.php:147-167 | A number is kept exactly when it is in the pool and passes the rule. |
| RuleTypes.PassingAppend | src/Utility/AdvancedRouting.php:148-166 | The per-number filter keeps pool order, so splitting the pool splits the result. |
| RuleTypes.MessageRule | src/Utility/AdvancedRouting.php:137-145 | A user, sender or count rule hands back the whole pool when it holds and nothing otherwise. Count is judged on the size of the pool. |
| RuleTypes.RecipientRule | src/Utility/AdvancedRouting.php:146-168 | Any other rule keeps the numbers of the pool that pass individually. A rule of an unknown type keeps none. |
| RuleTypes.RuleMatchesFromPool | src/Utility/AdvancedRouting.php:136-169 | Whatever the rule, it selects numbers from the pool only. |
| RuleTypes.MatchRuleType | src/Utility/AdvancedRouting.php:136-169 | The method returns the specification's selection for every rule type. |
| RuleTypes.CollectPassing | src/Utility/AdvancedRouting.php:147-167 | The foreach appends exactly the passing numbers, in pool order. |
| RuleTypes.NumberRegexRule | src/Utility/AdvancedRouting.php:152-230 | A number rule with RX keeps exactly the numbers the regex matches. |
| RouteMatch.Indexed | src/Utility/AdvancedRouting.php:92 | The pool as a PHP list: number i under key i. |
| RouteMatch.Intersect | src/Utility/AdvancedRouting.php:94 | `array_intersect` keeps exactly the entries whose value is among the other list's values, with their keys. |
| RouteMatch.Dedup | src/Utility/AdvancedRouting.php:102 | `array_unique` keeps one entry per value, under a key where the list holds that value, in key order, and loses no value. |
| RouteMatch.DedupKeepsFirst | src/Utility/AdvancedRouting.php:102 | The key `array_unique` keeps for a value is that of its first occurrence: the value does not occur before it. |
| RouteMatch.Diff | src/Utility/AdvancedRouting.php:106 | The remaining pool holds exactly the numbers of the pool that were not matched. |
| RouteMatch.MatchRoute | src/Utility/AdvancedRouting.php:86-108 | The method returns the matched entries and the re-indexed remainder of the pool. |
| RouteMatch.IntersectAllIff | src/Utility/AdvancedRouting.php:91-96 | Under AND, an entry survives exactly when its number is selected by every rule. |
| RouteMatch.IntersectAllSorted | src/Utility/AdvancedRouting.php:91-96 | The AND intersection keeps keys in increasing order. |
| RouteMatch.ConcatIff | src/Utility/AdvancedRouting.php:98-101 | The merged OR selections hold exactly the numbers that some rule selects. |
| RouteMatch.NoRules | src/Utility/AdvancedRouting.php:87-103 | With no rules, AND takes the whole pool and OR takes nothing. |
| RouteMatch.AndMode | src/Utility/AdvancedRouting.php:91-96 | Under AND, number i is matched under key i exactly when every rule selects it. |
| RouteMatch.OrMode | src/Utility/AdvancedRouting.php:97-103 | Under OR, a number is matched exactly when some rule selects it, and no number is matched twice. |
| RouteMatch.MatchPartitions | src/Utility/AdvancedRouting.php:86-108 | The matches come from the pool, their keys are unique, and the remainder is exactly the pool minus the matches. |
| RouteMatch.DiffAppend | src/Utility/AdvancedRouting.php:106 | Removing matches distributes over a split pool. |
| RouteMatch.DiffNothing | src/Utility/AdvancedRouting.php:106 | Removing no matches leaves the pool. |
| Weights.WeightSort | src/Utility/AdvancedRouting.php:350-353 | The comparator returns 0, 1 or -1 exactly when the first weight is equal to, greater than or less than the second. |
| Weights.WeightSortAntisymmetric | src/Utility/AdvancedRouting.php:350-353 | Swapping the arguments negates the comparator. |
| Weights.SortSorted | src/Utility/AdvancedRouting.php:41-45 | Sorting by weight gives a non-decreasing permutation of the rulesets. |
| Weights.SortStable | src/Utility/AdvancedRouting.php:41-45 | Rulesets of equal weight keep their relative order. |
| Weights.SortIdempotent | src/Utility/AdvancedRouting.php:41-45 | Rulesets already in weight order are left as they are. |
| Weights.SortMembers | src/Utility/AdvancedRouting.php:41-45 | Sorting neither adds nor drops a ruleset. |
| Weights.SortDistinct | src/Utility/AdvancedRouting.php:41-45 | Sorting keeps gateways distinct when they were distinct. |
| Router.RouteSmsRecipients | src/Utility/AdvancedRouting.php:36-65 | The loop over the rulesets and the final `__default__` entries build the specification's routing. |
| Router.Untouched | src/Utility/AdvancedRouting.php:53 | A disabled ruleset, or one that matches nothing, leaves routes and order unchanged. A disabled one also leaves the pool unchanged. |
| Router.OrderHoldsMatches | src/Utility/AdvancedRouting.php:53-59 | A ruleset that matches has its matches filed under its name in order, and they leave the pool. |
| Router.DefaultHoldsRest | src/Utility/AdvancedRouting.php:62-63 | `__default__` holds, in routes and in order, the pool the last ruleset left. |
| Router.AppliedInWeightOrder | src/Utility/AdvancedRouting.php:41-45 | The rulesets are applied lightest first, as a permutation of those loaded. |
| Router.RoutesPartitionRecipients | src/Utility/AdvancedRouting.php:36-65 | With distinct gateways, every recipient is routed, and no number is routed to two gateways. |
| Router.PresortIrrelevant | src/Utility/AdvancedRouting.php:41-45 | Sorting the rulesets again before routing changes nothing. |
| Router.PicksFirst | src/Utility/AdvancedRouting.php:91-106 | A "number RX" rule picks the matching number under key 0 and leaves the other. |
| Router.TwoInOrder | src/Utility/AdvancedRouting.php:41-61 | Two rulesets in weight order are applied in that order. |
| Router.LoneRuleset | src/Utility/AdvancedRouting.php:46-63 | A lone enabled ruleset files its match under its gateway and the rest, re-keyed from 0, under `__default__`. |
| Router.OnlyFirstRouted | src/Utility/AdvancedRouting.php:46-63 | A lone AND ruleset with one number rule that only the first number passes routes that number, under key 0, to its gateway and the others to `__default__`. |
| Router.RoutedTo42tele | src/Utility/AdvancedRouting.php:46-63 | The same for four numbers and gateway 42tele: 42tele gets the first, `__default__` the other three. |
| Router.CdmaExample | tests/src/Unit/Entity/SmsRoutingRulesetTest.php:53-89 | The cdma ruleset of the test (AND, `number LK 234819%,234704%,234702%,234709%,234707%`, gateway 42tele, weight -4) routes 2348191234500 alone to 42tele and the other three numbers to `__default__`. |
| Operators.CdmaOperands | src/Utility/AdvancedRouting.php:217 | The cdma expression splits into its five operands. |
| Operators.CdmaHit | src/Utility/AdvancedRouting.php:215-227 | A number starting 234819 is like the cdma expression. |
| Operators.CdmaMiss | src/Utility/AdvancedRouting.php:215-227 | A number with no 9 and no slice 2347 is not like the cdma expression. |
| Operators.CdmaNumbers | src/Utility/AdvancedRouting.php:215-227 | Of the test's four numbers, only 2348191234500 is like the cdma expression. |
| Pattern.FoundLiteral | src/Utility/AdvancedRouting.php:221-222 | A search for a pattern that starts with a literal finds that literal in the subject. |
| Router.SharedGatewayLosesNumber | src/Utility/AdvancedRouting.php:57-58 | Two rulesets on one gateway: the second one's match, re-keyed from 0, is dropped by the key-union, so number "2" is routed nowhere. |
| Codec.Flag | src/Utility/AdvancedRouting.php:305 | The leading flag is one character, '1' exactly for an AND ruleset. |
| Codec.Compacted | src/Utility/AdvancedRouting.php:302-311 | The compacted string starts with the flag, whose truthiness is the AND mode. |
| Codec.CompactRulesetRules | src/Utility/AdvancedRouting.php:302-311 | The loop appends `len.key len.payload` for each rule, giving the specification's string. |
| Codec.ExpandRulesetRules | src/Utility/AdvancedRouting.php:324-345 | The loop reads segments until the string is used up, giving the specification's decoding. A round that makes no progress is reported. |
| Codec.NoProgressRepeats | src/Utility/AdvancedRouting.php:328-343 | A round that does not shorten the remainder hands it back unchanged, so the PHP loop would never end. |
| Codec.ExpandedWellFormed | src/Utility/AdvancedRouting.php:324-345 | An expanded rules array has unique keys and no `_ALL_TRUE_` entry. |
| Codec.StepOfSegment | src/Utility/AdvancedRouting.php:329-342 | One round of the expand loop, with `intval` reading decimals and exponents as PHP 8 does, reads back exactly the key, the rule and the remainder that one compacted segment of an encodable rule holds. The operator code of getOpTypes right after the second '.' keeps `intval` from reading on into the payload. |
| Text.IntValExponent | src/Utility/AdvancedRouting.php:334 | `intval` reads a decimal with an exponent whole: "3.1e1" is 31. |
| Text.IntValNoExponent | src/Utility/AdvancedRouting.php:334 | An 'E' with no digit or sign after it ends the number: "3.EQ" is 3. |
| Codec.ExpandSegments | src/Utility/AdvancedRouting.php:328-343 | Expanding a run of compacted segments of encodable rules (operator codes of getOpTypes, no '.' in a name, no `_ALL_TRUE_`) adds exactly their rules, in order. |
| Codec.RoundTrip | src/Utility/AdvancedRouting.php:302-345 | Expanding a compacted rules array gives the rules array back, when the rule names are unique, none is `_ALL_TRUE_`, none contains '.', every operator code is one of the eight of getOpTypes, and the OR-form fields `operator`, `negate` and `value` are empty. |
| SenderFilter.NormalizedChars | src/Utility/SenderIdFilter.php:70-72 | A normalized sender id holds only letters and digits, and no '0' or '1'. |
| SenderFilter.NormalizeIdempotent | src/Utility/SenderIdFilter.php:70-72 | Normalizing twice is normalizing once. |
| SenderFilter.MatchesBounded | src/Utility/SenderIdFilter.php:82 | On a normalized id, the `\b`-search of a plain test is a word-bounded match. |
| SenderFilter.LastMatchIff | src/Utility/SenderIdFilter.php:79-87 | The build loop refuses exactly when some exclusion test matches, and records a matching test. |
| SenderFilter.FirstMatchIff | src/Utility/SenderIdFilter.php:133-140 | The cached loops find a test exactly when some test matches, and return a matching one. |
| SenderFilter.FirstMatching | src/Utility/SenderIdFilter.php:114-119 | The cached foreach returns the first matching test, which is in the list and matches. |
| SenderFilter.LastGrantIff | src/Utility/SenderIdFilter.php:91-108 | The inclusion loops allow exactly when some grant names the user (lower-cased) or `*`, and its test matches. |
| SenderFilter.InclusionOverridesExclusion | src/Utility/SenderIdFilter.php:75-109 | On the first call the id is allowed exactly when no exclusion matches or some applicable inclusion matches. When refused, `$word` holds a matching exclusion. |
| SenderFilter.ListedMatch | src/Utility/SenderIdFilter.php:99-120 | A test filed in the cache under a name matches exactly when some grant to that name matches. |
| SenderFilter.CacheAgreesWithBuild | src/Utility/SenderIdFilter.php:96-142 | Read under the lower-cased user name, the filled cache allows exactly what the build allows, for every user. |
| SenderFilter.RepeatAnswers | src/Utility/SenderIdFilter.php:61-143 | With the cache read under the lower-cased name (`DecideIntended`), every call after any first call answers as a fresh filter would. |
| SenderFilter.SenderIdFilter.IsAllowed | src/Utility/SenderIdFilter.php:61-143 | The method answers and sets `$word` as isAllowed does as written: a fresh filter builds the answer and fills the cache, and a filled cache is read under the user name unchanged. The first checked call that files a test fills the cache; once it is set, no call changes it. |
| SenderFilter.SenderIdFilter.CollectExclusions | src/Utility/SenderIdFilter.php:78-88 | Every truthy exclusion test is filed in the cache in order. The call refuses exactly on a match, and `$word` holds the last match. |
| SenderFilter.SenderIdFilter.CollectInclusions | src/Utility/SenderIdFilter.php:91-108 | Every inclusion grant is filed under its lower-cased name. An applicable match allows, and `$word` holds the last such test. |
| SenderFilter.MixedCaseNameFlips | src/Utility/SenderIdFilter.php:100-113 | A user whose name has capitals is allowed on the first call but refused from the cache as written. |
| SenderFilter.BobExample | src/Utility/SenderIdFilter.php:100-113 | User "Bob" with `excluded = ACME` and `included = bob:ACME`: allowed first, refused from the cache as written. |
| SenderFilter.BobCallsTwice | src/Utility/SenderIdFilter.php:61-143 | Two successive calls on one filter for user "Bob" with sender id ACME answer true, then false with `$word` = ACME. |
| Provider.RoutingDisabled | src/Provider/RuleBasedSmsProvider.php:87-93 | With advanced routing disabled, there is one route, `__default__`, holding every recipient in order. |
| Provider.RoutingEnabled | src/Provider/RuleBasedSmsProvider.php:74-85 | With advanced routing enabled, the provider's presort gives a non-decreasing permutation of the rulesets, and the routing equals that of the loaded list itself, which is what the router computes from its own reload. |
| Provider.Merge | src/Provider/RuleBasedSmsProvider.php:105-115 | An empty list of results merges to no data. |
| Provider.MergeMessageResults | src/Provider/RuleBasedSmsProvider.php:105-115 | The loop computes the merge that starts from status true, zero credits and an empty report. |
| Provider.MergeStatus | src/Provider/RuleBasedSmsProvider.php:108 | The merged status holds exactly when every result's status does. |
| Provider.MergeCreditsAndLast | src/Provider/RuleBasedSmsProvider.php:109-111 | The credits used are the sum over all results. The balance and error message are the last result's. |
| Provider.MergeReport | src/Provider/RuleBasedSmsProvider.php:112 | Each number's report entry comes from the first result that reports it. A later result never overwrites it. |
| Provider.MergeAsWrittenRaises | src/Provider/RuleBasedSmsProvider.php:106-112 | As written, merging any non-empty list raises on the first `+=` to the unset report. |
| Provider.StatusAsWrittenFalsy | src/Provider/RuleBasedSmsProvider.php:106-108 | As written, `&=` from an unset status gives 0, whatever the results say. |
| Provider.OneSuccess | src/Provider/RuleBasedSmsProvider.php:106-112 | For one successful result, the as-written merge reports status 0 and raises, while the corrected merge reports success and the result's own report. |
| RulesetEntity.SmsRoutingRuleset.Id | src/Entity/SmsRoutingRuleset.php:108-110 | The id is the ruleset's name. |
| RulesetEntity.SmsRoutingRuleset.GetPluginCollection | src/Entity/SmsRoutingRuleset.php:115-123 | Builds the collection from the current rules once, then returns the same instance. |
| RulesetEntity.SmsRoutingRuleset.AddRule | src/Entity/SmsRoutingRuleset.php:146-149 | The rule is stored under its name, replacing any older one. The rest is unchanged, and the plugin collection stays in step with the rules. |
| RulesetEntity.SmsRoutingRuleset.RemoveRule | src/Entity/SmsRoutingRuleset.php:151-154 | The rule of that name is gone, the others are unchanged, and the plugin collection stays in step with the rules. |
| RulesetEntity.SmsRoutingRuleset.SetRules | src/Entity/SmsRoutingRuleset.php:156-159 | The rules are replaced and the collection is dropped, to be rebuilt from the new rules on next use. |

## Left out

- Rulesets, settings, the current user, the message's sender and the country-code lookup are loaded or called by the source. Here they are parameters. `AdvancedRouting::routeSmsRecipients($sms)` takes one parameter: it ignores the rulesets the provider passes at src/Provider/RuleBasedSmsProvider.php:85 and reloads them with `AdvancedRoutingRuleset::loadMultiple()`. Here the router is given the loaded list. That loses nothing: both entity classes declare the entity type `sms_advanced_ruleset` (src/Entity/AdvancedRoutingRuleset.php:14, src/Entity/SmsRoutingRuleset.php:16), so the two loads give the same rulesets, and `Router.PresortIrrelevant` shows that the provider's presort changes no routing.
- Regular expressions are modelled only for the fragment the code builds itself from wildcards and plain tests: literals, `.`, `.*`, search, `\b` and `/i` on ASCII letters. RX rules and any other pattern go to an uninterpreted regex predicate in the context.
- PHP's loose comparison in `evaluateRule` (`==`, `<`, `>`) is modelled as a numeric comparison when both sides are integers or signed decimal digit strings, and as a character-wise string comparison otherwise. Decimal points, exponents and surrounding whitespace in numeric strings are not modelled.
- SenderFilter.Applies: the `==` between user names is modelled as string equality. PHP's loose `==` would also equate two different numeric names, such as "10" and "1e1".
- Lengths are character counts, standing for PHP's byte counts. No multi-byte text is modelled.
- Text.IntVal, Codec.ExpandRulesetRules: PHP's `intval` saturates at PHP_INT_MAX (2^63 - 1). Past that, the offset sums at src/Utility/AdvancedRouting.php:334 and :341 overflow to float, and PHP 8's `substr` raises a TypeError. Here `IntVal` is unbounded, so on a malformed compacted string whose length field has 19 or more digits the model reads on where the source raises. The lengths that `compactRulesetRules` writes are string lengths and stay far below the bound. Decimal and exponent forms are computed exactly here, where PHP goes through a double: results past 2^53 may differ.
- PHP turns numeric-string array keys (a rule name "1", a user name "123") into integer keys. The model keeps them as strings.
- Weights: a ruleset's weight is a PHP float (src/Entity/SmsRoutingRuleset.php:61-66), and the test passes it as the numeric string "-4". Here it is a `real`, and a numeric-string weight is read as its number. NaN and infinities are not modelled.
- PHP 8 semantics are assumed throughout. `uasort` is stable, which `Weights.SortStable` and the routing order rest on. `substr` past the end of the string gives "" rather than false.
- Credits and balances are integers here. The source passes floats through.
- Codec.ExpandRulesetRules: on a malformed string whose round makes no progress, the PHP loop never ends. The model returns None instead, and `NoProgressRepeats` shows that such a round repeats forever.
- Codec.RoundTrip: stated only for rules arrays (`EncodableRules`) whose rule names are unique, none named `_ALL_TRUE_` and none containing '.', whose operator codes are among the eight of getOpTypes (src/Utility/AdvancedRouting.php:241-251), and whose OR-form fields `operator`, `negate` and `value` are empty. Expanding reads only op, neg and exp; it reads the operator with `substr($string, 0, 2)`; and it looks for the second '.' starting right after the first, so a '.' in a name breaks the segment. The payload length is read by `intval` from a substring that runs as many characters past the second '.' as the name is long. An operator code such as "1e" would then be read as a fraction and an exponent ("3.1e1" is 31), and the segment would not be read back.
- Router.RoutesPartitionRecipients: requires the rulesets to use distinct gateways, other than `__default__`. With a shared gateway, the `+=` key-union drops numbers (`Router.SharedGatewayLosesNumber`). The model reproduces that behaviour.
- Provider.RouteMessage: the disabled branch builds no `order` entry. It is held as an empty table.
- SenderFilter: the nested foreach loops over the `included` setting are flattened into one list of (name, test) grants in the same order. The build records the last matching test in `$word`, while the cached path records the first; both are modelled as written. The cached path also looks inclusions up under the user name unchanged, as written (`Decide`, `SenderIdFilter.IsAllowed`); the lower-cased lookup is the corrected `DecideIntended` (see Findings).
- SenderFilter: `list($username, $ids) = explode(':', $value)` on a value without ':' leaves `$ids` null in PHP. The model reads it as the empty string, which yields no test either.
- The internals of Drupal's plugin collection (`DefaultLazyPluginCollection`, plugin instantiation) are not part of this model. `PluginCollection` keeps only the configurations keyed by instance id.
- `getRule`, `getRules`, `send()` in the provider, the forms, the event subscriber and the plugins are not part of this model.

## Findings

| source | as written | input that shows it | evidently intended | confidence | as-written member | corrected member |
|---|---|---|---|---|---|---|
| src/Provider/RuleBasedSmsProvider.php:106-112 | `$data = []` and then `$data['report'] += $sms_result->getReport()`: adding an array to the unset key raises "Unsupported operand types" | any non-empty list of results, e.g. one result | the union of the reports, starting from an empty array | high (not executed) | Provider.MergeAsWrittenRaises, Provider.OneSuccess | Provider.MergeMessageResults, Provider.MergeReport |
| src/Provider/RuleBasedSmsProvider.php:106-108 | `$data['status'] &= $status` from an unset key: `null & true` is 0, so the merged status is always 0 | one successful result | true exactly when every result succeeded | high (not executed) | Provider.StatusAsWrittenFalsy, Provider.OneSuccess | Provider.MergeStatus |
| src/Utility/SenderIdFilter.php:100-113 | the build files inclusions under `strtolower(trim($name))`, but the cached path looks them up under `$user->getUsername()` unchanged | user "Bob", `excluded = ACME`, `included = bob:ACME`, sender id ACME: the first call allows, later calls refuse | the cached path reads the same lower-cased key, so every call agrees with the first | high (not executed) | SenderFilter.MixedCaseNameFlips, SenderFilter.BobExample, SenderFilter.SenderIdFilter.IsAllowed, SenderFilter.BobCallsTwice | SenderFilter.CacheAgreesWithBuild, SenderFilter.RepeatAnswers |
