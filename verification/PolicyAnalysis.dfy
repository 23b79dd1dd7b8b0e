/** The policy report: matching imports against patterns, and aggregating the risk. */
module PolicyAnalysis {
  import opened Common
  import opened WasmImports
  import Sorting

  datatype RiskLevel = Low | Medium | High | Critical {
    function Rank(): nat {
      match this
      case Low => 0
      case Medium => 1
      case High => 2
      case Critical => 3
    }
  }

  datatype Pattern = Pattern(moduleName: Name, importName: Name, capability: string, reason: string, risk: RiskLevel)

  datatype Suggestion = Suggestion(capability: string, reason: string, risk: RiskLevel)

  /** An elevated-permission concern comes from a pattern, a foreign one from a non-WASI import. */
  datatype Concern =
    | Elevated(moduleName: Name, name: Name, capability: string, risk: RiskLevel)
    | Foreign(moduleName: Name, name: Name, risk: RiskLevel)

  datatype Report = Report(
    moduleSize: nat,
    imports: seq<Import>,
    suggestions: seq<Suggestion>,
    concerns: seq<Concern>,
    overallRisk: RiskLevel)

  // ----- what matches

  predicate Matches(p: Pattern, i: Import) {
    i.moduleName == p.moduleName && i.name == p.importName
  }

  function SuggestionOf(p: Pattern): Suggestion {
    Suggestion(p.capability, p.reason, p.risk)
  }

  /** p is one of the patterns, i one of the imports, and they match. */
  ghost predicate Match(patterns: seq<Pattern>, imports: seq<Import>, p: Pattern, i: Import) {
    p in patterns && i in imports && Matches(p, i)
  }

  function ElevatedConcern(p: Pattern, i: Import): Concern {
    Elevated(i.moduleName, i.name, p.capability, p.risk)
  }

  function ForeignConcern(i: Import): Concern {
    Foreign(i.moduleName, i.name, Medium)
  }

  // ----- the lists in the order in which the scan fills them

  /** What the patterns suggest for one import. */
  function SuggestionsFor(patterns: seq<Pattern>, i: Import): seq<Suggestion> {
    if patterns == [] then []
    else
      var p := patterns[|patterns| - 1];
      SuggestionsFor(patterns[..|patterns| - 1], i) + if Matches(p, i) then [SuggestionOf(p)] else []
  }

  function ElevatedFor(patterns: seq<Pattern>, i: Import): seq<Concern> {
    if patterns == [] then []
    else
      var p := patterns[|patterns| - 1];
      ElevatedFor(patterns[..|patterns| - 1], i)
      + if Matches(p, i) && p.risk.Rank() >= High.Rank() then [ElevatedConcern(p, i)] else []
  }

  function SuggestionsBy(patterns: seq<Pattern>, imports: seq<Import>): seq<Suggestion> {
    if imports == [] then []
    else SuggestionsBy(patterns, imports[..|imports| - 1]) + SuggestionsFor(patterns, imports[|imports| - 1])
  }

  /** For each import its elevated concerns, then the foreign one. */
  function ConcernsBy(patterns: seq<Pattern>, imports: seq<Import>): seq<Concern> {
    if imports == [] then []
    else
      var i := imports[|imports| - 1];
      ConcernsBy(patterns, imports[..|imports| - 1]) + ElevatedFor(patterns, i)
      + if i.isWasi then [] else [ForeignConcern(i)]
  }

  // ----- what the lists mean

  /** The report's lists and risk, for the matches and foreign imports met so far. */
  ghost predicate Summarises(pairs: seq<(Pattern, Import)>, foreign: seq<Import>,
                             suggestions: seq<Suggestion>, concerns: seq<Concern>, risk: RiskLevel) {
    && (forall x :: x in suggestions <==> exists q | q in pairs :: x == SuggestionOf(q.0))
    && (forall c :: c in concerns <==> Concerning(pairs, foreign, c))
    && (forall q | q in pairs :: q.0.risk.Rank() <= risk.Rank())
    && (foreign != [] ==> Medium.Rank() <= risk.Rank())
    && (risk == Low || (exists q | q in pairs :: q.0.risk == risk) || (foreign != [] && risk == Medium))
  }

  ghost predicate Concerning(pairs: seq<(Pattern, Import)>, foreign: seq<Import>, c: Concern) {
    || (exists q | q in pairs :: q.0.risk.Rank() >= High.Rank() && c == ElevatedConcern(q.0, q.1))
    || (exists i | i in foreign :: c == ForeignConcern(i))
  }

  lemma SummariesNothing()
    ensures Summarises([], [], [], [], Low)
  {
  }

  lemma AddMatch(pairs: seq<(Pattern, Import)>, foreign: seq<Import>,
                 suggestions: seq<Suggestion>, concerns: seq<Concern>, risk: RiskLevel, p: Pattern, i: Import)
    requires Summarises(pairs, foreign, suggestions, concerns, risk)
    ensures Summarises(pairs + [(p, i)], foreign, suggestions + [SuggestionOf(p)],
                       if p.risk.Rank() >= High.Rank() then concerns + [ElevatedConcern(p, i)] else concerns,
                       if p.risk.Rank() > risk.Rank() then p.risk else risk)
  {
    var pairs' := pairs + [(p, i)];
    assert forall q :: q in pairs' <==> q in pairs || q == (p, i);
    assert (p, i) in pairs';
    forall c
      ensures Concerning(pairs', foreign, c)
        <==> Concerning(pairs, foreign, c) || (p.risk.Rank() >= High.Rank() && c == ElevatedConcern(p, i))
    {
    }
  }

  lemma AddForeign(pairs: seq<(Pattern, Import)>, foreign: seq<Import>,
                   suggestions: seq<Suggestion>, concerns: seq<Concern>, risk: RiskLevel, i: Import)
    requires Summarises(pairs, foreign, suggestions, concerns, risk)
    ensures Summarises(pairs, foreign + [i], suggestions, concerns + [ForeignConcern(i)],
                       if risk.Rank() < Medium.Rank() then Medium else risk)
  {
    var foreign' := foreign + [i];
    assert forall x :: x in foreign' <==> x in foreign || x == i;
    forall c
      ensures Concerning(pairs, foreign', c) <==> Concerning(pairs, foreign, c) || c == ForeignConcern(i)
    {
    }
  }

  // ----- capabilities in order

  predicate LexLeq(a: string, b: string) {
    if a == [] then true
    else if b == [] then false
    else a[0] < b[0] || (a[0] == b[0] && LexLeq(a[1..], b[1..]))
  }

  lemma {:induction false} LexTotal(a: string, b: string)
    ensures LexLeq(a, b) || LexLeq(b, a)
    ensures LexLeq(a, b) && LexLeq(b, a) ==> a == b
  {
    if a != [] && b != [] {
      LexTotal(a[1..], b[1..]);
      assert a == [a[0]] + a[1..] && b == [b[0]] + b[1..];
    }
  }

  lemma {:induction false} LexTransitive(a: string, b: string, c: string)
    requires LexLeq(a, b) && LexLeq(b, c)
    ensures LexLeq(a, c)
  {
    if a != [] {
      if a[0] == b[0] && b[0] == c[0] {
        LexTransitive(a[1..], b[1..], c[1..]);
      }
    }
  }

  /** a and b agree up to k, where a is smaller. */
  ghost predicate SmallerAt(a: string, b: string, k: nat) {
    k < |a| && k < |b| && a[..k] == b[..k] && a[k] < b[k]
  }

  lemma SmallerInTail(a: string, b: string, k: nat)
    requires a != [] && b != [] && a[0] == b[0]
    ensures SmallerAt(a, b, k + 1) <==> SmallerAt(a[1..], b[1..], k)
    ensures !SmallerAt(a, b, 0)
    ensures a <= b <==> a[1..] <= b[1..]
  {
    assert a == [a[0]] + a[1..] && b == [a[0]] + b[1..];
    if k < |a[1..]| && k < |b[1..]| {
      assert a[..k + 1] == [a[0]] + a[1..][..k] && b[..k + 1] == [a[0]] + b[1..][..k];
      assert a[1..][..k] == a[..k + 1][1..] && b[1..][..k] == b[..k + 1][1..];
    }
  }

  lemma SmallerAtFront(a: string, b: string, k: nat)
    requires a != [] && b != [] && a[0] != b[0]
    ensures SmallerAt(a, b, k) <==> k == 0 && a[0] < b[0]
  {
    if k > 0 && k < |a| && k < |b| {
      assert a[..k][0] == a[0] && b[..k][0] == b[0];
    }
  }

  /** In plain terms: a is a prefix of b, or smaller at the first place where they differ. */
  lemma {:induction false} LexLeqIff(a: string, b: string)
    ensures LexLeq(a, b) <==> a <= b || exists k: nat :: SmallerAt(a, b, k)
  {
    hide SmallerAt;
    if a == [] || b == [] {
      forall k: nat
        ensures !SmallerAt(a, b, k)
      {
        NeverSmallerAt(a, b, k);
      }
    } else if a[0] == b[0] {
      var a', b' := a[1..], b[1..];
      LexLeqIff(a', b');
      SmallerInTail(a, b, 0);
      if k: nat :| SmallerAt(a', b', k) {
        SmallerInTail(a, b, k);
        assert SmallerAt(a, b, k + 1);
      }
      if k: nat :| SmallerAt(a, b, k) {
        SmallerInTail(a, b, k - 1);
        assert SmallerAt(a', b', k - 1);
      }
    } else {
      forall k: nat
        ensures SmallerAt(a, b, k) <==> k == 0 && a[0] < b[0]
      {
        SmallerAtFront(a, b, k);
      }
      SmallerAtFront(a, b, 0);
      assert !(a <= b);
    }
  }

  lemma NeverSmallerAt(a: string, b: string, k: nat)
    requires a == [] || b == []
    ensures !SmallerAt(a, b, k)
  {
  }

  function ByCapability(): (Suggestion, Suggestion) -> bool {
    (a: Suggestion, b: Suggestion) => LexLeq(a.capability, b.capability)
  }

  lemma ByCapabilityIsPreorder()
    ensures Sorting.TotalPreorder(ByCapability())
  {
    forall x: Suggestion, y: Suggestion {
      LexTotal(x.capability, y.capability);
    }
    forall x: Suggestion, y: Suggestion, z: Suggestion | LexLeq(x.capability, y.capability) && LexLeq(y.capability, z.capability) {
      LexTransitive(x.capability, y.capability, z.capability);
    }
  }

  /** The suggestions for one capability, in order. */
  function Of(s: seq<Suggestion>, capability: string): seq<Suggestion> {
    if s == [] then []
    else (if s[0].capability == capability then [s[0]] else []) + Of(s[1..], capability)
  }

  lemma {:induction false} InsertIsStable(x: Suggestion, s: seq<Suggestion>, capability: string)
    ensures Of(Sorting.Insert(ByCapability(), x, s), capability) == Of([x] + s, capability)
  {
    assert ([x] + s)[1..] == s;
    if s != [] && !ByCapability()(x, s[0]) {
      var rest := Sorting.Insert(ByCapability(), x, s[1..]);
      assert ([s[0]] + rest)[1..] == rest && ([x] + s[1..])[1..] == s[1..];
      InsertIsStable(x, s[1..], capability);
      LexTotal(x.capability, s[0].capability);
    }
  }

  /** Sorting keeps the order of suggestions for the same capability. */
  lemma {:induction false} SortIsStable(s: seq<Suggestion>, capability: string)
    ensures Of(Sorting.Sort(ByCapability(), s), capability) == Of(s, capability)
  {
    if s != [] {
      var rest := Sorting.Sort(ByCapability(), s[1..]);
      SortIsStable(s[1..], capability);
      InsertIsStable(s[0], rest, capability);
      assert ([s[0]] + rest)[1..] == rest;
    }
  }

  /** x comes before everything else in s for its capability. */
  ghost predicate IsFirstOf(s: seq<Suggestion>, x: Suggestion) {
    Of(s, x.capability) != [] && Of(s, x.capability)[0] == x
  }

  lemma {:induction false} FirstAt(s: seq<Suggestion>, i: nat)
    requires i < |s| && forall k | 0 <= k < i :: s[k].capability != s[i].capability
    ensures IsFirstOf(s, s[i])
  {
    if i > 0 {
      FirstAt(s[1..], i - 1);
    }
  }

  /** Strictly increasing capabilities: sorted, and none twice. */
  ghost predicate StrictlySorted(s: seq<Suggestion>) {
    forall i, j | 0 <= i < j < |s| :: LexLeq(s[i].capability, s[j].capability) && s[i].capability != s[j].capability
  }

  ghost predicate Covers(s: seq<Suggestion>, capability: string) {
    exists x | x in s :: x.capability == capability
  }

  /** Drops every element whose capability equals that of the one kept before it. */
  method DedupByCapability(s: seq<Suggestion>) returns (r: seq<Suggestion>)
    requires Sorting.Sorted(ByCapability(), s)
    ensures StrictlySorted(r)
    ensures forall x | x in r :: x in s && IsFirstOf(s, x)
    ensures forall x | x in s :: Covers(r, x.capability)
  {
    hide StrictlySorted, IsFirstOf, Covers;
    r := [];
    StrictlySortedEmpty();
    for i := 0 to |s|
      invariant StrictlySorted(r)
      invariant forall x | x in r :: x in s[..i] && IsFirstOf(s, x)
      invariant forall k | 0 <= k < i :: Covers(r, s[k].capability)
      invariant r == [] <==> i == 0
      invariant i > 0 ==> r[|r| - 1].capability == s[i - 1].capability
    {
      if r == [] || s[i].capability != r[|r| - 1].capability {
        StepUp(s, i, r);
        NotCovered(s, i, r);
        FirstAt(s, i);
        CoversMore(r, s[i]);
        r := r + [s[i]];
      } else {
        CoversLast(r);
      }
    }
  }

  lemma StrictlySortedEmpty()
    ensures StrictlySorted([])
  {
  }

  lemma CoversLast(r: seq<Suggestion>)
    requires r != []
    ensures Covers(r, r[|r| - 1].capability)
  {
    assert r[|r| - 1] in r;
  }

  lemma CoversMore(r: seq<Suggestion>, x: Suggestion)
    ensures Covers(r + [x], x.capability)
    ensures forall c | Covers(r, c) :: Covers(r + [x], c)
  {
    assert x in r + [x];
    assert forall y | y in r :: y in r + [x];
  }

  lemma NotCovered(s: seq<Suggestion>, i: nat, r: seq<Suggestion>)
    requires i < |s| && StrictlySorted(r + [s[i]])
    requires forall k | 0 <= k < i :: Covers(r, s[k].capability)
    ensures forall k | 0 <= k < i :: s[k].capability != s[i].capability
  {
    forall k | 0 <= k < i
      ensures s[k].capability != s[i].capability
    {
      var x :| x in r && x.capability == s[k].capability;
      var a :| 0 <= a < |r| && r[a] == x;
      assert (r + [s[i]])[a].capability != (r + [s[i]])[|r|].capability;
    }
  }

  /** Everything kept so far is strictly below a new capability. */
  lemma StepUp(s: seq<Suggestion>, i: nat, r: seq<Suggestion>)
    requires Sorting.Sorted(ByCapability(), s) && i < |s| && StrictlySorted(r)
    requires forall x | x in r :: x in s[..i]
    requires r != [] ==> s[i].capability != r[|r| - 1].capability
    ensures StrictlySorted(r + [s[i]])
  {
    var r' := r + [s[i]];
    forall a | 0 <= a < |r|
      ensures LexLeq(r[a].capability, s[i].capability) && r[a].capability != s[i].capability
    {
      var last := r[|r| - 1];
      assert r[a] in s[..i] && last in s[..i];
      var k :| 0 <= k < i && s[k] == r[a];
      var m :| 0 <= m < i && s[m] == last;
      assert ByCapability()(s[k], s[i]) && ByCapability()(s[m], s[i]);
      if r[a].capability == s[i].capability {
        LexTotal(last.capability, s[i].capability);
      }
    }
  }

  // ----- the report

  /** The scan over all imports and patterns; `pairs` and `foreign` record what it met. */
  method Scan(patterns: seq<Pattern>, imports: seq<Import>)
    returns (suggestions: seq<Suggestion>, concerns: seq<Concern>, maxRisk: RiskLevel,
             ghost pairs: seq<(Pattern, Import)>, ghost foreign: seq<Import>)
    ensures suggestions == SuggestionsBy(patterns, imports) && concerns == ConcernsBy(patterns, imports)
    ensures Summarises(pairs, foreign, suggestions, concerns, maxRisk)
    ensures forall p, i :: (p, i) in pairs <==> Match(patterns, imports, p, i)
    ensures forall i :: i in foreign <==> i in imports && !i.isWasi
  {
    hide SuggestionsFor, ElevatedFor;
    SummariesNothing();
    hide Summarises;
    suggestions, concerns, maxRisk := [], [], Low;
    pairs, foreign := [], [];
    for n := 0 to |imports|
      invariant suggestions == SuggestionsBy(patterns, imports[..n]) && concerns == ConcernsBy(patterns, imports[..n])
      invariant Summarises(pairs, foreign, suggestions, concerns, maxRisk)
      invariant forall p, i :: (p, i) in pairs <==> Match(patterns, imports[..n], p, i)
      invariant forall i :: i in foreign <==> i in imports[..n] && !i.isWasi
    {
      var i := imports[n];
      suggestions, concerns, maxRisk, pairs := ScanPatterns(patterns, i, suggestions, concerns, maxRisk, pairs, foreign);
      if !i.isWasi {
        AddForeign(pairs, foreign, suggestions, concerns, maxRisk, i);
        concerns := concerns + [ForeignConcern(i)];
        if maxRisk.Rank() < Medium.Rank() {
          maxRisk := Medium;
        }
        foreign := foreign + [i];
      }
      assert imports[..n + 1][..n] == imports[..n];
      assert forall x :: x in imports[..n + 1] <==> x in imports[..n] || x == i;
    }
    assert imports[..|imports|] == imports;
  }

  lemma PatternsMore(patterns: seq<Pattern>, m: nat, i: Import)
    requires m < |patterns|
    ensures SuggestionsFor(patterns[..m + 1], i)
         == SuggestionsFor(patterns[..m], i) + if Matches(patterns[m], i) then [SuggestionOf(patterns[m])] else []
    ensures ElevatedFor(patterns[..m + 1], i) == ElevatedFor(patterns[..m], i)
         + if Matches(patterns[m], i) && patterns[m].risk.Rank() >= High.Rank() then [ElevatedConcern(patterns[m], i)] else []
    ensures forall x :: x in patterns[..m + 1] <==> x in patterns[..m] || x == patterns[m]
  {
    assert patterns[..m + 1][..m] == patterns[..m];
  }

  /** The loop over the patterns, for one import. */
  method ScanPatterns(patterns: seq<Pattern>, i: Import, suggestions: seq<Suggestion>, concerns: seq<Concern>,
                      maxRisk: RiskLevel, ghost pairs: seq<(Pattern, Import)>, ghost foreign: seq<Import>)
    returns (suggestions': seq<Suggestion>, concerns': seq<Concern>, maxRisk': RiskLevel,
             ghost pairs': seq<(Pattern, Import)>)
    requires Summarises(pairs, foreign, suggestions, concerns, maxRisk)
    ensures suggestions' == suggestions + SuggestionsFor(patterns, i)
    ensures concerns' == concerns + ElevatedFor(patterns, i)
    ensures Summarises(pairs', foreign, suggestions', concerns', maxRisk')
    ensures forall p, k :: (p, k) in pairs' <==> (p, k) in pairs || (k == i && p in patterns && Matches(p, i))
  {
    hide Summarises;
    suggestions', concerns', maxRisk', pairs' := suggestions, concerns, maxRisk, pairs;
    for m := 0 to |patterns|
      invariant suggestions' == suggestions + SuggestionsFor(patterns[..m], i)
      invariant concerns' == concerns + ElevatedFor(patterns[..m], i)
      invariant Summarises(pairs', foreign, suggestions', concerns', maxRisk')
      invariant forall p, k ::
        (p, k) in pairs' <==> (p, k) in pairs || (k == i && p in patterns[..m] && Matches(p, i))
    {
      var p := patterns[m];
      PatternsMore(patterns, m, i);
      if i.moduleName == p.moduleName && i.name == p.importName {
        AddMatch(pairs', foreign, suggestions', concerns', maxRisk', p, i);
        suggestions' := suggestions' + [SuggestionOf(p)];
        if p.risk.Rank() > maxRisk'.Rank() {
          maxRisk' := p.risk;
        }
        if p.risk.Rank() >= High.Rank() {
          concerns' := concerns' + [ElevatedConcern(p, i)];
        }
        pairs' := pairs' + [(p, i)];
      }
    }
    assert patterns[..|patterns|] == patterns;
  }

  /** A risk level the report has a reason to mention. */
  ghost predicate Contributes(patterns: seq<Pattern>, imports: seq<Import>, risk: RiskLevel) {
    || risk == Low
    || (exists p, i :: Match(patterns, imports, p, i) && p.risk == risk)
    || (risk == Medium && exists i | i in imports :: !i.isWasi)
  }

  /** The reason for a concern: a match of high risk, or a foreign import. */
  ghost predicate Justified(patterns: seq<Pattern>, imports: seq<Import>, c: Concern) {
    || (exists p, i :: Match(patterns, imports, p, i) && p.risk.Rank() >= High.Rank() && c == ElevatedConcern(p, i))
    || (exists i | i in imports :: !i.isWasi && c == ForeignConcern(i))
  }

  /** The overall risk is the exact maximum of what contributes to it; the concerns are exactly the
      high matches and the foreign imports, and none exceeds the overall risk. */
  ghost predicate RiskExact(patterns: seq<Pattern>, imports: seq<Import>, concerns: seq<Concern>, overall: RiskLevel) {
    && Contributes(patterns, imports, overall)
    && (forall risk | Contributes(patterns, imports, risk) :: risk.Rank() <= overall.Rank())
    && (forall c | c in concerns :: c.risk.Rank() <= overall.Rank())
    && (forall c :: c in concerns <==> Justified(patterns, imports, c))
  }

  /** The suggestions are strictly sorted, each from a match and the first found for its capability,
      and cover every matched capability. */
  ghost predicate SuggestionsExact(patterns: seq<Pattern>, imports: seq<Import>, suggestions: seq<Suggestion>) {
    && StrictlySorted(suggestions)
    && (forall x | x in suggestions :: exists p, i :: Match(patterns, imports, p, i) && x == SuggestionOf(p))
    && (forall x | x in suggestions :: IsFirstOf(SuggestionsBy(patterns, imports), x))
    && (forall p, i | Match(patterns, imports, p, i) :: Covers(suggestions, p.capability))
  }

  // ----- the report in plain terms

  /** p is one of the patterns, i one of the imports, and they have the same module and name. */
  ghost predicate Matched(patterns: seq<Pattern>, imports: seq<Import>, p: Pattern, i: Import) {
    p in patterns && i in imports && i.moduleName == p.moduleName && i.name == p.importName
  }

  ghost predicate MatchedAt(patterns: seq<Pattern>, imports: seq<Import>, risk: RiskLevel) {
    exists p, i :: Matched(patterns, imports, p, i) && p.risk == risk
  }

  ghost predicate SomeForeign(imports: seq<Import>) {
    exists i | i in imports :: !NamedWasi(i.moduleName)
  }

  /** Imports are flagged by their module names. */
  ghost predicate Flagged(imports: seq<Import>) {
    forall i | i in imports :: i.isWasi <==> NamedWasi(i.moduleName)
  }

  lemma FlagsAreNames(bytes: seq<byte>)
    ensures Extract(bytes).Parsed? ==> Flagged(Extract(bytes).imports)
  {
    hide Extract;
    ReportedWasiIff(bytes);
  }

  /** Critical if something critical matches; else High if something high does; else Medium if something
      of medium risk does, or an import is foreign; else Low. */
  ghost predicate RiskByCases(patterns: seq<Pattern>, imports: seq<Import>, overall: RiskLevel) {
    overall ==
      if MatchedAt(patterns, imports, Critical) then Critical
      else if MatchedAt(patterns, imports, High) then High
      else if MatchedAt(patterns, imports, Medium) || SomeForeign(imports) then Medium
      else Low
  }

  lemma RiskIsByCases(patterns: seq<Pattern>, imports: seq<Import>, concerns: seq<Concern>, overall: RiskLevel)
    requires RiskExact(patterns, imports, concerns, overall) && Flagged(imports)
    ensures RiskByCases(patterns, imports, overall)
  {
    hide NamedWasi, Justified;
    forall risk | MatchedAt(patterns, imports, risk)
      ensures Contributes(patterns, imports, risk)
    {
      var p, i :| Matched(patterns, imports, p, i) && p.risk == risk;
      assert Match(patterns, imports, p, i);
    }
    assert SomeForeign(imports) ==> Contributes(patterns, imports, Medium);
    if p, i :| Match(patterns, imports, p, i) && p.risk == overall {
      assert Matched(patterns, imports, p, i);
    }
    forall risk: RiskLevel
      ensures risk.Rank() <= overall.Rank() <==>
        risk == overall || risk == Low || (risk == Medium && overall != Low) || overall == Critical
    {
    }
  }

  // ----- which suggestion is kept, in plain terms

  /** Import a has module and name of pattern b. */
  predicate Hit(patterns: seq<Pattern>, imports: seq<Import>, a: nat, b: nat) {
    && a < |imports| && b < |patterns|
    && imports[a].moduleName == patterns[b].moduleName && imports[a].name == patterns[b].importName
  }

  /** Going through the imports, and for each through the patterns, the first hit for a capability is
      import a with pattern b. */
  ghost predicate FirstHit(patterns: seq<Pattern>, imports: seq<Import>, a: nat, b: nat, capability: string) {
    && Hit(patterns, imports, a, b) && patterns[b].capability == capability
    && (forall a': nat, b': nat | Hit(patterns, imports, a', b') && patterns[b'].capability == capability ::
          a < a' || (a == a' && b <= b'))
  }

  lemma OfFirst(s: seq<Suggestion>, capability: string)
    requires s != []
    ensures Of(s, capability) == Of([s[0]], capability) + Of(s[1..], capability)
  {
    assert [s[0]][1..] == [];
  }

  lemma {:induction false} OfConcat(s: seq<Suggestion>, t: seq<Suggestion>, capability: string)
    ensures Of(s + t, capability) == Of(s, capability) + Of(t, capability)
  {
    if s == [] {
      assert s + t == t;
    } else {
      hide Of;
      assert (s + t)[1..] == s[1..] + t;
      OfFirst(s + t, capability);
      OfFirst(s, capability);
      OfConcat(s[1..], t, capability);
    }
  }

  lemma {:induction false} HitIsSuggested(patterns: seq<Pattern>, i: Import, b: nat)
    requires b < |patterns| && Matches(patterns[b], i)
    ensures Of(SuggestionsFor(patterns, i), patterns[b].capability) != []
  {
    var init, p := patterns[..|patterns| - 1], patterns[|patterns| - 1];
    OfConcat(SuggestionsFor(init, i), if Matches(p, i) then [SuggestionOf(p)] else [], patterns[b].capability);
    if b < |init| {
      HitIsSuggested(init, i, b);
    }
  }

  /** The first suggestion for one import comes from the first pattern it hits. */
  lemma {:induction false} FirstPattern(patterns: seq<Pattern>, i: Import, x: Suggestion) returns (b: nat)
    requires IsFirstOf(SuggestionsFor(patterns, i), x)
    ensures b < |patterns| && Matches(patterns[b], i) && x == SuggestionOf(patterns[b])
    ensures forall b': nat | b' < b && Matches(patterns[b'], i) :: patterns[b'].capability != x.capability
  {
    hide Matches;
    var init, p := patterns[..|patterns| - 1], patterns[|patterns| - 1];
    OfConcat(SuggestionsFor(init, i), if Matches(p, i) then [SuggestionOf(p)] else [], x.capability);
    if Of(SuggestionsFor(init, i), x.capability) != [] {
      b := FirstPattern(init, i, x);
    } else {
      b := |init|;
      forall b': nat | b' < b && Matches(patterns[b'], i)
        ensures patterns[b'].capability != x.capability
      {
        HitIsSuggested(init, i, b');
      }
    }
  }

  lemma {:induction false} HitIsSuggestedBy(patterns: seq<Pattern>, imports: seq<Import>, a: nat, b: nat)
    requires Hit(patterns, imports, a, b)
    ensures Of(SuggestionsBy(patterns, imports), patterns[b].capability) != []
  {
    hide SuggestionsFor, Of;
    var init, i := imports[..|imports| - 1], imports[|imports| - 1];
    OfConcat(SuggestionsBy(patterns, init), SuggestionsFor(patterns, i), patterns[b].capability);
    if a < |init| {
      HitIsSuggestedBy(patterns, init, a, b);
    } else {
      HitIsSuggested(patterns, i, b);
    }
  }

  /** If the imports before hit nothing for the capability, the last one's first pattern does. */
  lemma FirstHitIsLast(patterns: seq<Pattern>, init: seq<Import>, i: Import, b: nat, x: Suggestion)
    requires Of(SuggestionsBy(patterns, init), x.capability) == []
    requires b < |patterns| && Matches(patterns[b], i) && x == SuggestionOf(patterns[b])
    requires forall b': nat | b' < b && Matches(patterns[b'], i) :: patterns[b'].capability != x.capability
    ensures FirstHit(patterns, init + [i], |init|, b, x.capability)
  {
    hide Of, SuggestionsBy;
    forall a': nat, b': nat | Hit(patterns, init + [i], a', b') && patterns[b'].capability == x.capability
      ensures |init| < a' || (|init| == a' && b <= b')
    {
      if a' < |init| {
        HitIsSuggestedBy(patterns, init, a', b');
      }
    }
  }

  /** The first suggestion of all comes from the first hit. */
  lemma {:induction false} FirstSuggestionIsFirstHit(patterns: seq<Pattern>, imports: seq<Import>, x: Suggestion)
    returns (a: nat, b: nat)
    requires IsFirstOf(SuggestionsBy(patterns, imports), x)
    ensures FirstHit(patterns, imports, a, b, x.capability)
    ensures x == Suggestion(patterns[b].capability, patterns[b].reason, patterns[b].risk)
  {
    assert imports != [];
    hide SuggestionsFor, Of;
    var init, i := imports[..|imports| - 1], imports[|imports| - 1];
    assert imports == init + [i];
    OfConcat(SuggestionsBy(patterns, init), SuggestionsFor(patterns, i), x.capability);
    hide FirstHit;
    if Of(SuggestionsBy(patterns, init), x.capability) != [] {
      a, b := FirstSuggestionIsFirstHit(patterns, init, x);
      FirstHitStays(patterns, init, i, a, b, x.capability);
      FirstHitInRange(patterns, imports, a, b, x.capability);
    } else {
      a := |init|;
      b := FirstPattern(patterns, i, x);
      FirstHitIsLast(patterns, init, i, b, x);
    }
  }

  lemma FirstHitInRange(patterns: seq<Pattern>, imports: seq<Import>, a: nat, b: nat, capability: string)
    requires FirstHit(patterns, imports, a, b, capability)
    ensures a < |imports| && b < |patterns|
  {
  }

  lemma FirstHitStays(patterns: seq<Pattern>, init: seq<Import>, i: Import, a: nat, b: nat, capability: string)
    requires FirstHit(patterns, init, a, b, capability)
    ensures FirstHit(patterns, init + [i], a, b, capability)
  {
    forall a': nat, b': nat | Hit(patterns, init + [i], a', b') && patterns[b'].capability == capability
      ensures a < a' || (a == a' && b <= b')
    {
      if a' < |init| {
        assert Hit(patterns, init, a', b');
      }
    }
  }

  /** The suggestion of the first hit for its capability. */
  ghost predicate FromFirstHit(patterns: seq<Pattern>, imports: seq<Import>, a: nat, b: nat, x: Suggestion) {
    FirstHit(patterns, imports, a, b, x.capability)
    && x == Suggestion(patterns[b].capability, patterns[b].reason, patterns[b].risk)
  }

  ghost predicate FromFirstHits(patterns: seq<Pattern>, imports: seq<Import>, suggestions: seq<Suggestion>) {
    forall x | x in suggestions :: exists a: nat, b: nat :: FromFirstHit(patterns, imports, a, b, x)
  }

  lemma SuggestionsAreFirstHits(patterns: seq<Pattern>, imports: seq<Import>, suggestions: seq<Suggestion>)
    requires SuggestionsExact(patterns, imports, suggestions)
    ensures FromFirstHits(patterns, imports, suggestions)
  {
    hide IsFirstOf, FirstHit, StrictlySorted;
    forall x | x in suggestions
      ensures exists a: nat, b: nat :: FromFirstHit(patterns, imports, a, b, x)
    {
      var a, b := FirstSuggestionIsFirstHit(patterns, imports, x);
      assert FromFirstHit(patterns, imports, a, b, x);
    }
  }

  /** A high or critical match makes a concern of that risk, a foreign import one of medium risk. */
  ghost predicate ConcernsByCases(patterns: seq<Pattern>, imports: seq<Import>, concerns: seq<Concern>) {
    forall c :: c in concerns <==>
      match c
      case Elevated(moduleName, name, capability, risk) =>
        && (risk == High || risk == Critical)
        && exists p, i :: Matched(patterns, imports, p, i) && i.moduleName == moduleName && i.name == name
                          && p.capability == capability && p.risk == risk
      case Foreign(moduleName, name, risk) =>
        && risk == Medium
        && exists i | i in imports :: !NamedWasi(i.moduleName) && i.moduleName == moduleName && i.name == name
  }

  lemma ConcernsAreByCases(patterns: seq<Pattern>, imports: seq<Import>, concerns: seq<Concern>, overall: RiskLevel)
    requires RiskExact(patterns, imports, concerns, overall) && Flagged(imports)
    ensures ConcernsByCases(patterns, imports, concerns)
  {
    hide NamedWasi, Contributes;
    forall p: Pattern, i: Import
      ensures Match(patterns, imports, p, i) <==> Matched(patterns, imports, p, i)
    {
    }
    hide Match, Matched;
  }

  lemma NothingIn(concerns: seq<Concern>)
    ensures (forall c :: c !in concerns) ==> concerns == []
  {
    if |concerns| > 0 {
      assert concerns[0] in concerns;
    }
  }

  ghost predicate OnlyLow(patterns: seq<Pattern>, imports: seq<Import>) {
    && (forall i | i in imports :: NamedWasi(i.moduleName))
    && (forall p, i | Matched(patterns, imports, p, i) :: p.risk == Low)
  }

  /** A module that imports only under the names of WASI, and nothing above low risk, is of low risk and
      raises no concern. */
  lemma LowModules(patterns: seq<Pattern>, imports: seq<Import>, concerns: seq<Concern>, overall: RiskLevel)
    requires RiskByCases(patterns, imports, overall) && ConcernsByCases(patterns, imports, concerns)
    requires OnlyLow(patterns, imports)
    ensures overall == Low && concerns == []
  {
    hide NamedWasi;
    NothingIn(concerns);
  }

  class ModuleAnalyzer {
    const patterns: seq<Pattern>

    constructor (patterns: seq<Pattern>)
      ensures this.patterns == patterns
    {
      this.patterns := patterns;
    }

    /** None when reading the imports traps. */
    method Analyze(wasmBytes: seq<byte>) returns (r: Option<Report>)
      ensures r.None? <==> Extract(wasmBytes).Trap?
      ensures r.Some? ==> r.value.moduleSize == |wasmBytes| && r.value.imports == Extract(wasmBytes).imports
      ensures r.Some? ==> r.value.concerns == ConcernsBy(patterns, r.value.imports)
      ensures r.Some? ==> RiskExact(patterns, r.value.imports, r.value.concerns, r.value.overallRisk)
      ensures r.Some? ==> Flagged(r.value.imports)
      ensures r.Some? ==> RiskByCases(patterns, r.value.imports, r.value.overallRisk)
      ensures r.Some? ==> ConcernsByCases(patterns, r.value.imports, r.value.concerns)
      ensures r.Some? ==> FromFirstHits(patterns, r.value.imports, r.value.suggestions)
      ensures r.Some? && OnlyLow(patterns, r.value.imports) ==>
        r.value.overallRisk == Low && r.value.concerns == []
      ensures r.Some? ==> SuggestionsExact(patterns, r.value.imports, r.value.suggestions)
    {
      hide Extract, Summarises, Match, Matched, SuggestionsBy, ConcernsBy, IsFirstOf, NamedWasi;
      hide RiskExact, RiskByCases, ConcernsByCases, SuggestionsExact, FromFirstHits, OnlyLow;
      var parsed := ExtractImports(wasmBytes);
      match parsed {
        case Trap =>
          return None;
        case Parsed(imports, _) =>
          var found, concerns, maxRisk, pairs, foreign := Scan(patterns, imports);
          ByCapabilityIsPreorder();
          Sorting.SortSorts(ByCapability(), found);
          var sorted := Sorting.Sort(ByCapability(), found);
          var suggestions := DedupByCapability(sorted);
          RiskIsExact(patterns, imports, found, concerns, maxRisk, pairs, foreign);
          FlagsAreNames(wasmBytes);
          RiskIsByCases(patterns, imports, concerns, maxRisk);
          ConcernsAreByCases(patterns, imports, concerns, maxRisk);
          if OnlyLow(patterns, imports) {
            LowModules(patterns, imports, concerns, maxRisk);
          }
          SuggestionsAreExact(patterns, imports, found, sorted, suggestions, concerns, maxRisk, pairs, foreign);
          SuggestionsAreFirstHits(patterns, imports, suggestions);
          return Some(Report(|wasmBytes|, imports, suggestions, concerns, maxRisk));
      }
    }
  }

  /** The concerns are the high matches and the foreign imports; none exceeds the risk. */
  lemma ConcernsAreExact(patterns: seq<Pattern>, imports: seq<Import>, found: seq<Suggestion>, concerns: seq<Concern>,
                         overall: RiskLevel, pairs: seq<(Pattern, Import)>, foreign: seq<Import>)
    requires Summarises(pairs, foreign, found, concerns, overall)
    requires forall p, i :: (p, i) in pairs <==> Match(patterns, imports, p, i)
    requires forall i :: i in foreign <==> i in imports && !i.isWasi
    ensures forall c :: c in concerns <==> Justified(patterns, imports, c)
    ensures forall c | c in concerns :: c.risk.Rank() <= overall.Rank()
  {
    hide Match;
    forall c
      ensures c in concerns <==> Justified(patterns, imports, c)
      ensures c in concerns ==> c.risk.Rank() <= overall.Rank()
    {
      assert c in concerns <==> Concerning(pairs, foreign, c);
      if q :| q in pairs && q.0.risk.Rank() >= High.Rank() && c == ElevatedConcern(q.0, q.1) {
        assert (q.0, q.1) in pairs;
      } else if i :| i in foreign && c == ForeignConcern(i) {
        assert foreign != [];
      }
    }
  }

  lemma RiskIsExact(patterns: seq<Pattern>, imports: seq<Import>, found: seq<Suggestion>, concerns: seq<Concern>,
                    overall: RiskLevel, pairs: seq<(Pattern, Import)>, foreign: seq<Import>)
    requires Summarises(pairs, foreign, found, concerns, overall)
    requires forall p, i :: (p, i) in pairs <==> Match(patterns, imports, p, i)
    requires forall i :: i in foreign <==> i in imports && !i.isWasi
    ensures RiskExact(patterns, imports, concerns, overall)
  {
    hide Match, Concerning, Justified;
    ConcernsAreExact(patterns, imports, found, concerns, overall, pairs, foreign);
    forall p, i | Match(patterns, imports, p, i)
      ensures p.risk.Rank() <= overall.Rank()
    {
      assert (p, i) in pairs;
    }
    if q :| q in pairs && q.0.risk == overall {
      assert (q.0, q.1) in pairs;
      assert Match(patterns, imports, q.0, q.1);
    } else if overall != Low {
      assert foreign[0] in foreign;
    }
  }

  lemma SuggestionsAreExact(patterns: seq<Pattern>, imports: seq<Import>, found: seq<Suggestion>, sorted: seq<Suggestion>,
                            suggestions: seq<Suggestion>, concerns: seq<Concern>, overall: RiskLevel,
                            pairs: seq<(Pattern, Import)>, foreign: seq<Import>)
    requires Summarises(pairs, foreign, found, concerns, overall)
    requires forall p, i :: (p, i) in pairs <==> Match(patterns, imports, p, i)
    requires multiset(sorted) == multiset(found)
    requires StrictlySorted(suggestions)
    requires found == SuggestionsBy(patterns, imports) && sorted == Sorting.Sort(ByCapability(), found)
    requires forall x | x in suggestions :: x in sorted && IsFirstOf(sorted, x)
    requires forall x | x in sorted :: Covers(suggestions, x.capability)
    ensures SuggestionsExact(patterns, imports, suggestions)
  {
    hide Match, SuggestionsBy;
    forall x | x in suggestions
      ensures IsFirstOf(found, x)
    {
      SortIsStable(found, x.capability);
    }
    forall x
      ensures x in found <==> x in sorted
    {
      assert x in found <==> x in multiset(found);
      assert x in sorted <==> x in multiset(sorted);
    }
    forall p, i | Match(patterns, imports, p, i)
      ensures Covers(suggestions, p.capability)
    {
      assert (p, i) in pairs;
      assert SuggestionOf(p) in found;
    }
    forall x | x in suggestions
      ensures exists p, i :: Match(patterns, imports, p, i) && x == SuggestionOf(p)
    {
      var q :| q in pairs && x == SuggestionOf(q.0);
      assert (q.0, q.1) in pairs;
    }
  }
}
