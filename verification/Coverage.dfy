/** Coverage checks: one per path scope, and one for the totals. */
module Coverage {

  // How much there is to cover, and how much of it is covered.
  datatype Ratio = Ratio(covered: int, total: int)

  datatype Summary = Summary(statements: Ratio, branches: Ratio)

  datatype Kind = Statements | Branches

  // A path with its summary: a file of the report, or a scope with its aggregate.
  datatype Entry = Entry(path: string, summary: Summary)

  const NOTHING := Summary(Ratio(0, 0), Ratio(0, 0))

  function Of(s: Summary, kind: Kind): Ratio {
    if kind.Statements? then s.statements else s.branches
  }

  function Sum(a: Ratio, b: Ratio): Ratio {
    Ratio(a.covered + b.covered, a.total + b.total)
  }

  function Plus(a: Summary, b: Summary): Summary {
    Summary(Sum(a.statements, b.statements), Sum(a.branches, b.branches))
  }

  predicate IsSaneRatio(r: Ratio) { 0 <= r.covered <= r.total }

  predicate IsSane(s: Summary) { IsSaneRatio(s.statements) && IsSaneRatio(s.branches) }

  // Every file of the report has covered at most what there is to cover.
  predicate AllSane(files: seq<Entry>) {
    forall i | 0 <= i < |files| :: IsSane(files[i].summary)
  }

  // Nothing to cover counts as fully covered.
  function Percent(r: Ratio): real {
    if r.total == 0 then 100.0 else r.covered as real * 100.0 / r.total as real
  }

  function Scaled(m: real, n: int): real { m * n as real }

  // The percentage is at least, or at most, m, compared without the division.
  predicate AtLeast(r: Ratio, m: real) {
    if r.total == 0 then m <= 100.0 else Scaled(m, r.total) <= Scaled(100.0, r.covered)
  }

  predicate AtMost(r: Ratio, m: real) {
    if r.total == 0 then 100.0 <= m else Scaled(100.0, r.covered) <= Scaled(m, r.total)
  }

  lemma MultiplyMonotone(a: real, b: real, t: real)
    requires t > 0.0
    ensures a <= b <==> a * t <= b * t
  {
    if a <= b {
      assert (b - a) * t >= 0.0;
    } else {
      assert (a - b) * t > 0.0;
    }
  }

  /** The percentage, times what there is to cover, is a hundred times what is covered. */
  lemma PercentMeans(r: Ratio)
    ensures r.total > 0 ==> Percent(r) * r.total as real == 100.0 * r.covered as real
    ensures r.total == 0 ==> Percent(r) == 100.0
  {
  }

  /** The comparison of percentages is a comparison of products. */
  lemma PercentCompares(r: Ratio, m: real)
    requires r.total >= 0
    ensures m <= Percent(r) <==> AtLeast(r, m)
    ensures Percent(r) <= m <==> AtMost(r, m)
  {
    if r.total > 0 {
      var t, c := r.total as real, r.covered as real * 100.0;
      var p := c / t;
      assert p * t == c;
      MultiplyMonotone(m, p, t);
      MultiplyMonotone(p, m, t);
    }
  }

  // ----- scopes of paths -----

  predicate Matches(path: string, scope: string) {
    path == scope || scope + "/" <= path
  }

  function Components(path: string): (r: seq<string>)
    ensures |r| > 0
  {
    if path == "" then [""]
    else
      var rest := Components(path[1..]);
      if path[0] == '/' then [""] + rest else [[path[0]] + rest[0]] + rest[1..]
  }

  function JoinComponents(parts: seq<string>): string
    requires parts != []
  {
    if |parts| == 1 then parts[0] else parts[0] + "/" + JoinComponents(parts[1..])
  }

  lemma JoinLonger(c: char, parts: seq<string>)
    requires parts != []
    ensures JoinComponents([[c] + parts[0]] + parts[1..]) == [c] + JoinComponents(parts)
  {
    var longer := [[c] + parts[0]] + parts[1..];
    assert longer[1..] == parts[1..];
    if |parts| > 1 {
      var rest := JoinComponents(parts[1..]);
      assert ([c] + parts[0]) + "/" + rest == [c] + (parts[0] + "/" + rest);
    }
  }

  lemma JoinEmptyFirst(parts: seq<string>)
    requires parts != []
    ensures JoinComponents([""] + parts) == "/" + JoinComponents(parts)
  {
    assert ([""] + parts)[1..] == parts;
    assert "" + "/" == "/";
  }

  /** The components of a path are the texts between its slashes. */
  lemma {:induction false} ComponentsJoin(path: string)
    ensures JoinComponents(Components(path)) == path
    ensures forall i | 0 <= i < |Components(path)| :: '/' !in Components(path)[i]
  {
    if path != "" {
      ComponentsJoin(path[1..]);
      JoinLonger(path[0], Components(path[1..]));
      JoinEmptyFirst(Components(path[1..]));
      assert path == [path[0]] + path[1..];
    }
  }

  /** A scope covers a path exactly when its components are the path's first components. */
  lemma {:induction false} MatchesIffComponentPrefix(path: string, scope: string)
    ensures Matches(path, scope) <==> Components(scope) <= Components(path)
  {
    if scope == "" {
      assert scope + "/" == "/";
      assert path != "" ==> (path[0] == '/' <==> "/" <= path);
      assert path != "" && path[0] != '/' ==> Components(path)[0] != "";
    } else if path != "" && path[0] == scope[0] {
      MatchesIffComponentPrefix(path[1..], scope[1..]);
      assert path == [path[0]] + path[1..] && scope == [scope[0]] + scope[1..];
      assert scope + "/" == [scope[0]] + (scope[1..] + "/");
      assert scope + "/" <= path <==> scope[1..] + "/" <= path[1..];
      ConsPrefix(path[0], Components(scope[1..]), Components(path[1..]));
    } else {
      assert (scope + "/")[0] == scope[0];
      if Components(scope) <= Components(path) {
        FirstCharacter(path, scope);
      }
    }
  }

  lemma ConsPrefix(c: char, a: seq<string>, b: seq<string>)
    requires |a| > 0 && |b| > 0
    ensures [""] + a <= [""] + b <==> a <= b
    ensures [[c] + a[0]] + a[1..] <= [[c] + b[0]] + b[1..] <==> a <= b
  {
    PrefixByHead("", "", a, b);
    PrefixByHead([c] + a[0], [c] + b[0], a[1..], b[1..]);
    PrefixByHead(a[0], b[0], a[1..], b[1..]);
    assert a == [a[0]] + a[1..] && b == [b[0]] + b[1..];
    assert ([c] + a[0])[1..] == a[0] && ([c] + b[0])[1..] == b[0];
  }

  lemma PrefixByHead(x: string, y: string, a: seq<string>, b: seq<string>)
    ensures [x] + a <= [y] + b <==> x == y && a <= b
  {
    var a', b' := [x] + a, [y] + b;
    assert a == a'[1..] && b == b'[1..];
    if a' <= b' {
      assert a'[0] == b'[0];
      assert forall i | 0 <= i < |a| :: a[i] == a'[i + 1] == b'[i + 1] == b[i];
      assert a == b[..|a|];
    }
    if x == y && a <= b {
      assert a' == b'[..|a'|];
    }
  }

  lemma FirstCharacter(path: string, scope: string)
    requires scope != "" && Components(scope) <= Components(path)
    ensures path != "" && path[0] == scope[0]
  {
    var a, b := Components(scope), Components(path);
    assert a[0] == b[0] && |a| <= |b|;
    assert path == "" ==> |b| == 1;
    assert scope[0] == '/' ==> |a| >= 2 && a[0] == "";
    assert scope[0] != '/' ==> a[0] != "" && a[0][0] == scope[0];
    assert path != "" && path[0] != '/' ==> b[0] != "" && b[0][0] == path[0];
    assert path != "" && path[0] == '/' ==> b[0] == "";
  }

  lemma SharedMeansNested(a: string, b: string, shared: string)
    requires Matches(shared, a) && Matches(shared, b)
    ensures Matches(a, b) || Matches(b, a)
  {
    MatchesIffComponentPrefix(shared, a);
    MatchesIffComponentPrefix(shared, b);
    MatchesIffComponentPrefix(a, b);
    MatchesIffComponentPrefix(b, a);
    var ca, cb, cs := Components(a), Components(b), Components(shared);
    assert ca == cs[..|ca|] && cb == cs[..|cb|];
  }

  lemma MatchesTransitive(path: string, inner: string, outer: string)
    requires Matches(path, inner) && Matches(inner, outer)
    ensures Matches(path, outer)
  {
  }

  /** Two scopes that share a path are nested, and so are the paths they cover. */
  lemma NestedOrDisjoint(a: string, b: string, shared: string)
    requires Matches(shared, a) && Matches(shared, b)
    ensures (forall path | Matches(path, b) :: Matches(path, a)) || (forall path | Matches(path, a) :: Matches(path, b))
  {
    SharedMeansNested(a, b, shared);
    forall path
      ensures Matches(b, a) && Matches(path, b) ==> Matches(path, a)
      ensures Matches(a, b) && Matches(path, a) ==> Matches(path, b)
    {
      if Matches(b, a) && Matches(path, b) {
        MatchesTransitive(path, b, a);
      }
      if Matches(a, b) && Matches(path, a) {
        MatchesTransitive(path, a, b);
      }
    }
  }

  // ----- sums -----

  function Total(files: seq<Entry>): Summary {
    if files == [] then NOTHING else Plus(Total(files[..|files| - 1]), files[|files| - 1].summary)
  }

  /** A total adds up each of the four numbers. */
  lemma TotalAdds(files: seq<Entry>, e: Entry)
    ensures var t, more, s := Total(files), Total(files + [e]), e.summary;
            && more.statements.covered == t.statements.covered + s.statements.covered
            && more.statements.total == t.statements.total + s.statements.total
            && more.branches.covered == t.branches.covered + s.branches.covered
            && more.branches.total == t.branches.total + s.branches.total
    ensures var none := Total([]);
            && none.statements.covered == 0 && none.statements.total == 0
            && none.branches.covered == 0 && none.branches.total == 0
  {
    assert (files + [e])[..|files|] == files;
  }

  // The positions of the files whose path is the scope, or starts with the scope and a slash.
  ghost function MatchingPositions(files: seq<Entry>, scope: string): set<nat> {
    set i: nat | i < |files| && (files[i].path == scope || scope + "/" <= files[i].path)
  }

  function Matching(files: seq<Entry>, scope: string): seq<Entry> {
    if files == [] then []
    else
      var rest := Matching(files[..|files| - 1], scope);
      if Matches(files[|files| - 1].path, scope) then rest + [files[|files| - 1]] else rest
  }

  lemma MatchingSnocIs(files: seq<Entry>, e: Entry, scope: string)
    ensures Matching(files + [e], scope) == Matching(files, scope) + (if Matches(e.path, scope) then [e] else [])
  {
    assert (files + [e])[..|files|] == files;
  }

  /** The files that match are those at the matching positions, in order, each once. */
  lemma {:induction false} MatchingAt(files: seq<Entry>, scope: string)
    ensures |Matching(files, scope)| == |MatchingPositions(files, scope)|
    ensures forall e :: e in Matching(files, scope) <==>
                        e in files && (e.path == scope || scope + "/" <= e.path)
  {
    if files != [] {
      var init, last := files[..|files| - 1], files[|files| - 1];
      MatchingAt(init, scope);
      assert files == init + [last];
      MatchingSnocIs(init, last, scope);
      PositionsSnoc(init, last, scope);
    }
  }

  lemma PositionsSnoc(files: seq<Entry>, e: Entry, scope: string)
    ensures MatchingPositions(files + [e], scope) ==
            MatchingPositions(files, scope) + (if Matches(e.path, scope) then {|files|} else {})
    ensures |MatchingPositions(files + [e], scope)| ==
            |MatchingPositions(files, scope)| + (if Matches(e.path, scope) then 1 else 0)
  {
    var more := files + [e];
    assert forall i | 0 <= i < |files| :: more[i] == files[i];
    assert MatchingPositions(more, scope) ==
           MatchingPositions(files, scope) + (if Matches(e.path, scope) then {|files|} else {});
  }

  datatype CoverageFailure = ScopeAbsent | LowStatements | LowBranches

  predicate Passes(s: Summary, statementMin: real, branchMin: real) {
    statementMin <= Percent(s.statements) && branchMin <= Percent(s.branches)
  }

  /** evaluate_thresholds, on a summary: which of the two percentages fall below their minima. */
  method EvaluateThresholds(totals: Summary, statementMin: real, branchMin: real)
    returns (statementCoverage: real, branchCoverage: real, failures: seq<CoverageFailure>)
    ensures statementCoverage == Percent(totals.statements) && branchCoverage == Percent(totals.branches)
    ensures LowStatements in failures <==> Percent(totals.statements) < statementMin
    ensures LowBranches in failures <==> Percent(totals.branches) < branchMin
    ensures failures == [] <==> Passes(totals, statementMin, branchMin)
    ensures ScopeAbsent !in failures
  {
    statementCoverage, branchCoverage := Percent(totals.statements), Percent(totals.branches);
    failures := [];
    if statementCoverage < statementMin {
      failures := failures + [LowStatements];
    }
    if branchCoverage < branchMin {
      failures := failures + [LowBranches];
    }
  }

  // The sums over the matching files.
  method AggregateScope(files: seq<Entry>, scope: string) returns (count: nat, aggregate: Summary)
    ensures count == |Matching(files, scope)| && aggregate == Total(Matching(files, scope))
    ensures count == |MatchingPositions(files, scope)|
  {
    count, aggregate := 0, NOTHING;
    for i := 0 to |files|
      invariant count == |Matching(files[..i], scope)| && aggregate == Total(Matching(files[..i], scope))
    {
      assert files[..i + 1][..i] == files[..i];
      if Matches(files[i].path, scope) {
        assert (Matching(files[..i], scope) + [files[i]])[..count] == Matching(files[..i], scope);
        count, aggregate := count + 1, Plus(aggregate, files[i].summary);
      }
    }
    assert files[..|files|] == files;
    MatchingAt(files, scope);
  }

  /** evaluate_scope. */
  method EvaluateScope(files: seq<Entry>, scope: string, statementMin: real, branchMin: real)
    returns (count: nat, statementCoverage: real, branchCoverage: real, failures: seq<CoverageFailure>)
    ensures statementCoverage == Percent(Total(Matching(files, scope)).statements)
    ensures branchCoverage == Percent(Total(Matching(files, scope)).branches)
    ensures count == |MatchingPositions(files, scope)|
    ensures ScopeAbsent in failures <==> count == 0
    ensures failures == [] <==> ScopePasses(files, scope, statementMin, branchMin)
    ensures LowStatements in failures <==> Percent(Total(Matching(files, scope)).statements) < statementMin
    ensures LowBranches in failures <==> Percent(Total(Matching(files, scope)).branches) < branchMin
  {
    var aggregate;
    count, aggregate := AggregateScope(files, scope);
    statementCoverage, branchCoverage, failures := EvaluateThresholds(aggregate, statementMin, branchMin);
    if count == 0 {
      failures := [ScopeAbsent] + failures;
    }
  }

  predicate ScopePasses(files: seq<Entry>, scope: string, statementMin: real, branchMin: real) {
    Matching(files, scope) != [] && Passes(Total(Matching(files, scope)), statementMin, branchMin)
  }

  ghost predicate AllScopesPass(files: seq<Entry>, scopes: seq<string>, statementMin: real, branchMin: real) {
    forall k | 0 <= k < |scopes| :: ScopePasses(files, scopes[k], statementMin, branchMin)
  }

  /** The scope checker's exit code: 0 exactly when every scope passes. */
  method CheckScopes(files: seq<Entry>, scopes: seq<string>, statementMin: real, branchMin: real)
    returns (exitCode: int)
    ensures exitCode == if AllScopesPass(files, scopes, statementMin, branchMin) then 0 else 1
  {
    var failed := false;
    for i := 0 to |scopes|
      invariant failed <==> exists k | 0 <= k < i :: !ScopePasses(files, scopes[k], statementMin, branchMin)
    {
      var count, statements, branches, failures := EvaluateScope(files, scopes[i], statementMin, branchMin);
      if failures != [] {
        failed := true;
      }
    }
    exitCode := if failed then 1 else 0;
  }

  // ----- aggregates against their parts -----

  // The total of a non-empty list, one kind at a time.
  lemma TotalOf(files: seq<Entry>, kind: Kind) returns (init: seq<Entry>, rest: Ratio, last: Ratio)
    requires files != []
    ensures init == files[..|files| - 1]
    ensures rest == Of(Total(init), kind) && last == Of(files[|files| - 1].summary, kind)
    ensures Of(Total(files), kind) == Sum(rest, last)
    ensures AllSane(files) ==> AllSane(init) && IsSaneRatio(last)
  {
    init := files[..|files| - 1];
    rest, last := Of(Total(init), kind), Of(files[|files| - 1].summary, kind);
    assert forall i | 0 <= i < |init| :: init[i] == files[i];
    assert AllSane(files) ==> IsSane(files[|files| - 1].summary);
  }

  lemma SaneSum(a: Ratio, b: Ratio)
    requires IsSaneRatio(a) && IsSaneRatio(b)
    ensures IsSaneRatio(Sum(a, b))
    ensures Sum(a, b).total == 0 ==> a.total == 0 && b.total == 0
  {
  }

  lemma {:induction false} TotalSane(files: seq<Entry>, kind: Kind)
    requires AllSane(files)
    ensures IsSaneRatio(Of(Total(files), kind))
    ensures files != [] && Of(Total(files), kind).total == 0 ==> Of(files[0].summary, kind).total == 0
  {
    if files != [] {
      var init, rest, last := TotalOf(files, kind);
      TotalSane(init, kind);
      SaneSum(rest, last);
    }
  }

  lemma ScaledSum(m: real, a: int, b: int)
    ensures Scaled(m, a + b) == Scaled(m, a) + Scaled(m, b)
  {
  }

  lemma {:induction false} TotalAtLeast(files: seq<Entry>, kind: Kind, m: real)
    requires AllSane(files) && forall i | 0 <= i < |files| :: AtLeast(Of(files[i].summary, kind), m)
    ensures Scaled(m, Of(Total(files), kind).total) <= Scaled(100.0, Of(Total(files), kind).covered)
  {
    if files == [] {
      assert Scaled(m, 0) == 0.0;
    } else {
      var init, rest, last := TotalOf(files, kind);
      assert forall i | 0 <= i < |init| :: files[i] == init[i];
      TotalAtLeast(init, kind, m);
      assert last.total == 0 ==> Scaled(m, last.total) == 0.0 == Scaled(100.0, last.covered);
      ScaledSum(m, rest.total, last.total);
      ScaledSum(100.0, rest.covered, last.covered);
    }
  }

  lemma {:induction false} TotalAtMost(files: seq<Entry>, kind: Kind, m: real)
    requires AllSane(files) && forall i | 0 <= i < |files| :: AtMost(Of(files[i].summary, kind), m)
    ensures Scaled(100.0, Of(Total(files), kind).covered) <= Scaled(m, Of(Total(files), kind).total)
  {
    if files == [] {
      assert Scaled(m, 0) == 0.0;
    } else {
      var init, rest, last := TotalOf(files, kind);
      assert forall i | 0 <= i < |init| :: files[i] == init[i];
      TotalAtMost(init, kind, m);
      assert last.total == 0 ==> Scaled(m, last.total) == 0.0 == Scaled(100.0, last.covered);
      ScaledSum(m, rest.total, last.total);
      ScaledSum(100.0, rest.covered, last.covered);
    }
  }

  /** The aggregate percentage is at least the least percentage of its parts, parts with nothing to
      cover counting as 100%: whatever bounds every part from below bounds the whole. */
  lemma AggregateAtLeast(files: seq<Entry>, kind: Kind, m: real)
    requires files != [] && AllSane(files)
    requires forall i | 0 <= i < |files| :: m <= Percent(Of(files[i].summary, kind))
    ensures m <= Percent(Of(Total(files), kind))
  {
    forall i | 0 <= i < |files| ensures AtLeast(Of(files[i].summary, kind), m) {
      assert IsSane(files[i].summary);
      PercentCompares(Of(files[i].summary, kind), m);
    }
    TotalSane(files, kind);
    TotalAtLeast(files, kind, m);
    assert Of(files[0].summary, kind).total == 0 ==> m <= 100.0;
    PercentCompares(Of(Total(files), kind), m);
  }

  /** And at most the greatest. */
  lemma AggregateAtMost(files: seq<Entry>, kind: Kind, m: real)
    requires files != [] && AllSane(files)
    requires forall i | 0 <= i < |files| :: Percent(Of(files[i].summary, kind)) <= m
    ensures Percent(Of(Total(files), kind)) <= m
  {
    forall i | 0 <= i < |files| ensures AtMost(Of(files[i].summary, kind), m) {
      assert IsSane(files[i].summary);
      PercentCompares(Of(files[i].summary, kind), m);
    }
    TotalSane(files, kind);
    TotalAtMost(files, kind, m);
    assert Of(files[0].summary, kind).total == 0 ==> 100.0 <= m;
    PercentCompares(Of(Total(files), kind), m);
  }

  // ----- scopes against the totals -----

  // How many of the scopes cover the path.
  function CoveringCount(scopes: seq<string>, path: string): nat {
    if scopes == [] then 0
    else CoveringCount(scopes[..|scopes| - 1], path) + (if Matches(path, scopes[|scopes| - 1]) then 1 else 0)
  }

  ghost predicate Partitions(scopes: seq<string>, files: seq<Entry>) {
    forall i | 0 <= i < |files| :: CoveringCount(scopes, files[i].path) == 1
  }

  ghost predicate InSome(path: string, scopes: seq<string>) {
    exists k | 0 <= k < |scopes| :: Matches(path, scopes[k])
  }

  // Every file lies in some scope; the scopes may overlap.
  ghost predicate Covers(scopes: seq<string>, files: seq<Entry>) {
    forall i | 0 <= i < |files| :: InSome(files[i].path, scopes)
  }

  // One entry for each scope, with its aggregate.
  function ScopeReport(files: seq<Entry>, scopes: seq<string>): seq<Entry> {
    if scopes == [] then []
    else
      var scope := scopes[|scopes| - 1];
      ScopeReport(files, scopes[..|scopes| - 1]) + [Entry(scope, Total(Matching(files, scope)))]
  }

  // The scopes' aggregates, added up.
  function ScopesTotal(files: seq<Entry>, scopes: seq<string>): Summary {
    if scopes == [] then NOTHING
    else Plus(ScopesTotal(files, scopes[..|scopes| - 1]), Total(Matching(files, scopes[|scopes| - 1])))
  }

  lemma TotalSnoc(files: seq<Entry>, last: Entry)
    ensures Total(files + [last]) == Plus(Total(files), last.summary)
  {
    assert (files + [last])[..|files|] == files;
  }

  lemma PlusNothing(a: Summary)
    ensures Plus(a, NOTHING) == a == Plus(NOTHING, a)
  {
  }

  // A file's summary where it counts, and nothing where it does not.
  function Share(s: Summary, counts: bool): Summary {
    if counts then s else NOTHING
  }

  lemma MatchingSnoc(files: seq<Entry>, last: Entry, scope: string)
    ensures Total(Matching(files + [last], scope)) ==
            Plus(Total(Matching(files, scope)), Share(last.summary, Matches(last.path, scope)))
  {
    assert (files + [last])[..|files|] == files;
    TotalSnoc(Matching(files, scope), last);
  }

  lemma {:induction false} ReportTotal(files: seq<Entry>, scopes: seq<string>)
    ensures Total(ScopeReport(files, scopes)) == ScopesTotal(files, scopes)
  {
    if scopes != [] {
      var some, scope := scopes[..|scopes| - 1], scopes[|scopes| - 1];
      ReportTotal(files, some);
      TotalSnoc(ScopeReport(files, some), Entry(scope, Total(Matching(files, scope))));
    }
  }

  lemma Regroup(a: Summary, b: Summary, c: Summary, d: Summary)
    ensures Plus(Plus(a, b), Plus(c, d)) == Plus(Plus(a, c), Plus(b, d))
  {
  }

  lemma ShareOnce(s: Summary, before: bool, now: bool)
    requires !(before && now)
    ensures Plus(Share(s, before), Share(s, now)) == Share(s, before || now)
  {
  }

  // One more file, which at most one scope covers, adds its summary to that scope's aggregate.
  lemma {:induction false} ScopesTotalSnoc(files: seq<Entry>, last: Entry, scopes: seq<string>)
    requires CoveringCount(scopes, last.path) <= 1
    ensures ScopesTotal(files + [last], scopes) ==
            Plus(ScopesTotal(files, scopes), Share(last.summary, CoveringCount(scopes, last.path) == 1))
  {
    if scopes == [] {
      PlusNothing(NOTHING);
    } else {
      var some, scope := scopes[..|scopes| - 1], scopes[|scopes| - 1];
      var before, now := CoveringCount(some, last.path) == 1, Matches(last.path, scope);
      ScopesTotalSnoc(files, last, some);
      MatchingSnoc(files, last, scope);
      Regroup(ScopesTotal(files, some), Share(last.summary, before),
              Total(Matching(files, scope)), Share(last.summary, now));
      ShareOnce(last.summary, before, now);
    }
  }

  lemma {:induction false} NoFiles(scopes: seq<string>)
    ensures ScopesTotal([], scopes) == NOTHING
  {
    if scopes != [] {
      NoFiles(scopes[..|scopes| - 1]);
      PlusNothing(NOTHING);
    }
  }

  /** When every file lies in exactly one scope, the scopes' aggregates add up to the totals. */
  lemma {:induction false} PartitionSums(files: seq<Entry>, scopes: seq<string>)
    requires Partitions(scopes, files)
    ensures ScopesTotal(files, scopes) == Total(files)
  {
    if files == [] {
      NoFiles(scopes);
    } else {
      var init, last := files[..|files| - 1], files[|files| - 1];
      assert forall i | 0 <= i < |init| :: files[i] == init[i];
      PartitionSums(init, scopes);
      assert CoveringCount(scopes, last.path) == 1;
      ScopesTotalSnoc(init, last, scopes);
      assert files == init + [last];
    }
  }

  lemma {:induction false} SaneTotals(files: seq<Entry>, scope: string)
    requires AllSane(files)
    ensures IsSane(Total(Matching(files, scope)))
  {
    if files != [] {
      assert IsSane(files[|files| - 1].summary);
      SaneTotals(files[..|files| - 1], scope);
      TotalSnoc(Matching(files[..|files| - 1], scope), files[|files| - 1]);
    }
  }

  lemma {:induction false} ScopeReportAt(files: seq<Entry>, scopes: seq<string>)
    ensures |ScopeReport(files, scopes)| == |scopes|
    ensures forall i | 0 <= i < |scopes| :: ScopeReport(files, scopes)[i].summary == Total(Matching(files, scopes[i]))
  {
    if scopes != [] {
      ScopeReportAt(files, scopes[..|scopes| - 1]);
    }
  }

  // The case of scopes that partition the files.
  lemma PartitionPasses(files: seq<Entry>, scopes: seq<string>, statementMin: real, branchMin: real)
    requires scopes != [] && Partitions(scopes, files) && AllSane(files)
    requires AllScopesPass(files, scopes, statementMin, branchMin)
    ensures Passes(Total(files), statementMin, branchMin)
  {
    var parts := ScopeReport(files, scopes);
    ScopeReportAt(files, scopes);
    ReportTotal(files, scopes);
    forall i | 0 <= i < |parts|
      ensures IsSane(parts[i].summary) && Passes(parts[i].summary, statementMin, branchMin)
    {
      SaneTotals(files, scopes[i]);
      assert ScopePasses(files, scopes[i], statementMin, branchMin);
    }
    AggregateAtLeast(parts, Statements, statementMin);
    AggregateAtLeast(parts, Branches, branchMin);
    PartitionSums(files, scopes);
  }

  // No scope lies inside another.
  ghost predicate Separate(scopes: seq<string>) {
    forall i, j | 0 <= i < |scopes| && 0 <= j < |scopes| && i != j :: !Matches(scopes[i], scopes[j])
  }

  lemma {:induction false} SeparateCountsOnce(scopes: seq<string>, path: string)
    requires Separate(scopes)
    ensures CoveringCount(scopes, path) <= 1
    ensures InSome(path, scopes) <==> CoveringCount(scopes, path) == 1
  {
    if scopes != [] {
      var some, scope := scopes[..|scopes| - 1], scopes[|scopes| - 1];
      assert forall k | 0 <= k < |some| :: some[k] == scopes[k];
      SeparateCountsOnce(some, path);
      forall k | 0 <= k < |some| ensures !(Matches(path, scope) && Matches(path, some[k])) {
        if Matches(path, scope) && Matches(path, some[k]) {
          SharedMeansNested(scope, some[k], path);
        }
      }
    }
  }

  /** The scope check is at least as strict as the check of the totals: when every file of the report
      lies in some scope, and every scope passes both minima, then the totals pass them too. The scopes
      may overlap, because scopes that do are nested. */
  lemma {:induction false} ScopesPassingMeansTotalsPass(files: seq<Entry>, scopes: seq<string>,
                                                            statementMin: real, branchMin: real)
    requires scopes != [] && Covers(scopes, files) && AllSane(files)
    requires AllScopesPass(files, scopes, statementMin, branchMin)
    ensures Passes(Total(files), statementMin, branchMin)
    decreases |scopes|
  {
    if Separate(scopes) {
      forall i | 0 <= i < |files| ensures CoveringCount(scopes, files[i].path) == 1 {
        SeparateCountsOnce(scopes, files[i].path);
      }
      PartitionPasses(files, scopes, statementMin, branchMin);
    } else {
      var i, j :| 0 <= i < |scopes| && 0 <= j < |scopes| && i != j && Matches(scopes[i], scopes[j]);
      DropInner(files, scopes, i, j);
      DropPasses(files, scopes, i, statementMin, branchMin);
      ScopesPassingMeansTotalsPass(files, scopes[..i] + scopes[i + 1..], statementMin, branchMin);
    }
  }

  lemma DropPasses(files: seq<Entry>, scopes: seq<string>, i: nat, statementMin: real, branchMin: real)
    requires i < |scopes| && AllScopesPass(files, scopes, statementMin, branchMin)
    ensures AllScopesPass(files, scopes[..i] + scopes[i + 1..], statementMin, branchMin)
  {
    var fewer := scopes[..i] + scopes[i + 1..];
    forall k | 0 <= k < |fewer| ensures ScopePasses(files, fewer[k], statementMin, branchMin) {
      assert fewer[k] == scopes[if k < i then k else k + 1];
    }
  }

  lemma DropInner(files: seq<Entry>, scopes: seq<string>, i: nat, j: nat)
    requires i < |scopes| && j < |scopes| && i != j && Matches(scopes[i], scopes[j]) && Covers(scopes, files)
    ensures Covers(scopes[..i] + scopes[i + 1..], files)
  {
    forall f | 0 <= f < |files| ensures InSome(files[f].path, scopes[..i] + scopes[i + 1..]) {
      var k :| 0 <= k < |scopes| && Matches(files[f].path, scopes[k]);
      var kept := if k == i then j else k;
      if k == i {
        MatchesTransitive(files[f].path, scopes[i], scopes[j]);
      }
      var at := if kept < i then kept else kept - 1;
      assert (scopes[..i] + scopes[i + 1..])[at] == scopes[kept];
    }
  }
}
