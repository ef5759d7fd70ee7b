/** Which CI surfaces a pull request's paths justify, end to end from globs to check selection. */
module CiScope {
  import opened Collections
  import opened Graph
  import opened Catalog
  import opened Impact
  import Glob
  import GlobCompiler
  import Regex

  // ---------------------------------------------------------------- point selection

  /** The distinct normalised non-empty paths, in order of first appearance. */
  function NormalizedPaths(paths: seq<string>): (normalized: seq<string>)
    ensures forall path :: path in normalized <==> exists p :: p in paths && p != "" && Glob.Normalized(p) == path
    ensures NoDuplicates(normalized)
  {
    if paths == [] then []
    else
      var init, last := paths[..|paths| - 1], paths[|paths| - 1];
      var rest := NormalizedPaths(init);
      assert paths == init + [last];
      if last == "" || Glob.Normalized(last) in rest then rest else rest + [Glob.Normalized(last)]
  }

  function MatchingPaths(paths: seq<string>, patterns: seq<string>): (matched: seq<string>)
    ensures forall path :: path in matched <==> path in paths && GlobCompiler.Matches(path, patterns)
    ensures NoDuplicates(paths) ==> NoDuplicates(matched)
  {
    if paths == [] then []
    else
      var init, last := paths[..|paths| - 1], paths[|paths| - 1];
      var rest := MatchingPaths(init, patterns);
      assert paths == init + [last];
      if GlobCompiler.Matches(last, patterns) then rest + [last] else rest
  }

  /** Some changed path matches a trigger of the point. */
  ghost predicate Triggered(point: Point, paths: seq<string>) {
    exists path :: path in paths && path != "" && GlobCompiler.Matches(Glob.Normalized(path), point.paths)
  }

  ghost function TriggeredIds(catalog: Catalog, paths: seq<string>): set<Id> {
    set point | point in catalog.points && Triggered(point, paths) :: point.id
  }

  datatype Selection = Selection(pointIds: seq<Id>, reasons: map<Id, seq<Reason>>, paths: seq<string>)

  function InOrder(points: seq<Point>, ids: set<Id>): (ordered: seq<Id>)
    ensures forall id :: id in ordered <==> id in ids && exists point :: point in points && point.id == id
  {
    if points == [] then []
    else
      var init, last := points[..|points| - 1], points[|points| - 1];
      assert points == init + [last];
      InOrder(init, ids) + (if last.id in ids then [last.id] else [])
  }

  /** The points a changed path triggers, and everything that can break with them. */
  ghost function SelectedIds(catalog: Catalog, paths: seq<string>): set<Id> {
    set id | id in KnownIds(catalog) && Affected(Edges(catalog), TriggeredIds(catalog, paths), id)
  }

  function PathReasons(matched: seq<string>): (reasons: seq<Reason>)
    ensures NoDuplicates(matched) ==> NoDuplicates(reasons)
  {
    seq(|matched|, i requires 0 <= i < |matched| => ByPath(matched[i]))
  }

  /** The reasons before expansion: the matching paths of each triggered point. */
  ghost predicate DirectReasons(points: seq<Point>, normalized: seq<string>, reasons: map<Id, seq<Reason>>) {
    (forall id :: id in reasons <==>
      exists point :: point in points && point.id == id && MatchingPaths(normalized, point.paths) != []) &&
    forall point :: point in points && point.id in reasons ==>
      reasons[point.id] == PathReasons(MatchingPaths(normalized, point.paths))
  }

  method SelectPoints(catalog: Catalog, paths: seq<string>) returns (selection: Selection)
    requires LintClean(catalog)
    ensures selection.paths == NormalizedPaths(paths)
    ensures selection.pointIds == InOrder(catalog.points, SelectedIds(catalog, paths))
    ensures forall id :: id in selection.pointIds <==> id in SelectedIds(catalog, paths)
    ensures selection.reasons.Keys == SelectedIds(catalog, paths)
    ensures exists direct :: DirectReasons(catalog.points, NormalizedPaths(paths), direct)
                             && ImpactOf(Edges(catalog), direct, selection.reasons)
  {
    hide DirectReasons, SelectedIds, TriggeredIds, Affected, ImpactOf, LintClean;
    var normalized := NormalizedPaths(paths);
    var impact := new ImpactReasons();
    NoReasonsYet(normalized);
    for n := 0 to |catalog.points|
      invariant impact.Valid() && DirectReasons(catalog.points[..n], normalized, impact.reasons)
    {
      var point := catalog.points[n];
      var matched := MatchingPaths(normalized, point.paths);
      PointIsNew(catalog, n);
      DirectStep(catalog.points[..n], point, normalized, impact.reasons);
      if matched != [] {
        impact.Insert(point.id, PathReasons(matched));
      }
    }
    assert catalog.points[..|catalog.points|] == catalog.points;
    ghost var direct := impact.reasons;
    DirectIsTriggered(catalog, paths, direct);
    impact.ExpandConsumers(catalog);
    assert impact.reasons.Keys == SelectedIds(catalog, paths) by {
      ImpactIsLeast(Edges(catalog), direct, impact.reasons);
      SelectedIsLeast(catalog, paths, impact.reasons.Keys);
    }
    SelectedIsKnown(catalog, paths);
    selection := Selection(InOrder(catalog.points, impact.reasons.Keys), impact.reasons, normalized);
  }

  lemma NoReasonsYet(normalized: seq<string>)
    ensures DirectReasons([], normalized, map[])
  {
  }

  lemma PointIsNew(catalog: Catalog, n: nat)
    requires LintClean(catalog) && n < |catalog.points|
    ensures catalog.points[..n + 1] == catalog.points[..n] + [catalog.points[n]]
    ensures forall point :: point in catalog.points[..n] ==> point.id != catalog.points[n].id
  {
    assert forall i :: 0 <= i < n ==> catalog.points[..n][i] == catalog.points[i];
  }

  lemma DirectStep(points: seq<Point>, next: Point, normalized: seq<string>, reasons: map<Id, seq<Reason>>)
    requires DirectReasons(points, normalized, reasons) && forall point :: point in points ==> point.id != next.id
    ensures next.id !in reasons
    ensures var matched := MatchingPaths(normalized, next.paths);
            DirectReasons(points + [next], normalized,
                          if matched == [] then reasons else reasons[next.id := PathReasons(matched)])
  {
    hide MatchingPaths, PathReasons, GlobCompiler.Matches;
    assert forall point :: point in points + [next] <==> point in points || point == next;
  }

  lemma ImpactIsLeast(edges: set<(Id, Id)>, initial: map<Id, seq<Reason>>, reasons: map<Id, seq<Reason>>)
    requires ImpactOf(edges, initial, reasons)
    ensures LeastClosed(edges, initial.Keys, reasons.Keys)
  {
  }

  lemma SelectedIsKnown(catalog: Catalog, paths: seq<string>)
    ensures forall id :: id in SelectedIds(catalog, paths) ==> exists point :: point in catalog.points && point.id == id
  {
  }

  lemma DirectIsTriggered(catalog: Catalog, paths: seq<string>, direct: map<Id, seq<Reason>>)
    requires DirectReasons(catalog.points, NormalizedPaths(paths), direct)
    ensures direct.Keys == TriggeredIds(catalog, paths) && direct.Keys <= KnownIds(catalog)
  {
    hide Triggered, MatchingPaths, NormalizedPaths, PathReasons;
    forall point | point in catalog.points
      ensures MatchingPaths(NormalizedPaths(paths), point.paths) != [] <==> Triggered(point, paths)
    {
      MatchingIsTriggered(point, paths);
    }
  }

  lemma MatchingIsTriggered(point: Point, paths: seq<string>)
    ensures MatchingPaths(NormalizedPaths(paths), point.paths) != [] <==> Triggered(point, paths)
  {
    var matched := MatchingPaths(NormalizedPaths(paths), point.paths);
    if matched != [] { assert matched[0] in matched; }
    if path :| path in paths && path != "" && GlobCompiler.Matches(Glob.Normalized(path), point.paths) {
      assert Glob.Normalized(path) in NormalizedPaths(paths);
      assert Glob.Normalized(path) in matched;
    }
  }

  lemma SelectedIsLeast(catalog: Catalog, paths: seq<string>, ids: set<Id>)
    requires LeastClosed(Edges(catalog), TriggeredIds(catalog, paths), ids)
    ensures ids == SelectedIds(catalog, paths)
  {
    forall id
      ensures id in ids <==> id in SelectedIds(catalog, paths)
    {
      LeastClosedIsAffected(Edges(catalog), TriggeredIds(catalog, paths), ids, id);
      if Affected(Edges(catalog), TriggeredIds(catalog, paths), id) {
        AffectedHead(Edges(catalog), TriggeredIds(catalog, paths), id);
      }
    }
  }

  // ---------------------------------------------------------------- check selection

  datatype Result<T> = Ok(value: T) | UnknownProfile(profile: string)

  /** Some selected point lists the check, or it always runs. */
  predicate IsWanted(catalog: Catalog, ids: set<Id>, check: Check) {
    check.id in catalog.alwaysChecks ||
    exists point :: point in catalog.points && point.id in ids && check.id in point.checks
  }

  function SelectedChecks(catalog: Catalog, ids: set<Id>, profile: string): (result: Result<seq<Check>>)
    ensures result == UnknownProfile(profile) <==> profile !in catalog.profiles
    ensures result.Ok? ==> forall check :: check in result.value <==>
              (check in catalog.checks && profile in check.profiles && IsWanted(catalog, ids, check))
  {
    if profile !in catalog.profiles then UnknownProfile(profile)
    else Ok(Wanted(catalog.checks, WantedIds(catalog, ids), profile))
  }

  function WantedIds(catalog: Catalog, ids: set<Id>): set<Id> {
    (set check | check in catalog.alwaysChecks) +
    (set point, check | point in catalog.points && point.id in ids && check in point.checks :: check)
  }

  function Wanted(checks: seq<Check>, wanted: set<Id>, profile: string): (selected: seq<Check>)
    ensures forall check :: check in selected <==> check in checks && check.id in wanted && profile in check.profiles
  {
    if checks == [] then []
    else
      var init, last := checks[..|checks| - 1], checks[|checks| - 1];
      assert checks == init + [last];
      Wanted(init, wanted, profile) + (if last.id in wanted && profile in last.profiles then [last] else [])
  }

  /** The wanted checks keep the catalog's order: what is wanted of a list is wanted of its parts, part by part. */
  lemma {:induction false} WantedInOrder(left: seq<Check>, right: seq<Check>, wanted: set<Id>, profile: string)
    ensures Wanted(left + right, wanted, profile) == Wanted(left, wanted, profile) + Wanted(right, wanted, profile)
  {
    hide Wanted;
    if right == [] {
      assert left + right == left;
      NothingWanted(wanted, profile);
    } else {
      var init, last := right[..|right| - 1], right[|right| - 1];
      WantedInOrder(left, init, wanted, profile);
      assert right == init + [last] && left + right == (left + init) + [last];
      WantedLast(init, last, wanted, profile);
      WantedLast(left + init, last, wanted, profile);
    }
  }

  lemma NothingWanted(wanted: set<Id>, profile: string)
    ensures Wanted([], wanted, profile) == []
  {
  }

  lemma WantedLast(init: seq<Check>, last: Check, wanted: set<Id>, profile: string)
    ensures Wanted(init + [last], wanted, profile) ==
            Wanted(init, wanted, profile) + (if last.id in wanted && profile in last.profiles then [last] else [])
  {
    assert (init + [last])[..|init + [last]| - 1] == init;
  }

  // ---------------------------------------------------------------- the scope

  datatype ScopeKey =
    | Rust | Apple | AndroidJvm | AndroidDevice | WebLayout | ReleaseBuild | Container
    | MobileVersion | HiqliteSpike | ClusterAuth | DocsOnly

  type Scope = map<ScopeKey, bool>

  const SCOPE_KEYS: set<ScopeKey> :=
    {Rust, Apple, AndroidJvm, AndroidDevice, WebLayout, ReleaseBuild, Container,
     MobileVersion, HiqliteSpike, ClusterAuth, DocsOnly}

  /** The path tables that route a diff. */
  datatype Rules = Rules(
    fullCi: seq<string>, docsOnly: seq<string>, shippedSource: seq<string>, apple: seq<string>,
    androidJvm: seq<string>, androidDevice: seq<string>, webLayout: seq<string>, rustExempt: seq<string>,
    releaseBuild: seq<string>, container: seq<string>)

  const RULES := Rules(
    fullCi := [".github/actions/**", ".github/workflows/ci.yml", "validation/ci_scope.py",
      "validation/points.toml", "validation/runner.py"],
    docsOnly := ["**/*.md", ".github/**/*.md", "docs/**", "LICENSE", "LICENSE.*", "NOTICE", "NOTICE.*",
      "validation/regressions.d/**"],
    shippedSource := ["clients/**", "crates/**"],
    apple := ["clients/apple/**", "tests/contracts/native-api.json"],
    androidJvm := ["clients/android/**", "tests/contracts/native-api.json"],
    androidDevice := ["clients/android/Dockerfile", "clients/android/app/build.gradle.kts",
      "clients/android/app/src/main/**", "clients/android/app/src/androidTest/**",
      "clients/android/build.gradle.kts", "clients/android/gradle.properties", "clients/android/gradle/**",
      "clients/android/gradlew", "clients/android/settings.gradle.kts"],
    webLayout := ["brand/tokens.css", "crates/plurxd/src/http/web.rs", "crates/plurxd/src/web/**",
      "scripts/contrast-*", "scripts/js-check", "scripts/themes-proposed.json", "scripts/ui-baseline",
      "tests/ui-structure.golden"],
    rustExempt := ["clients/**"],
    releaseBuild := ["Cargo.lock", "Cargo.toml", "crates/**", "rust-toolchain.toml"],
    container := [".dockerignore", "Cargo.lock", "Cargo.toml", "Dockerfile", "crates/**", "deploy/**",
      "plurx.example.toml", "rust-toolchain.toml", "scripts/container-smoke"])

  function AllScope(): (scope: Scope)
    ensures scope.Keys == SCOPE_KEYS
  {
    (map key | key in SCOPE_KEYS :: true)[DocsOnly := false]
  }

  predicate AnyMatch(paths: seq<string>, patterns: seq<string>) {
    exists path :: path in paths && GlobCompiler.Matches(path, patterns)
  }

  predicate DocsPath(rules: Rules, path: string) {
    GlobCompiler.Matches(path, rules.docsOnly) && !GlobCompiler.Matches(path, rules.shippedSource)
  }

  predicate IsDocsOnly(rules: Rules, paths: seq<string>) {
    paths != [] && forall path :: path in paths ==> DocsPath(rules, path)
  }

  predicate RustExempt(rules: Rules, path: string) {
    GlobCompiler.Matches(path, rules.rustExempt) || DocsPath(rules, path)
  }

  predicate NeedsRustGate(rules: Rules, paths: seq<string>) {
    paths == [] || !forall path :: path in paths ==> RustExempt(rules, path)
  }

  /** Whether a diff outside the documentation lane and the full override enables a surface. */
  predicate Routed(rules: Rules, paths: seq<string>, checkIds: set<Id>, pointIds: set<Id>, key: ScopeKey) {
    match key
    case Rust => NeedsRustGate(rules, paths)
    case Apple => AnyMatch(paths, rules.apple)
    case AndroidJvm => AnyMatch(paths, rules.androidJvm)
    case AndroidDevice => AnyMatch(paths, rules.androidDevice)
    case WebLayout => AnyMatch(paths, rules.webLayout)
    case ReleaseBuild => AnyMatch(paths, rules.releaseBuild)
    case Container => AnyMatch(paths, rules.container)
    case MobileVersion => "mobile-version" in checkIds
    case HiqliteSpike => "core.media" in pointIds
    case ClusterAuth => "cluster.auth" in pointIds
    case DocsOnly => false
  }

  function RoutedScope(rules: Rules, paths: seq<string>, checkIds: set<Id>, pointIds: set<Id>): (scope: Scope)
    ensures scope.Keys == SCOPE_KEYS
  {
    map key | key in SCOPE_KEYS :: Routed(rules, paths, checkIds, pointIds, key)
  }

  function CheckIds(checks: seq<Check>): set<Id> {
    set check | check in checks :: check.id
  }

  /** The scope as a function of the paths, with point selection given by its meaning. */
  ghost function ScopeOf(rules: Rules, catalog: Catalog, paths: seq<string>): (scope: Result<Scope>)
    ensures scope.Ok? ==> scope.value.Keys == SCOPE_KEYS
    ensures scope.Ok? <==> IsDocsOnly(rules, paths) || AnyMatch(paths, rules.fullCi) || "ci" in catalog.profiles
  {
    if IsDocsOnly(rules, paths) then Ok(map key | key in SCOPE_KEYS :: key == DocsOnly)
    else if AnyMatch(paths, rules.fullCi) then Ok(AllScope())
    else
      var selected := SelectedIds(catalog, paths);
      match SelectedChecks(catalog, selected, "ci")
      case UnknownProfile(profile) => UnknownProfile(profile)
      case Ok(checks) => Ok(RoutedScope(rules, paths, CheckIds(checks), selected))
  }

  method ScopeForPaths(rules: Rules, catalog: Catalog, paths: seq<string>) returns (scope: Result<Scope>)
    requires LintClean(catalog)
    ensures scope == ScopeOf(rules, catalog, paths)
  {
    hide GlobCompiler.Matches, SelectedIds;
    if IsDocsOnly(rules, paths) { return Ok(map key | key in SCOPE_KEYS :: key == DocsOnly); }
    if AnyMatch(paths, rules.fullCi) { return Ok(AllScope()); }
    var selection := SelectPoints(catalog, paths);
    var pointIds := set id | id in selection.pointIds;
    assert pointIds == SelectedIds(catalog, paths);
    var checks := SelectedChecks(catalog, pointIds, "ci");
    if checks.UnknownProfile? { return UnknownProfile(checks.profile); }
    scope := Ok(RoutedScope(rules, paths, CheckIds(checks.value), pointIds));
  }

  // ---------------------------------------------------------------- what each key says

  /** The documentation lane enables nothing else, and a full-CI path outside the lane enables all surfaces. */
  lemma LanesMean(rules: Rules, catalog: Catalog, paths: seq<string>)
    ensures var lane := paths != [] && forall path :: path in paths ==>
              GlobCompiler.Matches(path, rules.docsOnly) && !GlobCompiler.Matches(path, rules.shippedSource);
            var full := exists path :: path in paths && GlobCompiler.Matches(path, rules.fullCi);
            lane || full ==>
              ScopeOf(rules, catalog, paths).Ok? && forall key :: key in SCOPE_KEYS ==>
                (ScopeOf(rules, catalog, paths).value[key] <==> if lane then key == DocsOnly else key != DocsOnly)
  {
    hide GlobCompiler.Matches, SelectedIds, IsDocsOnly;
    LaneMeans(rules, paths);
  }

  /** Elsewhere each surface follows its own table, and the catalog's keys follow the selected checks and points. */
  lemma SurfacesMean(rules: Rules, catalog: Catalog, paths: seq<string>)
    requires "ci" in catalog.profiles
    requires paths != [] ==>
               exists path :: path in paths &&
                 (!GlobCompiler.Matches(path, rules.docsOnly) || GlobCompiler.Matches(path, rules.shippedSource))
    requires forall path :: path in paths ==> !GlobCompiler.Matches(path, rules.fullCi)
    ensures ScopeOf(rules, catalog, paths).Ok?
    ensures var scope := ScopeOf(rules, catalog, paths).value;
            (paths == [] ==> scope[Rust]) &&
            (paths != [] ==> (scope[Rust] <==>
              exists path :: path in paths && !GlobCompiler.Matches(path, rules.rustExempt) &&
                (!GlobCompiler.Matches(path, rules.docsOnly) || GlobCompiler.Matches(path, rules.shippedSource)))) &&
            (scope[Apple] <==> exists path :: path in paths && GlobCompiler.Matches(path, rules.apple)) &&
            (scope[AndroidJvm] <==> exists path :: path in paths && GlobCompiler.Matches(path, rules.androidJvm)) &&
            (scope[AndroidDevice] <==>
              exists path :: path in paths && GlobCompiler.Matches(path, rules.androidDevice)) &&
            (scope[WebLayout] <==> exists path :: path in paths && GlobCompiler.Matches(path, rules.webLayout)) &&
            (scope[ReleaseBuild] <==> exists path :: path in paths && GlobCompiler.Matches(path, rules.releaseBuild)) &&
            (scope[Container] <==> exists path :: path in paths && GlobCompiler.Matches(path, rules.container)) &&
            (scope[MobileVersion] <==>
              exists check :: check in catalog.checks && check.id == "mobile-version" && "ci" in check.profiles &&
                IsWanted(catalog, SelectedIds(catalog, paths), check)) &&
            (scope[HiqliteSpike] <==> "core.media" in SelectedIds(catalog, paths)) &&
            (scope[ClusterAuth] <==> "cluster.auth" in SelectedIds(catalog, paths)) && !scope[DocsOnly]
  {
    hide GlobCompiler.Matches, SelectedIds, IsWanted, IsDocsOnly, NeedsRustGate, RoutedScope;
    LaneMeans(rules, paths);
    RustGateMeans(rules, paths);
    var selected := SelectedIds(catalog, paths);
    var checks := SelectedChecks(catalog, selected, "ci").value;
    RoutedKeysMean(rules, paths, CheckIds(checks), selected);
    assert !AnyMatch(paths, rules.fullCi);
  }

  lemma LaneMeans(rules: Rules, paths: seq<string>)
    ensures IsDocsOnly(rules, paths) <==>
              paths != [] && forall path :: path in paths ==>
                GlobCompiler.Matches(path, rules.docsOnly) && !GlobCompiler.Matches(path, rules.shippedSource)
  {
    hide GlobCompiler.Matches;
  }

  lemma RustGateMeans(rules: Rules, paths: seq<string>)
    ensures NeedsRustGate(rules, [])
    ensures paths != [] ==>
              (NeedsRustGate(rules, paths) <==>
                exists path :: path in paths && !GlobCompiler.Matches(path, rules.rustExempt) &&
                  (!GlobCompiler.Matches(path, rules.docsOnly) || GlobCompiler.Matches(path, rules.shippedSource)))
  {
    hide GlobCompiler.Matches;
  }

  lemma RoutedKeysMean(rules: Rules, paths: seq<string>, checkIds: set<Id>, pointIds: set<Id>)
    ensures var scope := RoutedScope(rules, paths, checkIds, pointIds);
            scope[Rust] == NeedsRustGate(rules, paths) && scope[Apple] == AnyMatch(paths, rules.apple) &&
            scope[AndroidJvm] == AnyMatch(paths, rules.androidJvm) &&
            scope[AndroidDevice] == AnyMatch(paths, rules.androidDevice) &&
            scope[WebLayout] == AnyMatch(paths, rules.webLayout) &&
            scope[ReleaseBuild] == AnyMatch(paths, rules.releaseBuild) &&
            scope[Container] == AnyMatch(paths, rules.container) &&
            scope[MobileVersion] == ("mobile-version" in checkIds) &&
            scope[HiqliteSpike] == ("core.media" in pointIds) && scope[ClusterAuth] == ("cluster.auth" in pointIds) &&
            !scope[DocsOnly]
  {
    hide AnyMatch, NeedsRustGate;
  }

  // ---------------------------------------------------------------- monotonicity

  /** Every surface but the documentation lane that `less` enables, `more` enables too. */
  ghost predicate Within(less: Scope, more: Scope) {
    forall key :: key in SCOPE_KEYS && key != DocsOnly ==> key in less && key in more && (less[key] ==> more[key])
  }

  ghost predicate Subset(few: seq<string>, many: seq<string>) {
    forall path :: path in few ==> path in many
  }

  lemma SelectionMonotone(catalog: Catalog, few: seq<string>, many: seq<string>)
    requires Subset(few, many)
    ensures SelectedIds(catalog, few) <= SelectedIds(catalog, many)
  {
    forall point | Triggered(point, few)
      ensures Triggered(point, many)
    {
    }
    assert TriggeredIds(catalog, few) <= TriggeredIds(catalog, many);
    forall id | id in SelectedIds(catalog, few)
      ensures id in SelectedIds(catalog, many)
    {
      AffectedMonotone(Edges(catalog), TriggeredIds(catalog, few), TriggeredIds(catalog, many), id);
    }
  }

  lemma ChecksMonotone(catalog: Catalog, few: set<Id>, many: set<Id>, profile: string)
    requires few <= many && profile in catalog.profiles
    ensures CheckIds(SelectedChecks(catalog, few, profile).value) <= CheckIds(SelectedChecks(catalog, many,
            profile).value)
  {
  }

  lemma AnyMatchMonotone(few: seq<string>, many: seq<string>, patterns: seq<string>)
    requires Subset(few, many) && AnyMatch(few, patterns)
    ensures AnyMatch(many, patterns)
  {
    var path :| path in few && GlobCompiler.Matches(path, patterns);
    assert path in many;
  }

  /** Outside the documentation lane and the full override, more paths enable no fewer surfaces. */
  lemma RoutedMonotone(rules: Rules, catalog: Catalog, few: seq<string>, many: seq<string>)
    requires Subset(few, many) && "ci" in catalog.profiles
    requires NeedsRustGate(rules, few) ==> NeedsRustGate(rules, many)
    ensures Within(
      RoutedScope(rules, few, CheckIds(SelectedChecks(catalog, SelectedIds(catalog, few), "ci").value),
          SelectedIds(catalog, few)),
      RoutedScope(rules, many, CheckIds(SelectedChecks(catalog, SelectedIds(catalog, many), "ci").value),
          SelectedIds(catalog, many)))
  {
    hide GlobCompiler.Matches, SelectedIds;
    SelectionMonotone(catalog, few, many);
    ChecksMonotone(catalog, SelectedIds(catalog, few), SelectedIds(catalog, many), "ci");
    forall patterns | AnyMatch(few, patterns)
      ensures AnyMatch(many, patterns)
    {
      AnyMatchMonotone(few, many, patterns);
    }
  }

  /** Adding changed paths to a non-empty diff never drops a CI surface. */
  lemma ScopeMonotone(rules: Rules, catalog: Catalog, few: seq<string>, many: seq<string>)
    requires few != [] && Subset(few, many)
    requires ScopeOf(rules, catalog, few).Ok? && ScopeOf(rules, catalog, many).Ok?
    ensures Within(ScopeOf(rules, catalog, few).value, ScopeOf(rules, catalog, many).value)
  {
    assert few[0] in few;
    ScopeMonotoneWhenRustKept(rules, catalog, few, many);
  }

  lemma ScopeMonotoneWhenRustKept(rules: Rules, catalog: Catalog, few: seq<string>, many: seq<string>)
    requires Subset(few, many) && (NeedsRustGate(rules, few) ==> NeedsRustGate(rules, many))
    requires ScopeOf(rules, catalog, few).Ok? && ScopeOf(rules, catalog, many).Ok?
    ensures Within(ScopeOf(rules, catalog, few).value, ScopeOf(rules, catalog, many).value)
  {
    hide GlobCompiler.Matches, SelectedIds, AnyMatch, IsDocsOnly, NeedsRustGate, Routed, SelectedChecks, CheckIds;
    if !IsDocsOnly(rules, few) {
      DocsOnlyInherited(rules, few, many);
      if AnyMatch(few, rules.fullCi) {
        AnyMatchMonotone(few, many, rules.fullCi);
      } else if !AnyMatch(many, rules.fullCi) {
        RoutedMonotone(rules, catalog, few, many);
      }
    }
  }

  lemma DocsOnlyInherited(rules: Rules, few: seq<string>, many: seq<string>)
    requires Subset(few, many) && (NeedsRustGate(rules, few) ==> NeedsRustGate(rules, many))
    ensures IsDocsOnly(rules, many) ==> IsDocsOnly(rules, few)
  {
    hide GlobCompiler.Matches;
    if IsDocsOnly(rules, many) {
      assert forall path :: path in many ==> RustExempt(rules, path);
      assert few != [];
    }
  }

  /**
   The empty diff fails open: it asks for the cargo gate. So monotonicity from the empty diff holds
   exactly when the larger diff leaves the documentation lane and needs that gate, or forces everything.
   */
  lemma EmptyDiffMonotone(rules: Rules, catalog: Catalog, many: seq<string>)
    requires ScopeOf(rules, catalog, []).Ok? && ScopeOf(rules, catalog, many).Ok?
    ensures Within(ScopeOf(rules, catalog, []).value, ScopeOf(rules, catalog, many).value)
        <==> NeedsRustGate(rules, many) || (!IsDocsOnly(rules, many) && AnyMatch(many, rules.fullCi))
  {
    hide GlobCompiler.Matches, SelectedIds, SelectedChecks, CheckIds, DocsPath, RustExempt;
    assert !AnyMatch([], rules.fullCi);
    if NeedsRustGate(rules, many) {
      ScopeMonotoneWhenRustKept(rules, catalog, [], many);
    } else {
      assert ScopeOf(rules, catalog, []).value[Rust];
    }
  }

  /** For example, adding the licence text to the empty diff drops the cargo gate. */
  lemma EmptyDiffIsNotLeast(catalog: Catalog)
    requires ScopeOf(RULES, catalog, []).Ok?
    ensures ScopeOf(RULES, catalog, ["LICENSE"]).Ok?
    ensures !Within(ScopeOf(RULES, catalog, []).value, ScopeOf(RULES, catalog, ["LICENSE"]).value)
  {
    hide *;
    OnlyLicence();
    EmptyDiffMonotone(RULES, catalog, ["LICENSE"]);
  }

  lemma OnlyLicence()
    ensures IsDocsOnly(RULES, ["LICENSE"]) && !NeedsRustGate(RULES, ["LICENSE"])
  {
    hide GlobCompiler.Matches, DocsPath;
    LicenceIsDocs();
  }

  lemma LicenceIsDocs()
    ensures DocsPath(RULES, "LICENSE")
  {
    hide GlobCompiler.Matches;
    GlobCompiler.LiteralMatchesItself("LICENSE", "LICENSE");
    assert RULES.docsOnly[3] == "LICENSE";
    MorePatterns("LICENSE", "LICENSE", RULES.docsOnly);
    LicenceIsNotShipped();
  }

  lemma LicenceIsNotShipped()
    ensures !GlobCompiler.Matches("LICENSE", ["clients/**", "crates/**"])
  {
    hide GlobCompiler.Matches, GlobCompiler.ChoiceMatches, Glob.Normalized;
    var path, clients, crates := "LICENSE", "clients/**", "crates/**";
    assert path[0] == 'L' && clients[0] == 'c' && crates[0] == 'c';
    GlobCompiler.MatchesMeaning(path, [clients, crates]);
    Glob.NormalFormFixed(path);
    NothingUnder(clients, path);
    NothingUnder(crates, path);
  }

  lemma MorePatterns(path: string, pattern: string, patterns: seq<string>)
    requires pattern in patterns && GlobCompiler.Matches(path, [pattern])
    ensures GlobCompiler.Matches(path, patterns)
  {
    var found :| found in [pattern] && Regex.Match(GlobCompiler.GlobRegex(found), Glob.Normalized(path));
    assert found in patterns;
  }

  /** A brace-free pattern does not match a path that starts with another letter. */
  lemma NothingUnder(pattern: string, path: string)
    requires Glob.InNormalForm(pattern) && '{' !in pattern
    requires pattern != "" && path != "" && pattern[0] !in {'*', '?', path[0]}
    ensures !GlobCompiler.ChoiceMatches(Glob.Normalized(pattern), path)
  {
    Glob.NormalFormFixed(pattern);
    assert Glob.Expanded(pattern) == [pattern];
  }

  // ---------------------------------------------------------------- combination

  /** Two diffs outside the documentation lane enable together exactly what they enable apart. */
  lemma ScopeUnion(rules: Rules, catalog: Catalog, left: seq<string>, right: seq<string>, key: ScopeKey)
    requires left != [] && right != [] && !IsDocsOnly(rules, left) && !IsDocsOnly(rules, right)
    requires "ci" in catalog.profiles && key in SCOPE_KEYS
    ensures ScopeOf(rules, catalog, left + right).value[key]
        <==> ScopeOf(rules, catalog, left).value[key] || ScopeOf(rules, catalog, right).value[key]
  {
    hide GlobCompiler.Matches, SelectedIds, AnyMatch, NeedsRustGate, IsDocsOnly, SelectedChecks, CheckIds;
    DocsOnlyUnion(rules, left, right);
    AnyMatchUnion(left, right, rules.fullCi);
    if !AnyMatch(left + right, rules.fullCi) { RoutedUnion(rules, catalog, left, right, key); }
  }

  ghost predicate RoutedFor(rules: Rules, catalog: Catalog, paths: seq<string>, key: ScopeKey)
    requires "ci" in catalog.profiles
  {
    Routed(rules, paths, CheckIds(SelectedChecks(catalog, SelectedIds(catalog, paths), "ci").value),
        SelectedIds(catalog, paths), key)
  }

  lemma RoutedUnion(rules: Rules, catalog: Catalog, left: seq<string>, right: seq<string>, key: ScopeKey)
    requires left != [] && right != [] && "ci" in catalog.profiles
    ensures RoutedFor(rules, catalog, left + right, key)
        <==> RoutedFor(rules, catalog, left, key) || RoutedFor(rules, catalog, right, key)
  {
    hide GlobCompiler.Matches, SelectedIds, AnyMatch, NeedsRustGate, SelectedChecks, CheckIds;
    forall patterns
      ensures AnyMatch(left + right, patterns) <==> AnyMatch(left, patterns) || AnyMatch(right, patterns)
    {
      AnyMatchUnion(left, right, patterns);
    }
    SelectionUnion(catalog, left, right);
    ChecksUnion(catalog, SelectedIds(catalog, left), SelectedIds(catalog, right), "ci");
    NeedsRustUnion(rules, left, right);
  }

  lemma ChecksUnion(catalog: Catalog, left: set<Id>, right: set<Id>, profile: string)
    requires profile in catalog.profiles
    ensures CheckIds(SelectedChecks(catalog, left + right, profile).value) ==
            CheckIds(SelectedChecks(catalog, left, profile).value) + CheckIds(SelectedChecks(catalog, right,
                profile).value)
  {
    assert WantedIds(catalog, left + right) == WantedIds(catalog, left) + WantedIds(catalog, right);
  }

  lemma DocsOnlyUnion(rules: Rules, left: seq<string>, right: seq<string>)
    requires left != [] && right != []
    ensures IsDocsOnly(rules, left + right) <==> IsDocsOnly(rules, left) && IsDocsOnly(rules, right)
  {
    hide DocsPath;
    assert forall path :: path in left + right <==> path in left || path in right;
  }

  lemma AnyMatchUnion(left: seq<string>, right: seq<string>, patterns: seq<string>)
    ensures AnyMatch(left + right, patterns) <==> AnyMatch(left, patterns) || AnyMatch(right, patterns)
  {
    if AnyMatch(left, patterns) { AnyMatchMonotone(left, left + right, patterns); }
    if AnyMatch(right, patterns) { AnyMatchMonotone(right, left + right, patterns); }
  }

  lemma NeedsRustUnion(rules: Rules, left: seq<string>, right: seq<string>)
    requires left != [] && right != []
    ensures NeedsRustGate(rules, left + right) <==> NeedsRustGate(rules, left) || NeedsRustGate(rules, right)
  {
    assert forall path :: path in left + right <==> path in left || path in right;
  }

  lemma SelectionUnion(catalog: Catalog, left: seq<string>, right: seq<string>)
    ensures SelectedIds(catalog, left + right) == SelectedIds(catalog, left) + SelectedIds(catalog, right)
  {
    SelectionMonotone(catalog, left, left + right);
    SelectionMonotone(catalog, right, left + right);
    var edges := Edges(catalog);
    var l, r, both := TriggeredIds(catalog, left), TriggeredIds(catalog, right), TriggeredIds(catalog, left + right);
    forall id | id in both
      ensures id in l || id in r
    {
      TriggeredUnion(catalog, left, right, id);
    }
    forall id | id in SelectedIds(catalog, left + right)
      ensures id in SelectedIds(catalog, left) + SelectedIds(catalog, right)
    {
      AffectedUnion(edges, l, r, both, id);
    }
  }

  lemma TriggeredUnion(catalog: Catalog, left: seq<string>, right: seq<string>, id: Id)
    requires id in TriggeredIds(catalog, left + right)
    ensures id in TriggeredIds(catalog, left) || id in TriggeredIds(catalog, right)
  {
    var point :| point in catalog.points && point.id == id && Triggered(point, left + right);
    assert Triggered(point, left) || Triggered(point, right);
  }
}
