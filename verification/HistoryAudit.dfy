/** The audit of corrective commits against the regression ledger and the client-fix anchors. */
module HistoryAudit {
  import opened Options

  type Sha = string
  type Id = string

  datatype Issue = Issue(sha: Sha, paths: seq<string>, pointIds: seq<Id>, directTestEvidence: bool)

  datatype Entry = Entry(commits: seq<string>, points: seq<Id>, checks: seq<Id>, reason: string, ignored: bool)

  datatype Fix = Fix(id: string, commits: seq<string>, source: string, sourceAnchor: string, test: string,
      testAnchor: string)

  /** Known points with their checks, all known checks, and the checks that count everywhere. */
  datatype Catalog = Catalog(points: map<Id, set<Id>>, checks: set<Id>, always: set<Id>)

  /** What git, the ledgers and the working tree say; `revisions` is none when `enforceAfter` does not resolve. */
  datatype Input = Input(
    issues: seq<Issue>, entries: seq<Entry>, fixes: seq<Fix>, catalog: Catalog, files: map<string, string>,
    enforceAfter: Option<string>, revisions: Option<set<Sha>>)

  datatype Error =
    | NoCommits | NoReason | IgnoreClaims | NoChecks | UnknownPoint(id: Id) | UnknownCheck(id: Id)
    | Unresolved(prefix: string) | CoveredTwice(prefix: string) | WrongPoint(prefix: string) | NotEvidence(check: Id)
    | BadFixId(id: string) | MissingFile(path: string) | LostAnchor(path: string)
    | AnchoredTwice(prefix: string) | BothEvidence(prefix: string)
    | EnforceUnresolved | NeedsAnchor(sha: Sha) | NeedsMapping(sha: Sha) | NoEvidence(sha: Sha)

  datatype Report = Report(
    coveredByEntry: set<Sha>, coveredByAnchor: set<Sha>, ignored: set<Sha>, errors: seq<Error>)

  // ---------------------------------------------------------------- resolving prefixes

  function Shas(issues: seq<Issue>): set<Sha> {
    set issue | issue in issues :: issue.sha
  }

  function Matching(shas: set<Sha>, prefix: string): set<Sha> {
    set sha | sha in shas && prefix <= sha
  }

  /** The one audited commit the prefix matches, if it is one. */
  ghost function Target(shas: set<Sha>, prefix: string): (target: Option<Sha>)
    ensures target.Some? <==> exists sha :: Matching(shas, prefix) == {sha}
    ensures target.Some? ==> Matching(shas, prefix) == {target.value}
  {
    if sha :| Matching(shas, prefix) == {sha} then Some(sha) else None
  }

  lemma SingletonSize(shas: set<Sha>)
    ensures |shas| == 1 <==> exists sha :: shas == {sha}
  {
    if |shas| == 1 {
      var sha :| sha in shas;
      assert |shas - {sha}| == 0;
      assert shas == {sha};
    }
  }

  method Resolve(shas: set<Sha>, prefix: string) returns (target: Option<Sha>)
    ensures target == Target(shas, prefix)
  {
    var matching := Matching(shas, prefix);
    SingletonSize(matching);
    if |matching| != 1 { return None; }
    var sha :| sha in matching;
    assert matching == {sha} by {
      var only :| matching == {only};
    }
    target := Some(sha);
  }

  function IssueOf(issues: seq<Issue>, sha: Sha): Issue
    requires sha in Shas(issues)
  {
    if issues[|issues| - 1].sha == sha then issues[|issues| - 1] else IssueOf(issues[..|issues| - 1], sha)
  }

  // ---------------------------------------------------------------- what a clean ledger is

  predicate HeaderClean(entry: Entry, catalog: Catalog) {
    entry.commits != [] && entry.reason != "" && (entry.ignored ==> entry.points == [] && entry.checks == []) &&
    (!entry.ignored ==> entry.checks != []) &&
    (forall point :: point in entry.points ==> point in catalog.points) &&
    forall check :: check in entry.checks ==> check in catalog.checks
  }

  function AllowedChecks(entry: Entry, catalog: Catalog): set<Id> {
    catalog.always + set point, check | point in entry.points && point in catalog.points &&
        check in catalog.points[point] :: check
  }

  /** Every known check of the entry is evidence for one of its points, or counts everywhere. */
  predicate ChecksAreEvidence(entry: Entry, catalog: Catalog) {
    forall check :: check in entry.checks && check in catalog.checks ==> check in AllowedChecks(entry, catalog)
  }

  /** One commit prefix of the ledger, with the entry it stands in. */
  datatype Claim = Claim(prefix: string, entry: Entry)

  function EntryClaims(entry: Entry): seq<Claim> {
    seq(|entry.commits|, i requires 0 <= i < |entry.commits| => Claim(entry.commits[i], entry))
  }

  function Claims(entries: seq<Entry>): seq<Claim> {
    if entries == [] then [] else Claims(entries[..|entries| - 1]) + EntryClaims(entries[|entries| - 1])
  }

  function FixPrefixes(fixes: seq<Fix>): seq<string> {
    if fixes == [] then [] else FixPrefixes(fixes[..|fixes| - 1]) + fixes[|fixes| - 1].commits
  }

  predicate PointsAgree(issue: Issue, entry: Entry) {
    entry.ignored || issue.pointIds == [] || exists point :: point in issue.pointIds && point in entry.points
  }

  ghost predicate ClaimClean(issues: seq<Issue>, claim: Claim) {
    Target(Shas(issues), claim.prefix).Some? &&
    Target(Shas(issues), claim.prefix).value in Shas(issues) &&
    PointsAgree(IssueOf(issues, Target(Shas(issues), claim.prefix).value), claim.entry)
  }

  /** Every claim resolves to its own commit and names one of the commit's points. */
  ghost predicate ClaimsClean(issues: seq<Issue>, claims: seq<Claim>) {
    (forall i :: 0 <= i < |claims| ==> ClaimClean(issues, claims[i])) &&
    forall i, j :: 0 <= i < j < |claims| ==>
      Target(Shas(issues), claims[i].prefix) != Target(Shas(issues), claims[j].prefix)
  }

  lemma ClaimsCleanAppend(issues: seq<Issue>, claims: seq<Claim>, claim: Claim)
    ensures ClaimsClean(issues, claims + [claim]) <==>
              ClaimsClean(issues, claims) && ClaimClean(issues, claim) &&
              forall i :: 0 <= i < |claims| ==>
                  Target(Shas(issues), claims[i].prefix) != Target(Shas(issues), claim.prefix)
  {
    hide ClaimClean, Target;
    var longer := claims + [claim];
    assert forall i :: 0 <= i < |claims| ==> longer[i] == claims[i];
    assert longer[|claims|] == claim;
  }

  lemma ClaimsCleanPrefix(issues: seq<Issue>, claims: seq<Claim>, more: seq<Claim>)
    ensures ClaimsClean(issues, claims + more) ==> ClaimsClean(issues, claims)
  {
    hide ClaimClean, Target;
    var longer := claims + more;
    assert forall i :: 0 <= i < |claims| ==> longer[i] == claims[i];
  }

  /** `resolved` maps the target of each claim to the claim's entry, and nothing else. */
  ghost predicate ResolvedBy(issues: seq<Issue>, claims: seq<Claim>, resolved: map<Sha, Entry>) {
    |resolved| == |claims| &&
    (forall i :: 0 <= i < |claims| ==> ResolvesTo(issues, claims[i], resolved)) &&
    forall sha :: sha in resolved ==> Claimed(issues, claims, sha)
  }

  ghost predicate ResolvesTo(issues: seq<Issue>, claim: Claim, resolved: map<Sha, Entry>) {
    Target(Shas(issues), claim.prefix).Some? && Target(Shas(issues), claim.prefix).value in resolved &&
    resolved[Target(Shas(issues), claim.prefix).value] == claim.entry
  }

  ghost predicate Claimed(issues: seq<Issue>, claims: seq<Claim>, sha: Sha) {
    exists i :: 0 <= i < |claims| && Target(Shas(issues), claims[i].prefix) == Some(sha)
  }

  lemma ResolvedOneMore(issues: seq<Issue>, claims: seq<Claim>, resolved: map<Sha, Entry>, claim: Claim)
    requires ResolvedBy(issues, claims, resolved) && Target(Shas(issues), claim.prefix).Some?
    requires Target(Shas(issues), claim.prefix).value !in resolved
    ensures ResolvedBy(issues, claims + [claim], resolved[Target(Shas(issues), claim.prefix).value := claim.entry])
  {
    hide Target, Shas, Claimed, ResolvesTo;
    var target := Target(Shas(issues), claim.prefix).value;
    var more, longer := resolved[target := claim.entry], claims + [claim];
    assert |more| == |longer| by { MapSizeOneMore(resolved, target, claim.entry); }
    forall i | 0 <= i < |longer|
      ensures ResolvesTo(issues, longer[i], more)
    {
      if i < |claims| { assert longer[i] == claims[i] && ResolvesTo(issues, claims[i], resolved); }
      StillResolves(issues, longer[i], resolved, target, claim.entry);
    }
    forall sha | sha in more
      ensures Claimed(issues, longer, sha)
    {
      ClaimedOneMore(issues, claims, claim, sha);
    }
  }

  lemma StillResolves(issues: seq<Issue>, claim: Claim, resolved: map<Sha, Entry>, target: Sha, entry: Entry)
    requires target !in resolved
    ensures ResolvesTo(issues, claim, resolved) ==> ResolvesTo(issues, claim, resolved[target := entry])
    ensures Target(Shas(issues), claim.prefix) == Some(target) && claim.entry == entry ==>
              ResolvesTo(issues, claim, resolved[target := entry])
  {
    hide Target, Shas;
  }

  lemma ClaimedOneMore(issues: seq<Issue>, claims: seq<Claim>, claim: Claim, sha: Sha)
    ensures Claimed(issues, claims + [claim], sha) <==>
              Claimed(issues, claims, sha) || Target(Shas(issues), claim.prefix) == Some(sha)
  {
    hide Target, Shas;
    var longer := claims + [claim];
    assert longer[|claims|] == claim && forall i :: 0 <= i < |claims| ==> longer[i] == claims[i];
  }

  lemma MapSizeOneMore<K, V>(m: map<K, V>, key: K, value: V)
    requires key !in m
    ensures |m[key := value]| == |m| + 1
  {
    assert m[key := value].Keys == m.Keys + {key};
    assert |m[key := value]| == |m[key := value].Keys| && |m| == |m.Keys|;
  }

  predicate EntryClean(entry: Entry, catalog: Catalog) {
    HeaderClean(entry, catalog) && ChecksAreEvidence(entry, catalog)
  }

  ghost predicate LedgerClean(input: Input, entries: seq<Entry>) {
    (forall entry :: entry in entries ==> EntryClean(entry, input.catalog)) &&
    ClaimsClean(input.issues, Claims(entries))
  }

  // ---------------------------------------------------------------- what clean anchors are

  predicate OccursAt(text: string, anchor: string, i: nat)
    requires i + |anchor| <= |text|
  {
    text[i..i + |anchor|] == anchor
  }

  predicate Contains(text: string, anchor: string) {
    exists i :: 0 <= i <= |text| - |anchor| && OccursAt(text, anchor, i)
  }

  predicate AnchorHolds(files: map<string, string>, path: string, anchor: string) {
    path in files && Contains(files[path], anchor)
  }

  predicate FixFilesClean(input: Input, fix: Fix) {
    AnchorHolds(input.files, fix.source, fix.sourceAnchor) && AnchorHolds(input.files, fix.test, fix.testAnchor)
  }

  ghost predicate FixIdsClean(fixes: seq<Fix>) {
    (forall i :: 0 <= i < |fixes| ==> fixes[i].id != "") && forall i, j :: 0 <= i < j < |fixes| ==>
        fixes[i].id != fixes[j].id
  }

  /** Every anchor prefix resolves to its own commit, outside the ledger's. */
  ghost predicate AnchorsClean(issues: seq<Issue>, prefixes: seq<string>, ledger: set<Sha>) {
    (forall i :: 0 <= i < |prefixes| ==>
      Target(Shas(issues), prefixes[i]).Some? && Target(Shas(issues), prefixes[i]).value !in ledger) &&
    forall i, j :: 0 <= i < j < |prefixes| ==> Target(Shas(issues), prefixes[i]) != Target(Shas(issues), prefixes[j])
  }

  lemma AnchorsCleanAppend(issues: seq<Issue>, prefixes: seq<string>, ledger: set<Sha>, prefix: string)
    ensures AnchorsClean(issues, prefixes + [prefix], ledger) <==>
              AnchorsClean(issues, prefixes, ledger) &&
              Target(Shas(issues), prefix).Some? && Target(Shas(issues), prefix).value !in ledger &&
              forall i :: 0 <= i < |prefixes| ==> Target(Shas(issues), prefixes[i]) != Target(Shas(issues), prefix)
  {
    hide Target, Shas;
    var longer := prefixes + [prefix];
    assert forall i :: 0 <= i < |prefixes| ==> longer[i] == prefixes[i];
    assert longer[|prefixes|] == prefix;
  }

  lemma AnchorsCleanPrefix(issues: seq<Issue>, prefixes: seq<string>, more: seq<string>, ledger: set<Sha>)
    ensures AnchorsClean(issues, prefixes + more, ledger) ==> AnchorsClean(issues, prefixes, ledger)
  {
    hide Target, Shas;
    var longer := prefixes + more;
    assert forall i :: 0 <= i < |prefixes| ==> longer[i] == prefixes[i];
  }

  ghost predicate AnchoredBy(issues: seq<Issue>, prefixes: seq<string>, anchored: set<Sha>) {
    |anchored| == |prefixes| &&
    (forall i :: 0 <= i < |prefixes| ==>
      Target(Shas(issues), prefixes[i]).Some? && Target(Shas(issues), prefixes[i]).value in anchored) &&
    forall sha :: sha in anchored ==> exists i :: 0 <= i < |prefixes| && Target(Shas(issues), prefixes[i]) == Some(sha)
  }

  lemma AnchoredOneMore(issues: seq<Issue>, prefixes: seq<string>, anchored: set<Sha>, prefix: string)
    requires AnchoredBy(issues, prefixes, anchored) && Target(Shas(issues), prefix).Some?
    requires Target(Shas(issues), prefix).value !in anchored
    ensures AnchoredBy(issues, prefixes + [prefix], anchored + {Target(Shas(issues), prefix).value})
  {
    hide Target, Shas;
    var target := Target(Shas(issues), prefix).value;
    var longer := prefixes + [prefix];
    forall sha | sha in anchored + {target}
      ensures exists i :: 0 <= i < |longer| && Target(Shas(issues), longer[i]) == Some(sha)
    {
      if sha == target {
        assert longer[|prefixes|] == prefix;
      } else {
        var i :| 0 <= i < |prefixes| && Target(Shas(issues), prefixes[i]) == Some(sha);
        assert longer[i] == prefixes[i];
      }
    }
  }

  ghost predicate FixesClean(input: Input, fixes: seq<Fix>, ledger: set<Sha>) {
    FixIdsClean(fixes) && (forall fix :: fix in fixes ==> FixFilesClean(input, fix)) &&
    AnchorsClean(input.issues, FixPrefixes(fixes), ledger)
  }

  // ---------------------------------------------------------------- what each commit needs

  predicate TouchesUnder(issue: Issue, directory: string) {
    exists path :: path in issue.paths && directory <= path
  }

  /** The evidence rule for the commit's class: enforced client, enforced runtime, or any other. */
  predicate IssueClean(issue: Issue, enforced: set<Sha>, resolved: set<Sha>, anchored: set<Sha>) {
    if issue.sha in enforced && TouchesUnder(issue, "clients/") then issue.sha in anchored
    else if issue.sha in enforced && TouchesUnder(issue, "crates/") then issue.sha in resolved || issue.sha in anchored
    else (issue.pointIds != [] && issue.directTestEvidence) || issue.sha in resolved
  }

  function Enforced(input: Input): set<Sha> {
    if input.enforceAfter.Some? && input.enforceAfter.value != "" && input.revisions.Some?
        then input.revisions.value else {}
  }

  predicate EnforceResolves(input: Input) {
    input.enforceAfter.Some? && input.enforceAfter.value != "" ==> input.revisions.Some?
  }

  /** The audited commits the ledger's prefixes name, from ignoring or from checking entries. */
  ghost function Mapped(input: Input, ignored: bool): set<Sha> {
    set sha | sha in Shas(input.issues) &&
      (exists i :: 0 <= i < |Claims(input.entries)| && Claims(input.entries)[i].entry.ignored == ignored &&
                   Target(Shas(input.issues), Claims(input.entries)[i].prefix) == Some(sha))
  }

  /** The audited commits the anchors' prefixes name. */
  ghost function Anchors(input: Input): set<Sha> {
    set sha | sha in Shas(input.issues) &&
      (exists i :: 0 <= i < |FixPrefixes(input.fixes)| &&
          Target(Shas(input.issues), FixPrefixes(input.fixes)[i]) == Some(sha))
  }

  ghost predicate Clean(input: Input) {
    CleanWith(input, Mapped(input, false) + Mapped(input, true), Anchors(input))
  }

  ghost predicate CleanWith(input: Input, resolved: set<Sha>, anchored: set<Sha>) {
    LedgerClean(input, input.entries) && FixesClean(input, input.fixes, resolved) && EnforceResolves(input) &&
    forall issue :: issue in input.issues ==> IssueClean(issue, Enforced(input), resolved, anchored)
  }

  // ---------------------------------------------------------------- the audit

  class HistoryAudit {
    const input: Input
    var errors: seq<Error>
    var resolved: map<Sha, Entry>
    var anchored: set<Sha>

    constructor (input: Input)
      ensures this.input == input && errors == [] && resolved == map[] && anchored == {}
    {
      this.input := input;
      errors, resolved, anchored := [], map[], {};
    }

    method CheckHeader(entry: Entry)
      modifies `errors
      ensures errors == [] <==> old(errors) == [] && HeaderClean(entry, input.catalog)
    {
      if entry.commits == [] { errors := errors + [NoCommits]; }
      if entry.reason == "" { errors := errors + [NoReason]; }
      if entry.ignored && (entry.points != [] || entry.checks != []) { errors := errors + [IgnoreClaims]; }
      if !entry.ignored && entry.checks == [] { errors := errors + [NoChecks]; }
      ghost var before := errors;
      for n := 0 to |entry.points|
        invariant errors == [] <==> before == [] && forall i :: 0 <= i < n ==> entry.points[i] in input.catalog.points
      {
        if entry.points[n] !in input.catalog.points { errors := errors + [UnknownPoint(entry.points[n])]; }
      }
      before := errors;
      for n := 0 to |entry.checks|
        invariant errors == [] <==> before == [] && forall i :: 0 <= i < n ==> entry.checks[i] in input.catalog.checks
      {
        if entry.checks[n] !in input.catalog.checks { errors := errors + [UnknownCheck(entry.checks[n])]; }
      }
    }

    method CheckEvidence(entry: Entry)
      modifies `errors
      ensures errors == [] <==> old(errors) == [] && ChecksAreEvidence(entry, input.catalog)
    {
      var allowed := AllowedChecks(entry, input.catalog);
      for n := 0 to |entry.checks|
        invariant errors == [] <==>
          (old(errors) == [] &&
           forall i :: 0 <= i < n && entry.checks[i] in input.catalog.checks ==> entry.checks[i] in allowed)
      {
        if entry.checks[n] in input.catalog.checks && entry.checks[n] !in allowed {
          errors := errors + [NotEvidence(entry.checks[n])];
        }
      }
    }

    /** While there are no errors, `resolved` is exactly what the claims so far resolve to. */
    ghost predicate LedgerSoFar(claims: seq<Claim>)
      reads this
    {
      errors == [] ==> ResolvedBy(input.issues, claims, resolved)
    }

    method CheckClaim(ghost claims: seq<Claim>, entry: Entry, prefix: string)
      requires LedgerSoFar(claims) && resolved.Keys <= Shas(input.issues)
      modifies `errors, `resolved
      ensures LedgerSoFar(claims + [Claim(prefix, entry)]) && resolved.Keys <= Shas(input.issues)
      ensures old(errors) != [] ==> errors != []
      ensures old(errors) == [] && ClaimsClean(input.issues, claims) ==>
                (errors == [] <==> ClaimsClean(input.issues, claims + [Claim(prefix, entry)]))
    {
      hide ClaimsClean, ResolvedBy;
      ghost var claim := Claim(prefix, entry);
      ClaimsCleanAppend(input.issues, claims, claim);
      var target := Resolve(Shas(input.issues), prefix);
      if target.None? {
        errors := errors + [Unresolved(prefix)];
        return;
      }
      var sha := target.value;
      TargetIsAudited(Shas(input.issues), prefix);
      if errors == [] { TakenIffResolved(input.issues, claims, resolved, prefix); }
      if sha in resolved {
        errors := errors + [CoveredTwice(prefix)];
        return;
      }
      if errors == [] { ResolvedOneMore(input.issues, claims, resolved, claim); }
      resolved := resolved[sha := entry];
      if !PointsAgree(IssueOf(input.issues, sha), entry) { errors := errors + [WrongPoint(prefix)]; }
    }

    method CheckClaims(entry: Entry, ghost before: seq<Claim>)
      requires LedgerSoFar(before) && resolved.Keys <= Shas(input.issues)
      requires errors == [] ==> ClaimsClean(input.issues, before)
      modifies `errors, `resolved
      ensures LedgerSoFar(before + EntryClaims(entry)) && resolved.Keys <= Shas(input.issues)
      ensures errors == [] <==> old(errors) == [] && ClaimsClean(input.issues, before + EntryClaims(entry))
    {
      hide ClaimsClean, LedgerSoFar;
      ghost var claimed := EntryClaims(entry);
      assert before + claimed[..0] == before;
      for k := 0 to |entry.commits|
        invariant errors == [] <==> old(errors) == [] && ClaimsClean(input.issues, before + claimed[..k])
        invariant LedgerSoFar(before + claimed[..k]) && resolved.Keys <= Shas(input.issues)
      {
        assert before + claimed[..k + 1] == before + claimed[..k] + [Claim(entry.commits[k], entry)];
        ClaimsCleanPrefix(input.issues, before + claimed[..k], [Claim(entry.commits[k], entry)]);
        CheckClaim(before + claimed[..k], entry, entry.commits[k]);
      }
      assert claimed[..|entry.commits|] == claimed;
    }

    method AuditEntries()
      requires errors == [] && resolved == map[]
      modifies `errors, `resolved
      ensures errors == [] <==> LedgerClean(input, input.entries)
      ensures LedgerSoFar(Claims(input.entries)) && resolved.Keys <= Shas(input.issues)
    {
      hide ClaimsClean, ResolvedBy, HeaderClean, ChecksAreEvidence, LedgerClean;
      NoClaims(input);
      for n := 0 to |input.entries|
        invariant errors == [] <==> LedgerClean(input, input.entries[..n])
        invariant LedgerSoFar(Claims(input.entries[..n])) && resolved.Keys <= Shas(input.issues)
      {
        var entry := input.entries[n];
        LedgerCleanStep(input, n);
        CheckHeader(entry);
        CheckClaims(entry, Claims(input.entries[..n]));
        CheckEvidence(entry);
      }
      assert input.entries[..|input.entries|] == input.entries;
    }

    method CheckFixFile(path: string, anchor: string)
      modifies `errors
      ensures errors == [] <==> old(errors) == [] && AnchorHolds(input.files, path, anchor)
    {
      if path !in input.files {
        errors := errors + [MissingFile(path)];
      } else if !Contains(input.files[path], anchor) {
        errors := errors + [LostAnchor(path)];
      }
    }

    /** While there are no errors, `anchored` is exactly what the anchor prefixes so far resolve to. */
    ghost predicate AnchorsSoFar(prefixes: seq<string>, seen: set<string>)
      reads this
    {
      (errors == [] ==> AnchoredBy(input.issues, prefixes, anchored) && anchored !! resolved.Keys) &&
      (forall prefix :: prefix in seen <==> prefix in prefixes) && anchored <= Shas(input.issues)
    }

    method CheckAnchor(ghost prefixes: seq<string>, seen: set<string>, prefix: string)
      requires AnchorsSoFar(prefixes, seen)
      modifies `errors, `anchored
      ensures AnchorsSoFar(prefixes + [prefix], seen + {prefix})
      ensures old(errors) != [] ==> errors != []
      ensures old(errors) == [] && AnchorsClean(input.issues, prefixes, resolved.Keys) ==>
                (errors == [] <==> AnchorsClean(input.issues, prefixes + [prefix], resolved.Keys))
    {
      hide AnchorsClean, AnchoredBy;
      AnchorsCleanAppend(input.issues, prefixes, resolved.Keys, prefix);
      if prefix in seen {
        ghost var i :| 0 <= i < |prefixes| && prefixes[i] == prefix;
        errors := errors + [AnchoredTwice(prefix)];
        return;
      }
      var target := Resolve(Shas(input.issues), prefix);
      if target.None? {
        errors := errors + [Unresolved(prefix)];
        return;
      }
      var sha := target.value;
      TargetIsAudited(Shas(input.issues), prefix);
      if errors == [] { TakenIffAnchored(input.issues, prefixes, anchored, prefix); }
      if sha in resolved {
        errors := errors + [BothEvidence(prefix)];
        return;
      }
      if sha in anchored {
        errors := errors + [AnchoredTwice(prefix)];
        return;
      }
      if errors == [] { AnchoredOneMore(input.issues, prefixes, anchored, prefix); }
      anchored := anchored + {sha};
    }

    method CheckAnchors(commits: seq<string>, ghost before: seq<string>, seen: set<string>) returns (all: set<string>)
      requires AnchorsSoFar(before, seen)
      requires errors == [] ==> AnchorsClean(input.issues, before, resolved.Keys)
      modifies `errors, `anchored
      ensures AnchorsSoFar(before + commits, all)
      ensures errors == [] <==> old(errors) == [] && AnchorsClean(input.issues, before + commits, resolved.Keys)
    {
      hide AnchorsClean, AnchorsSoFar;
      assert before + commits[..0] == before;
      all := seen;
      for k := 0 to |commits|
        invariant errors == [] <==>
          (old(errors) == [] && AnchorsClean(input.issues, before + commits[..k], resolved.Keys))
        invariant AnchorsSoFar(before + commits[..k], all)
      {
        assert before + commits[..k + 1] == before + commits[..k] + [commits[k]];
        AnchorsCleanPrefix(input.issues, before + commits[..k], [commits[k]], resolved.Keys);
        CheckAnchor(before + commits[..k], all, commits[k]);
        all := all + {commits[k]};
      }
      assert commits[..|commits|] == commits;
    }

    method AuditFixes()
      requires anchored == {}
      modifies `errors, `anchored
      ensures errors == [] <==> old(errors) == [] && FixesClean(input, input.fixes, resolved.Keys)
      ensures errors == [] ==> AnchoredBy(input.issues, FixPrefixes(input.fixes), anchored) && anchored !! resolved.Keys
      ensures anchored <= Shas(input.issues)
    {
      hide AnchorsClean, AnchoredBy, FixFilesClean, FixesClean;
      NoAnchors(input, resolved.Keys);
      var ids: set<string> := {};
      var seen: set<string> := {};
      for n := 0 to |input.fixes|
        invariant errors == [] <==> old(errors) == [] && FixesClean(input, input.fixes[..n], resolved.Keys)
        invariant AnchorsSoFar(FixPrefixes(input.fixes[..n]), seen)
        invariant forall id :: id in ids <==> exists i :: 0 <= i < n && input.fixes[i].id == id
      {
        var fix := input.fixes[n];
        ghost var before := FixPrefixes(input.fixes[..n]);
        FixesCleanStep(input, n, ids, resolved.Keys);
        if fix.id == "" || fix.id in ids { errors := errors + [BadFixId(fix.id)]; }
        ids := ids + {fix.id};
        CheckFixFile(fix.source, fix.sourceAnchor);
        CheckFixFile(fix.test, fix.testAnchor);
        FixFilesMeaning(input, fix);
        seen := CheckAnchors(fix.commits, before, seen);
      }
      assert input.fixes[..|input.fixes|] == input.fixes;
    }

    method AuditIssues(enforced: set<Sha>)
      modifies `errors
      ensures errors == [] <==>
                (old(errors) == [] &&
                 forall issue :: issue in input.issues ==> IssueClean(issue, enforced, resolved.Keys, anchored))
    {
      for n := 0 to |input.issues|
        invariant errors == [] <==>
          (old(errors) == [] && forall i :: 0 <= i < n ==>
              IssueClean(input.issues[i], enforced, resolved.Keys, anchored))
      {
        var issue := input.issues[n];
        if issue.sha in enforced && TouchesUnder(issue, "clients/") {
          if issue.sha !in anchored { errors := errors + [NeedsAnchor(issue.sha)]; }
          continue;
        }
        if issue.sha in enforced && TouchesUnder(issue, "crates/") {
          if issue.sha !in resolved && issue.sha !in anchored { errors := errors + [NeedsMapping(issue.sha)]; }
          continue;
        }
        if issue.pointIds != [] && issue.directTestEvidence { continue; }
        if issue.sha !in resolved { errors := errors + [NoEvidence(issue.sha)]; }
      }
    }
  }

  lemma NoClaims(input: Input)
    ensures LedgerClean(input, []) && ResolvedBy(input.issues, Claims([]), map[])
  {
  }

  lemma NoAnchors(input: Input, ledger: set<Sha>)
    ensures FixesClean(input, [], ledger) && AnchoredBy(input.issues, FixPrefixes([]), {})
  {
  }

  lemma TargetIsAudited(shas: set<Sha>, prefix: string)
    ensures Target(shas, prefix).Some? ==> Target(shas, prefix).value in shas && prefix <= Target(shas, prefix).value
  {
    if Target(shas, prefix).Some? { assert Target(shas, prefix).value in Matching(shas, prefix); }
  }

  lemma TakenIffResolved(issues: seq<Issue>, claims: seq<Claim>, resolved: map<Sha, Entry>, prefix: string)
    requires ResolvedBy(issues, claims, resolved) && Target(Shas(issues), prefix).Some?
    ensures Target(Shas(issues), prefix).value in resolved <==>
              exists i :: 0 <= i < |claims| && Target(Shas(issues), claims[i].prefix) == Target(Shas(issues), prefix)
  {
    hide Target, Shas;
  }

  lemma TakenIffAnchored(issues: seq<Issue>, prefixes: seq<string>, anchored: set<Sha>, prefix: string)
    requires AnchoredBy(issues, prefixes, anchored) && Target(Shas(issues), prefix).Some?
    ensures Target(Shas(issues), prefix).value in anchored <==>
              exists i :: 0 <= i < |prefixes| && Target(Shas(issues), prefixes[i]) == Target(Shas(issues), prefix)
  {
    hide Target, Shas;
  }

  lemma LedgerCleanStep(input: Input, n: nat)
    requires n < |input.entries|
    ensures Claims(input.entries[..n + 1]) == Claims(input.entries[..n]) + EntryClaims(input.entries[n])
    ensures LedgerClean(input, input.entries[..n]) ==> ClaimsClean(input.issues, Claims(input.entries[..n]))
    ensures LedgerClean(input, input.entries[..n + 1]) <==>
              LedgerClean(input, input.entries[..n]) && HeaderClean(input.entries[n], input.catalog) &&
              ChecksAreEvidence(input.entries[n], input.catalog) &&
              ClaimsClean(input.issues, Claims(input.entries[..n]) + EntryClaims(input.entries[n]))
  {
    hide HeaderClean, ChecksAreEvidence, ClaimsClean;
    var entries, entry := input.entries[..n], input.entries[n];
    assert input.entries[..n + 1] == entries + [entry] && (entries + [entry])[..n] == entries;
    assert forall e :: e in entries + [entry] <==> e in entries || e == entry;
    assert EntryClean(entry, input.catalog) <==>
           HeaderClean(entry, input.catalog) && ChecksAreEvidence(entry, input.catalog);
    ClaimsCleanPrefix(input.issues, Claims(entries), EntryClaims(entry));
  }

  lemma FixesCleanStep(input: Input, n: nat, ids: set<string>, ledger: set<Sha>)
    requires n < |input.fixes| && forall id :: id in ids <==> exists i :: 0 <= i < n && input.fixes[i].id == id
    ensures FixPrefixes(input.fixes[..n + 1]) == FixPrefixes(input.fixes[..n]) + input.fixes[n].commits
    ensures FixesClean(input, input.fixes[..n], ledger) ==>
            AnchorsClean(input.issues, FixPrefixes(input.fixes[..n]), ledger)
    ensures FixesClean(input, input.fixes[..n + 1], ledger) <==>
              FixesClean(input, input.fixes[..n], ledger) && input.fixes[n].id != "" && input.fixes[n].id !in ids &&
              FixFilesClean(input, input.fixes[n]) &&
              AnchorsClean(input.issues, FixPrefixes(input.fixes[..n]) + input.fixes[n].commits, ledger)
  {
    hide FixIdsClean, FixFilesClean, AnchorsClean;
    assert input.fixes[..n + 1] == input.fixes[..n] + [input.fixes[n]];
    assert input.fixes[..n + 1][..n] == input.fixes[..n];
    FixIdsStep(input.fixes, n, ids);
    AnchorsCleanPrefix(input.issues, FixPrefixes(input.fixes[..n]), input.fixes[n].commits, ledger);
  }

  lemma FixIdsStep(fixes: seq<Fix>, n: nat, ids: set<string>)
    requires n < |fixes| && forall id :: id in ids <==> exists i :: 0 <= i < n && fixes[i].id == id
    ensures FixIdsClean(fixes[..n + 1]) <==> FixIdsClean(fixes[..n]) && fixes[n].id != "" && fixes[n].id !in ids
  {
    var longer, shorter := fixes[..n + 1], fixes[..n];
    assert forall i :: 0 <= i < n ==> longer[i] == shorter[i] == fixes[i];
    assert longer[n] == fixes[n];
  }

  lemma FixFilesMeaning(input: Input, fix: Fix)
    ensures FixFilesClean(input, fix) <==>
              AnchorHolds(input.files, fix.source, fix.sourceAnchor) &&
                  AnchorHolds(input.files, fix.test, fix.testAnchor)
  {
  }

  function Covered(resolved: map<Sha, Entry>, ignored: bool): set<Sha> {
    set sha | sha in resolved && resolved[sha].ignored == ignored
  }

  /** `resolved` holds the ledger's commits once every claim has been resolved. */
  lemma ResolvedIsMapped(input: Input, resolved: map<Sha, Entry>)
    requires ResolvedBy(input.issues, Claims(input.entries), resolved) && resolved.Keys <= Shas(input.issues)
    ensures Covered(resolved, false) == Mapped(input, false) && Covered(resolved, true) == Mapped(input, true)
    ensures resolved.Keys == Mapped(input, false) + Mapped(input, true)
  {
    hide Target, Claims, Shas, ResolvedBy, Mapped;
    forall ignored: bool, sha
      ensures sha in Mapped(input, ignored) <==> sha in resolved && resolved[sha].ignored == ignored
    {
      if sha in resolved { ResolvedMapped(input, resolved, sha); }
      if sha in Mapped(input, ignored) { MappedResolved(input, resolved, ignored, sha); }
    }
  }

  lemma ResolvedMapped(input: Input, resolved: map<Sha, Entry>, sha: Sha)
    requires ResolvedBy(input.issues, Claims(input.entries), resolved) && resolved.Keys <= Shas(input.issues)
    requires sha in resolved
    ensures sha in Mapped(input, resolved[sha].ignored)
  {
    hide Target, Claims, Shas;
    var shas, claims := Shas(input.issues), Claims(input.entries);
    var i :| 0 <= i < |claims| && Target(shas, claims[i].prefix) == Some(sha);
    assert resolved[Target(shas, claims[i].prefix).value] == claims[i].entry;
  }

  lemma MappedResolved(input: Input, resolved: map<Sha, Entry>, ignored: bool, sha: Sha)
    requires ResolvedBy(input.issues, Claims(input.entries), resolved) && sha in Mapped(input, ignored)
    ensures sha in resolved && resolved[sha].ignored == ignored
  {
    hide Target, Claims, Shas;
    var shas, claims := Shas(input.issues), Claims(input.entries);
    var i :| 0 <= i < |claims| && Target(shas, claims[i].prefix) == Some(sha) && claims[i].entry.ignored == ignored;
    assert resolved[Target(shas, claims[i].prefix).value] == claims[i].entry;
  }

  lemma AnchoredIsAnchors(input: Input, anchored: set<Sha>)
    requires AnchoredBy(input.issues, FixPrefixes(input.fixes), anchored) && anchored <= Shas(input.issues)
    ensures anchored == Anchors(input)
  {
    hide Target, FixPrefixes;
    var shas, prefixes := Shas(input.issues), FixPrefixes(input.fixes);
    forall sha | sha in Anchors(input) ensures sha in anchored {
      var i :| 0 <= i < |prefixes| && Target(shas, prefixes[i]) == Some(sha);
      assert Target(shas, prefixes[i]).value in anchored;
    }
  }

  lemma SplitSize<K, V>(m: map<K, V>, first: set<K>, second: set<K>)
    requires first !! second && m.Keys == first + second
    ensures |m| == |first| + |second|
  {
    assert |m| == |m.Keys|;
  }

  /** The audit reports no error exactly for clean ledgers, and then its three lists are a disjoint cover. */
  method AuditHistory(input: Input) returns (report: Report)
    ensures report.errors == [] <==> Clean(input)
    ensures report.errors == [] ==>
              report.coveredByEntry == Mapped(input, false) && report.ignored == Mapped(input, true) &&
              report.coveredByAnchor == Anchors(input)
    ensures report.errors == [] ==>
              report.coveredByEntry !! report.ignored &&
                  (report.coveredByEntry + report.ignored) !! report.coveredByAnchor &&
              |report.coveredByEntry| + |report.ignored| + |report.coveredByAnchor| ==
              |Claims(input.entries)| + |FixPrefixes(input.fixes)|
    ensures report.errors == [] && input.enforceAfter.Some? && input.enforceAfter.value != "" ==>
              input.revisions.Some? && forall issue :: issue in input.issues && issue.sha in input.revisions.value ==>
                ((exists path :: path in issue.paths && "clients/" <= path) ==> AnchorNames(input, issue.sha)) &&
                ((exists path :: path in issue.paths && "crates/" <= path) ==>
                  LedgerNames(input, issue.sha) || AnchorNames(input, issue.sha))
  {
    hide LedgerClean, FixesClean, ResolvedBy, AnchoredBy, Mapped, Anchors, IssueClean;
    if Clean(input) && input.enforceAfter.Some? && input.enforceAfter.value != "" { EnforcedNeedsNaming(input); }
    var audit := new HistoryAudit(input);
    audit.AuditEntries();
    ghost var ledgerClean := audit.errors == [];
    if ledgerClean { ResolvedIsMapped(input, audit.resolved); }
    audit.AuditFixes();
    if audit.errors == [] {
      AnchoredIsAnchors(input, audit.anchored);
      CoverSize(input, audit.resolved, audit.anchored);
    }
    if !EnforceResolves(input) { audit.errors := audit.errors + [EnforceUnresolved]; }
    audit.AuditIssues(Enforced(input));
    report := Report(Covered(audit.resolved, false), audit.anchored, Covered(audit.resolved, true), audit.errors);
  }

  lemma CoverSize(input: Input, resolved: map<Sha, Entry>, anchored: set<Sha>)
    requires ResolvedBy(input.issues, Claims(input.entries), resolved)
    requires AnchoredBy(input.issues, FixPrefixes(input.fixes), anchored)
    ensures |Covered(resolved, false)| + |Covered(resolved, true)| + |anchored| ==
              |Claims(input.entries)| + |FixPrefixes(input.fixes)|
  {
    hide Target, Shas, Claims, FixPrefixes;
    assert resolved.Keys == Covered(resolved, false) + Covered(resolved, true);
    SplitSize(resolved, Covered(resolved, false), Covered(resolved, true));
  }

  // ---------------------------------------------------------------- what an audit without errors means

  /** A prefix in the ledger names the commit. */
  ghost predicate LedgerNames(input: Input, sha: Sha) {
    exists entry, prefix :: entry in input.entries && prefix in entry.commits && prefix <= sha
  }

  /** An anchor's prefix names the commit. */
  ghost predicate AnchorNames(input: Input, sha: Sha) {
    exists fix, prefix :: fix in input.fixes && prefix in fix.commits && prefix <= sha
  }

  lemma EntryCleanMeans(entry: Entry, catalog: Catalog)
    ensures EntryClean(entry, catalog) <==>
              entry.commits != [] && entry.reason != "" &&
              (if entry.ignored then entry.points == [] && entry.checks == [] else entry.checks != []) &&
              (forall point :: point in entry.points ==> point in catalog.points) &&
              forall check :: check in entry.checks ==>
                check in catalog.checks &&
                (check in catalog.always ||
                 exists point :: point in entry.points && point in catalog.points && check in catalog.points[point])
  {
  }

  /** Exactly one audited commit starts with the prefix, and the k-th issue is the last one of it. */
  ghost predicate NamesIssue(issues: seq<Issue>, prefix: string, k: nat) {
    k < |issues| && prefix <= issues[k].sha &&
    forall j :: 0 <= j < |issues| && prefix <= issues[j].sha ==> j <= k && issues[j].sha == issues[k].sha
  }

  /** A claim is clean when its prefix names an issue, which shares a point with the entry if need be. */
  lemma ClaimCleanMeans(issues: seq<Issue>, claim: Claim)
    ensures ClaimClean(issues, claim) <==>
              exists k: nat :: k < |issues| && NamesIssue(issues, claim.prefix, k) &&
                (claim.entry.ignored || issues[k].pointIds == [] ||
                 exists point :: point in issues[k].pointIds && point in claim.entry.points)
  {
    hide Target, IssueOf, NamesIssue, Shas;
    if ClaimClean(issues, claim) { var k := OnlyIssue(issues, claim.prefix); }
    if k: nat :| k < |issues| && NamesIssue(issues, claim.prefix, k) &&
                 (claim.entry.ignored || issues[k].pointIds == [] ||
                  exists point :: point in issues[k].pointIds && point in claim.entry.points) {
      NamedIssue(issues, claim.prefix, k);
    }
  }

  lemma NamedIssue(issues: seq<Issue>, prefix: string, k: nat)
    requires NamesIssue(issues, prefix, k)
    ensures Target(Shas(issues), prefix) == Some(issues[k].sha) && issues[k].sha in Shas(issues)
    ensures IssueOf(issues, issues[k].sha) == issues[k]
  {
    hide Target, IssueOf;
    OnlyMatch(issues, prefix, k);
    var last := IssueOfIsLast(issues, issues[k].sha);
    assert prefix <= issues[last].sha;
  }

  lemma OnlyIssue(issues: seq<Issue>, prefix: string) returns (k: nat)
    requires Target(Shas(issues), prefix).Some? && Target(Shas(issues), prefix).value in Shas(issues)
    ensures k < |issues| && NamesIssue(issues, prefix, k)
    ensures issues[k] == IssueOf(issues, Target(Shas(issues), prefix).value)
  {
    hide Target, IssueOf;
    var shas := Shas(issues);
    k := IssueOfIsLast(issues, Target(shas, prefix).value);
    TargetIsAudited(shas, prefix);
    forall j | 0 <= j < |issues| && prefix <= issues[j].sha
      ensures j <= k && issues[j].sha == issues[k].sha
    {
      assert issues[j].sha in Matching(shas, prefix);
    }
  }

  /** The anchored texts of a fix are in its two files. */
  lemma FixFilesCleanMeans(input: Input, fix: Fix)
    ensures FixFilesClean(input, fix) <==>
              fix.source in input.files && fix.test in input.files &&
              (exists before, after :: input.files[fix.source] == before + fix.sourceAnchor + after) &&
              exists before, after :: input.files[fix.test] == before + fix.testAnchor + after
  {
    hide Contains;
    if fix.source in input.files { ContainsMeans(input.files[fix.source], fix.sourceAnchor); }
    if fix.test in input.files { ContainsMeans(input.files[fix.test], fix.testAnchor); }
  }

  lemma ContainsMeans(text: string, anchor: string)
    ensures Contains(text, anchor) <==> exists before, after :: text == before + anchor + after
  {
    if i :| 0 <= i <= |text| - |anchor| && OccursAt(text, anchor, i) {
      assert text == text[..i] + anchor + text[i + |anchor|..];
    }
    if before, after :| text == before + anchor + after { assert OccursAt(text, anchor, |before|); }
  }

  lemma OnlyMatch(issues: seq<Issue>, prefix: string, k: nat)
    requires k < |issues| && prefix <= issues[k].sha
    requires forall j :: 0 <= j < |issues| && prefix <= issues[j].sha ==> issues[j].sha == issues[k].sha
    ensures Target(Shas(issues), prefix) == Some(issues[k].sha) && issues[k].sha in Shas(issues)
  {
    var sha := issues[k].sha;
    assert issues[k] in issues;
    assert Matching(Shas(issues), prefix) == {sha};
    assert sha in {sha};
  }

  /** The issue of a commit is the last one listed. */
  lemma {:induction false} IssueOfIsLast(issues: seq<Issue>, sha: Sha) returns (k: nat)
    requires sha in Shas(issues)
    ensures k < |issues| && issues[k] == IssueOf(issues, sha) && issues[k].sha == sha
    ensures forall j :: k < j < |issues| ==> issues[j].sha != sha
  {
    var n := |issues| - 1;
    if issues[n].sha == sha {
      k := n;
    } else {
      var issue :| issue in issues && issue.sha == sha;
      assert issue in issues[..n];
      k := IssueOfIsLast(issues[..n], sha);
    }
  }

  /** Commit prefixes, entry by entry and fix by fix, are all there is to the flattened lists. */
  lemma {:induction false} ClaimMembers(entries: seq<Entry>, claim: Claim)
    ensures claim in Claims(entries) <==> claim.entry in entries && claim.prefix in claim.entry.commits
  {
    if entries != [] {
      var init, last := entries[..|entries| - 1], entries[|entries| - 1];
      ClaimMembers(init, claim);
      assert entries == init + [last];
      if claim.entry == last && claim.prefix in last.commits {
        var i :| 0 <= i < |last.commits| && last.commits[i] == claim.prefix;
        assert EntryClaims(last)[i] == claim;
      }
    }
  }

  lemma {:induction false} FixPrefixMembers(fixes: seq<Fix>, prefix: string)
    ensures prefix in FixPrefixes(fixes) <==> exists fix :: fix in fixes && prefix in fix.commits
  {
    if fixes != [] {
      var init, last := fixes[..|fixes| - 1], fixes[|fixes| - 1];
      FixPrefixMembers(init, prefix);
      assert fixes == init + [last];
    }
  }

  /** In a clean ledger the mapped commits are those that some prefix names. */
  lemma LedgerNamesMapped(input: Input, sha: Sha)
    requires ClaimsClean(input.issues, Claims(input.entries)) && sha in Shas(input.issues)
    ensures sha in Mapped(input, false) + Mapped(input, true) <==> LedgerNames(input, sha)
  {
    hide Target, Claims, Shas, PointsAgree;
    var shas, claims := Shas(input.issues), Claims(input.entries);
    if sha in Mapped(input, false) + Mapped(input, true) {
      var i :| 0 <= i < |claims| && Target(shas, claims[i].prefix) == Some(sha);
      ClaimMembers(input.entries, claims[i]);
      TargetIsAudited(shas, claims[i].prefix);
    }
    if entry, prefix :| entry in input.entries && prefix in entry.commits && prefix <= sha {
      ClaimMembers(input.entries, Claim(prefix, entry));
      var i :| 0 <= i < |claims| && claims[i] == Claim(prefix, entry);
      assert ClaimClean(input.issues, claims[i]);
      NamedIsTarget(shas, prefix, sha);
      assert sha in Mapped(input, entry.ignored);
    }
  }

  lemma NamedIsTarget(shas: set<Sha>, prefix: string, sha: Sha)
    requires Target(shas, prefix).Some? && sha in shas && prefix <= sha
    ensures Target(shas, prefix) == Some(sha)
  {
    assert sha in Matching(shas, prefix);
  }

  lemma AnchorNamesAnchors(input: Input, ledger: set<Sha>, sha: Sha)
    requires AnchorsClean(input.issues, FixPrefixes(input.fixes), ledger) && sha in Shas(input.issues)
    ensures sha in Anchors(input) <==> AnchorNames(input, sha)
  {
    hide Target, FixPrefixes, Shas;
    var shas, prefixes := Shas(input.issues), FixPrefixes(input.fixes);
    if sha in Anchors(input) {
      var i :| 0 <= i < |prefixes| && Target(shas, prefixes[i]) == Some(sha);
      FixPrefixMembers(input.fixes, prefixes[i]);
      TargetIsAudited(shas, prefixes[i]);
    }
    if fix, prefix :| fix in input.fixes && prefix in fix.commits && prefix <= sha {
      FixPrefixMembers(input.fixes, prefix);
      var i :| 0 <= i < |prefixes| && prefixes[i] == prefix;
      NamedIsTarget(shas, prefix, sha);
    }
  }

  /**
   Where ledger and anchors are clean, the history is clean exactly when the enforcement point resolves, if one is
   set, and each commit has the evidence of its class: an anchor for a client commit after that point, an anchor or
   a ledger prefix for a crate commit after it, points and a direct test or a ledger prefix for any other.
   */
  lemma CleanMeans(input: Input)
    requires LedgerClean(input, input.entries)
    requires FixesClean(input, input.fixes, Mapped(input, false) + Mapped(input, true))
    ensures Clean(input) <==>
              (input.enforceAfter.Some? && input.enforceAfter.value != "" ==> input.revisions.Some?) &&
              forall issue :: issue in input.issues ==>
                var after := input.enforceAfter.Some? && input.enforceAfter.value != "" && input.revisions.Some? &&
                             issue.sha in input.revisions.value;
                if after && exists path :: path in issue.paths && "clients/" <= path then AnchorNames(input, issue.sha)
                else if after && exists path :: path in issue.paths && "crates/" <= path then
                  LedgerNames(input, issue.sha) || AnchorNames(input, issue.sha)
                else (issue.pointIds != [] && issue.directTestEvidence) || LedgerNames(input, issue.sha)
  {
    hide LedgerNames, AnchorNames, Mapped, Anchors, LedgerClean;
    var resolved := Mapped(input, false) + Mapped(input, true);
    forall issue | issue in input.issues
      ensures issue.sha in resolved <==> LedgerNames(input, issue.sha)
      ensures issue.sha in Anchors(input) <==> AnchorNames(input, issue.sha)
    {
      assert issue.sha in Shas(input.issues);
      assert ClaimsClean(input.issues, Claims(input.entries)) by { LedgerClaims(input); }
      LedgerNamesMapped(input, issue.sha);
      AnchorNamesAnchors(input, resolved, issue.sha);
    }
  }

  lemma LedgerClaims(input: Input)
    requires LedgerClean(input, input.entries)
    ensures ClaimsClean(input.issues, Claims(input.entries))
  {
  }

  lemma EnforcedNeedsNaming(input: Input)
    requires Clean(input) && input.enforceAfter.Some? && input.enforceAfter.value != ""
    ensures input.revisions.Some?
    ensures forall issue :: issue in input.issues && issue.sha in input.revisions.value ==>
              ((exists path :: path in issue.paths && "clients/" <= path) ==> AnchorNames(input, issue.sha)) &&
              ((exists path :: path in issue.paths && "crates/" <= path) ==>
                LedgerNames(input, issue.sha) || AnchorNames(input, issue.sha))
  {
    hide LedgerNames, AnchorNames, Mapped, Anchors, LedgerClean, FixesClean;
    CleanMeans(input);
  }

  /** Every prefix of the ledger, then every prefix of the anchors. */
  function AllPrefixes(input: Input): (prefixes: seq<string>)
    ensures |prefixes| == |Claims(input.entries)| + |FixPrefixes(input.fixes)|
  {
    var claims := Claims(input.entries);
    seq(|claims|, i requires 0 <= i < |claims| => claims[i].prefix) + FixPrefixes(input.fixes)
  }

  /** The commit that the i-th of all prefixes names, if it names one. */
  ghost function TargetAt(input: Input, i: nat): Option<Sha>
    requires i < |AllPrefixes(input)|
  {
    Target(Shas(input.issues), AllPrefixes(input)[i])
  }

  /** Exactly one audited commit starts with the prefix. */
  ghost predicate NamesOneCommit(shas: set<Sha>, prefix: string) {
    exists sha :: sha in shas && Matching(shas, prefix) == {sha}
  }

  /** In a clean history every prefix names exactly one audited commit, and no two prefixes name the same. */
  lemma PrefixesHaveOwnCommits(input: Input)
    requires Clean(input)
    ensures forall i :: 0 <= i < |AllPrefixes(input)| ==> NamesOneCommit(Shas(input.issues), AllPrefixes(input)[i])
    ensures forall i, j :: 0 <= i < j < |AllPrefixes(input)| ==>
              Matching(Shas(input.issues), AllPrefixes(input)[i]) !! Matching(Shas(input.issues), AllPrefixes(input)[j])
  {
    hide Target, Matching, Claims, FixPrefixes, AllPrefixes, Clean, Shas, TargetAt;
    forall i | 0 <= i < |AllPrefixes(input)|
      ensures NamesOneCommit(Shas(input.issues), AllPrefixes(input)[i])
    {
      var sha := OwnCommit(input, i);
    }
    forall i, j | 0 <= i < j < |AllPrefixes(input)|
      ensures Matching(Shas(input.issues), AllPrefixes(input)[i]) !! Matching(Shas(input.issues), AllPrefixes(input)[j])
    {
      var first := OwnCommit(input, i);
      var second := OwnCommit(input, j);
      TargetsDiffer(input, i, j);
    }
  }

  lemma OwnCommit(input: Input, i: nat) returns (sha: Sha)
    requires Clean(input) && i < |AllPrefixes(input)|
    ensures TargetAt(input, i) == Some(sha) && sha in Shas(input.issues)
    ensures Matching(Shas(input.issues), AllPrefixes(input)[i]) == {sha}
  {
    hide Target, Matching, Claims, FixPrefixes, AllPrefixes;
    TargetFound(input, i);
    TargetIsAudited(Shas(input.issues), AllPrefixes(input)[i]);
    sha := TargetAt(input, i).value;
  }

  /** The ledger's prefixes name the mapped commits, the anchors' prefixes other ones. */
  lemma TargetFound(input: Input, i: nat)
    requires Clean(input) && i < |AllPrefixes(input)|
    ensures TargetAt(input, i).Some?
    ensures TargetAt(input, i).value in Mapped(input, false) + Mapped(input, true) <==> i < |Claims(input.entries)|
  {
    hide Target, Claims, FixPrefixes, Shas, Matching, HeaderClean, ChecksAreEvidence, IssueClean, FixIdsClean,
         FixFilesClean;
    var shas, claims := Shas(input.issues), Claims(input.entries);
    if i < |claims| {
      assert ClaimClean(input.issues, claims[i]);
      assert TargetAt(input, i).value in Mapped(input, claims[i].entry.ignored);
    } else {
      assert AllPrefixes(input)[i] == FixPrefixes(input.fixes)[i - |claims|];
    }
  }

  lemma TargetsDiffer(input: Input, i: nat, j: nat)
    requires Clean(input) && i < j < |AllPrefixes(input)|
    ensures TargetAt(input, i) != TargetAt(input, j)
  {
    hide Target, Claims, FixPrefixes, Shas, Matching, HeaderClean, ChecksAreEvidence, IssueClean, FixIdsClean,
         FixFilesClean;
    hide ClaimClean, Mapped;
    var claims := Claims(input.entries);
    TargetFound(input, i);
    TargetFound(input, j);
    if j < |claims| {
      assert AllPrefixes(input)[i] == claims[i].prefix && AllPrefixes(input)[j] == claims[j].prefix;
    } else if i >= |claims| {
      assert AllPrefixes(input)[i] == FixPrefixes(input.fixes)[i - |claims|];
      assert AllPrefixes(input)[j] == FixPrefixes(input.fixes)[j - |claims|];
    }
  }
}
