/** Globs compiled to regular expressions, against the direct meaning of a glob. */
module GlobCompiler {
  import opened Text
  import opened Glob
  import opened Regex

  // ---------------------------------------------------------------- the compiler

  const ANY_RUN := Star(Dot)
  const NAME_RUN := Star(NotSlash)
  const DIRECTORIES := Opt(Cat(Star(Dot), Lit('/')))

  function PiecesFrom(pattern: string, index: nat): seq<Regex>
    requires index <= |pattern|
    decreases |pattern| - index
  {
    if index == |pattern| then []
    else if pattern[index] == '*' then
      if index + 1 < |pattern| && pattern[index + 1] == '*' then
        if index + 2 < |pattern| && pattern[index + 2] == '/' then [DIRECTORIES] + PiecesFrom(pattern, index + 3)
        else [ANY_RUN] + PiecesFrom(pattern, index + 2)
      else [NAME_RUN] + PiecesFrom(pattern, index + 1)
    else if pattern[index] == '?' then [NotSlash] + PiecesFrom(pattern, index + 1)
    else [Lit(pattern[index])] + PiecesFrom(pattern, index + 1)
  }

  function FragmentPieces(pattern: string): seq<Regex> {
    [Begin] + (PiecesFrom(pattern, 0) + [End])
  }

  function Fragment(pattern: string): Regex {
    Sequence(FragmentPieces(pattern))
  }

  method GlobFragment(pattern: string) returns (pieces: seq<Regex>)
    ensures pieces == FragmentPieces(pattern)
  {
    ghost var all := [Begin] + PiecesFrom(pattern, 0);
    pieces := [Begin];
    var index := 0;
    while index < |pattern|
      invariant 0 <= index <= |pattern|
      invariant pieces <= all && all[|pieces|..] == PiecesFrom(pattern, index)
    {
      var c := pattern[index];
      assert all[|pieces|..][1..] == all[|pieces| + 1..];
      if c == '*' {
        if index + 1 < |pattern| && pattern[index + 1] == '*' {
          index := index + 2;
          if index < |pattern| && pattern[index] == '/' {
            pieces := pieces + [DIRECTORIES];
            index := index + 1;
          } else {
            pieces := pieces + [ANY_RUN];
          }
          continue;
        }
        pieces := pieces + [NAME_RUN];
      } else if c == '?' {
        pieces := pieces + [NotSlash];
      } else {
        pieces := pieces + [Lit(c)];
      }
      index := index + 1;
    }
    assert pieces == all;
    pieces := pieces + [End];
  }

  function Fragments(patterns: seq<string>): seq<Regex> {
    seq(|patterns|, i requires 0 <= i < |patterns| => Fragment(patterns[i]))
  }

  lemma {:induction false} ExpandedNonEmpty(pattern: string)
    ensures Expanded(pattern) != []
    decreases |pattern|
  {
    var start := Find(pattern, '{', 0);
    if start >= 0 {
      var end := Find(pattern, '}', start + 1);
      if end >= 0 { ExpandedNonEmpty(Substituted(pattern, start, end)[0]); }
    }
  }

  function GlobRegex(pattern: string): Regex {
    ExpandedNonEmpty(Normalized(pattern));
    Alternation(Fragments(Expanded(Normalized(pattern))))
  }

  predicate Matches(path: string, patterns: seq<string>) {
    exists pattern :: pattern in patterns && Match(GlobRegex(pattern), Normalized(path))
  }

  // ---------------------------------------------------------------- the meaning of a glob

  /**
   `**` followed by a slash skips whole directories, `**` skips anything, `*` and `?` stay inside one name.
   */
  ghost predicate GlobMatch(pattern: string, path: string)
    decreases |pattern|
  {
    if pattern == "" then path == ""
    else if "**/" <= pattern then
      exists k | 0 <= k <= |path| :: (k == 0 || path[k - 1] == '/') && GlobMatch(pattern[3..], path[k..])
    else if "**" <= pattern then
      exists k | 0 <= k <= |path| :: GlobMatch(pattern[2..], path[k..])
    else if pattern[0] == '*' then
      exists k | 0 <= k <= |path| :: '/' !in path[..k] && GlobMatch(pattern[1..], path[k..])
    else if pattern[0] == '?' then
      path != "" && path[0] != '/' && GlobMatch(pattern[1..], path[1..])
    else
      path != "" && path[0] == pattern[0] && GlobMatch(pattern[1..], path[1..])
  }

  /** Whatever the compiled pieces match, the rest of the glob denotes. */
  lemma {:induction false} PiecesSound(pattern: string, index: nat, path: string, i: nat)
    requires '\n' !in path && i <= |path| && index <= |pattern|
    requires MatchesAt(Sequence(PiecesFrom(pattern, index) + [End]), path, i)
    ensures GlobMatch(pattern[index..], path[i..])
    decreases |pattern| - index
  {
    hide *;
    if index == |pattern| {
      EndMatches(pattern, path, i);
    } else {
      var tail := pattern[index..];
      var next := index + PieceWidth(tail);
      var after := PiecesFrom(pattern, next) + [End];
      FirstPiece(pattern, index);
      var k := SequenceSplit(Piece(tail), after, PiecesFrom(pattern, index) + [End], path, i);
      PieceSpans(tail, path, i, k);
      PiecesSound(pattern, next, path, k);
      assert path[i..][k - i..] == path[k..];
      StepMatches(tail, path[i..], k - i);
    }
  }

  /** Whatever the rest of the glob denotes, the compiled pieces match. */
  lemma {:induction false} PiecesComplete(pattern: string, index: nat, path: string, i: nat)
    requires '\n' !in path && i <= |path| && index <= |pattern|
    requires GlobMatch(pattern[index..], path[i..])
    ensures MatchesAt(Sequence(PiecesFrom(pattern, index) + [End]), path, i)
    decreases |pattern| - index
  {
    hide *;
    if index == |pattern| {
      EndMatches(pattern, path, i);
    } else {
      var tail := pattern[index..];
      var next := index + PieceWidth(tail);
      var after := PiecesFrom(pattern, next) + [End];
      FirstPiece(pattern, index);
      var n := FirstStep(tail, path[i..]);
      PieceSpans(tail, path, i, i + n);
      assert path[i..][n..] == path[i + n..];
      PiecesComplete(pattern, next, path, i + n);
      SequenceFrom(Piece(tail), after, PiecesFrom(pattern, index) + [End], path, i, i + n);
    }
  }

  lemma EndMatches(pattern: string, path: string, i: nat)
    requires '\n' !in path && i <= |path|
    ensures MatchesAt(Sequence(PiecesFrom(pattern, |pattern|) + [End]), path, i)
        <==> GlobMatch(pattern[|pattern|..], path[i..])
  {
    assert PiecesFrom(pattern, |pattern|) + [End] == [End] + [];
    SequenceMatches(End, [], path, i);
    if i == |path| { assert Spans(End, path, i, i) && Spans(Empty, path, i, i); }
  }

  /** Length of the first token of a pattern. */
  function PieceWidth(pattern: string): (width: nat)
    requires pattern != ""
    ensures 0 < width <= |pattern|
  {
    if "**/" <= pattern then 3 else if "**" <= pattern then 2 else 1
  }

  /** What the first token of a pattern compiles to. */
  function Piece(pattern: string): Regex
    requires pattern != ""
  {
    if "**/" <= pattern then DIRECTORIES
    else if "**" <= pattern then ANY_RUN
    else if pattern[0] == '*' then NAME_RUN
    else if pattern[0] == '?' then NotSlash
    else Lit(pattern[0])
  }

  lemma FirstPiece(pattern: string, index: nat)
    requires index < |pattern|
    ensures index + PieceWidth(pattern[index..]) <= |pattern|
    ensures PiecesFrom(pattern, index) + [End]
         == [Piece(pattern[index..])] + (PiecesFrom(pattern, index + PieceWidth(pattern[index..])) + [End])
    ensures pattern[index..][PieceWidth(pattern[index..])..] == pattern[index + PieceWidth(pattern[index..])..]
  {
    var tail := pattern[index..];
    assert tail[0] == pattern[index];
    if |tail| > 1 { assert tail[1] == pattern[index + 1]; }
    if |tail| > 2 { assert tail[2] == pattern[index + 2]; }
    var piece, rest := [Piece(tail)], PiecesFrom(pattern, index + PieceWidth(tail));
    assert PiecesFrom(pattern, index) == piece + rest;
    Associate(piece, rest, [End]);
  }

  lemma Associate<T>(a: seq<T>, b: seq<T>, c: seq<T>)
    ensures (a + b) + c == a + (b + c)
  {
  }

  /** The first token of the pattern can consume the first `n` characters of the path. */
  ghost predicate Steps(pattern: string, path: string, n: nat)
    requires pattern != "" && n <= |path|
  {
    if "**/" <= pattern then n == 0 || path[n - 1] == '/'
    else if "**" <= pattern then true
    else if pattern[0] == '*' then '/' !in path[..n]
    else n == 1 && (if pattern[0] == '?' then path[0] != '/' else path[0] == pattern[0])
  }

  lemma StepMatches(pattern: string, path: string, n: nat)
    requires pattern != "" && n <= |path|
    requires Steps(pattern, path, n) && GlobMatch(pattern[PieceWidth(pattern)..], path[n..])
    ensures GlobMatch(pattern, path)
  {
  }

  lemma FirstStep(pattern: string, path: string) returns (n: nat)
    requires pattern != "" && GlobMatch(pattern, path)
    ensures n <= |path| && Steps(pattern, path, n) && GlobMatch(pattern[PieceWidth(pattern)..], path[n..])
  {
    if "**/" <= pattern {
      n :| 0 <= n <= |path| && (n == 0 || path[n - 1] == '/') && GlobMatch(pattern[3..], path[n..]);
    } else if "**" <= pattern {
      n :| 0 <= n <= |path| && GlobMatch(pattern[2..], path[n..]);
    } else if pattern[0] == '*' {
      n :| 0 <= n <= |path| && '/' !in path[..n] && GlobMatch(pattern[1..], path[n..]);
    } else {
      n := 1;
    }
  }

  lemma PieceSpans(pattern: string, path: string, i: nat, k: nat)
    requires pattern != "" && '\n' !in path && i <= k <= |path|
    ensures Spans(Piece(pattern), path, i, k) <==> Steps(pattern, path[i..], k - i)
  {
    if "**/" <= pattern {
      OptionalDirectories(path, i, k);
    } else if "**" <= pattern {
      StarDot(path, i, k);
    } else if pattern[0] == '*' {
      StarNotSlash(path, i, k);
      assert path[i..][..k - i] == path[i..k];
    }
  }

  /** Compilation preserves meaning, on newline-free paths. */
  lemma FragmentMeaning(pattern: string, path: string)
    requires '\n' !in path
    ensures Match(Fragment(pattern), path) <==> GlobMatch(pattern, path)
  {
    SequenceMatches(Begin, PiecesFrom(pattern, 0) + [End], path, 0);
    assert path[0..] == path && pattern[0..] == pattern;
    assert Spans(Begin, path, 0, 0);
    if MatchesAt(Sequence(PiecesFrom(pattern, 0) + [End]), path, 0) { PiecesSound(pattern, 0, path, 0); }
    if GlobMatch(pattern, path) { PiecesComplete(pattern, 0, path, 0); }
  }

  // ---------------------------------------------------------------- paths with a newline

  /** Compiled fragment and glob agree on the path, whatever the pattern, exactly when it has no newline. */
  lemma NewlineBreaksMeaning(path: string)
    ensures '\n' !in path <==> forall pattern :: Match(Fragment(pattern), path) <==> GlobMatch(pattern, path)
  {
    hide *;
    if '\n' in path {
      var pattern := Disagreeing(path);
      Disagree(path);
    } else {
      forall pattern
        ensures Match(Fragment(pattern), path) <==> GlobMatch(pattern, path)
      {
        FragmentMeaning(pattern, path);
      }
    }
  }

  /** A pattern on which the two disagree: the shape of the path without its final newline, or `**`. */
  function Disagreeing(path: string): (pattern: string)
    requires path != ""
    ensures '{' !in pattern && '}' !in pattern && ',' !in pattern && '\\' !in pattern
  {
    if path[|path| - 1] == '\n' then Shape(path[..|path| - 1]) else "**"
  }

  /** One token for each character. */
  function Shape(path: string): string {
    seq(|path|, i requires 0 <= i < |path| => if path[i] == '/' then '/' else '?')
  }

  lemma Disagree(path: string)
    requires '\n' in path
    ensures Match(Fragment(Disagreeing(path)), path) != GlobMatch(Disagreeing(path), path)
  {
    hide Spans, PiecesFrom, GlobMatch;
    var last := |path| - 1;
    var pattern := Disagreeing(path);
    SequenceMatches(Begin, PiecesFrom(pattern, 0) + [End], path, 0);
    BeginSpans(path);
    if path[last] == '\n' {
      ShapeMatches(path, last, 0);
      ShapeLength(pattern, path);
    } else {
      AnythingMatches(path);
      if MatchesAt(Sequence(PiecesFrom("**", 0) + [End]), path, 0) { AnythingStops(path); }
    }
  }

  lemma BeginSpans(path: string)
    ensures forall k: nat | k <= |path| :: Spans(Begin, path, 0, k) <==> k == 0
  {
  }

  /** The shape of a path's first `n` characters consumes them, and then `$` matches before a final newline. */
  lemma {:induction false} ShapeMatches(path: string, n: nat, i: nat)
    requires n == |path| - 1 && path[n] == '\n' && i <= n
    ensures MatchesAt(Sequence(PiecesFrom(Shape(path[..n]), i) + [End]), path, i)
    decreases n - i
  {
    hide PiecesFrom, GlobMatch;
    var pattern := Shape(path[..n]);
    if i == n {
      NoPieces(pattern);
      assert PiecesFrom(pattern, i) + [End] == [End] + [];
      assert Spans(End, path, i, i) && Spans(Empty, path, i, i) && MatchesAt(Sequence([]), path, i);
      SequenceFrom(End, [], [End], path, i, i);
    } else {
      ShapeMatches(path, n, i + 1);
      var piece := if path[i] == '/' then Lit('/') else NotSlash;
      SinglePiece(pattern, i, piece);
      assert Spans(piece, path, i, i + 1);
      SequenceFrom(piece, PiecesFrom(pattern, i + 1) + [End], PiecesFrom(pattern, i) + [End], path, i, i + 1);
    }
  }

  lemma NoPieces(pattern: string)
    ensures PiecesFrom(pattern, |pattern|) == []
  {
  }

  lemma SinglePiece(pattern: string, i: nat, piece: Regex)
    requires i < |pattern| && pattern[i] != '*' && piece == (if pattern[i] == '?' then NotSlash else Lit(pattern[i]))
    ensures PiecesFrom(pattern, i) + [End] == [piece] + (PiecesFrom(pattern, i + 1) + [End])
  {
    Associate([piece], PiecesFrom(pattern, i + 1), [End]);
  }

  /** Without stars a glob denotes only paths of its own length. */
  lemma {:induction false} ShapeLength(pattern: string, path: string)
    requires '*' !in pattern
    ensures GlobMatch(pattern, path) ==> |pattern| == |path|
  {
    if pattern != "" {
      assert pattern[0] in pattern;
      if path != "" { ShapeLength(pattern[1..], path[1..]); }
    }
  }

  lemma AnythingMatches(path: string)
    ensures GlobMatch("**", path)
  {
    assert GlobMatch("**"[2..], path[|path|..]);
  }

  /** `.*` cannot cross a newline that is not the final character. */
  lemma AnythingStops(path: string)
    requires MatchesAt(Sequence(PiecesFrom("**", 0) + [End]), path, 0)
    ensures path == "" || '\n' !in path[..|path| - 1]
  {
    assert PiecesFrom("**", 0) + [End] == [ANY_RUN] + [End];
    var k := SequenceSplit(ANY_RUN, [End], [ANY_RUN] + [End], path, 0);
    StarDot(path, 0, k);
    var end := SequenceSplit(End, [], [End], path, k);
    assert path != "" ==> path[..|path| - 1] <= path[0..k];
  }

  /** For example, `$` also matches before a final newline. */
  lemma NewlineExample()
    ensures Match(Fragment("a"), "a\n") && !GlobMatch("a", "a\n")
  {
    hide GlobMatch;
    var path := "a\n";
    ShapeLength("a", path);
    CatJoins(End, Empty, path, 1, 1, 1);
    assert Sequence([End]) == Cat(End, Empty);
    assert MatchesAt(Sequence([End]), path, 1);
    SequenceMatches(Lit('a'), [End], path, 0);
    assert Spans(Lit('a'), path, 0, 1);
    assert MatchesAt(Sequence([Lit('a'), End]), path, 0) by { assert [Lit('a')] + [End] == [Lit('a'), End]; }
    SequenceMatches(Begin, [Lit('a'), End], path, 0);
    assert Spans(Begin, path, 0, 0);
    assert PiecesFrom("a", 0) == [Lit('a')] + PiecesFrom("a", 1);
    assert PiecesFrom("a", 0) + [End] == [Lit('a'), End];
  }

  /** Some brace alternative of the pattern denotes the path. */
  ghost predicate ChoiceMatches(pattern: string, path: string) {
    exists choice :: choice in Expanded(pattern) && GlobMatch(choice, path)
  }

  /** A path matches when some brace alternative of some normalised pattern denotes it. */
  lemma MatchesMeaning(path: string, patterns: seq<string>)
    requires '\n' !in path
    ensures Matches(path, patterns)
        <==> exists pattern :: pattern in patterns && ChoiceMatches(Normalized(pattern), Normalized(path))
  {
    NormalizedSubset(path);
    forall pattern
      ensures Match(GlobRegex(pattern), Normalized(path)) <==> ChoiceMatches(Normalized(pattern), Normalized(path))
    {
      GlobRegexMeaning(pattern, Normalized(path));
    }
  }

  lemma GlobRegexMeaning(pattern: string, path: string)
    requires '\n' !in path
    ensures Match(GlobRegex(pattern), path) <==> ChoiceMatches(Normalized(pattern), path)
  {
    var choices := Expanded(Normalized(pattern));
    ExpandedNonEmpty(Normalized(pattern));
    AlternationMatches(Fragments(choices), path);
    forall choice
      ensures Match(Fragment(choice), path) <==> GlobMatch(choice, path)
    {
      FragmentMeaning(choice, path);
    }
    if n :| 0 <= n < |choices| && Match(Fragments(choices)[n], path) {
      assert choices[n] in choices && GlobMatch(choices[n], path);
    }
    if choice :| choice in choices && GlobMatch(choice, path) {
      var n :| 0 <= n < |choices| && choices[n] == choice;
      assert Match(Fragments(choices)[n], path);
    }
  }

  /** Some pattern of the list denotes the path. */
  ghost predicate Denoted(path: string, patterns: seq<string>) {
    exists pattern :: pattern in patterns && ChoiceMatches(Normalized(pattern), Normalized(path))
  }

  /** `matches` agrees with the meaning of the patterns, whatever they are, exactly on newline-free paths. */
  lemma NewlineBreaksMatches(path: string)
    ensures '\n' !in path <==> forall patterns :: Matches(path, patterns) <==> Denoted(path, patterns)
  {
    hide Matches, Normalized, ChoiceMatches, Disagreeing;
    if '\n' in path {
      NewlineKept(path);
      BracedDisagrees(path, "{" + Disagreeing(Normalized(path)) + "}");
    } else {
      forall patterns
        ensures Matches(path, patterns) <==> Denoted(path, patterns)
      {
        MatchesMeaning(path, patterns);
      }
    }
  }

  /** In braces, the disagreeing pattern is in normal form and has itself as its one alternative. */
  lemma BracedDisagrees(path: string, braced: string)
    requires '\n' in Normalized(path) && braced == "{" + Disagreeing(Normalized(path)) + "}"
    ensures Matches(path, [braced]) != Denoted(path, [braced])
  {
    hide Disagreeing, GlobMatch, Expanded, Fragment;
    var choice := Disagreeing(Normalized(path));
    assert braced[0] == '{' && braced[|braced| - 1] == '}';
    NormalFormFixed(braced);
    Disagree(Normalized(path));
    BracedExpansion(choice);
    assert [braced][0] == braced;
    assert Fragments([choice])[0] == Fragment(choice) && [choice][0] == choice;
    assert Alternation(Fragments([choice])) == Fragment(choice);
  }

  lemma BracedExpansion(choice: string)
    requires '{' !in choice && '}' !in choice && ',' !in choice
    ensures Expanded("{" + choice + "}") == [choice]
  {
    hide Split;
    var pattern, end := "{" + choice + "}", |choice| + 1;
    FindSkip("{" + choice, "}", '}', 1);
    assert Find(pattern, '{', 0) == 0 && Find(pattern, '}', 1) == end;
    assert pattern[1..end] == choice && pattern[..0] == "" && pattern[end + 1..] == "";
    SplitPiece(choice, ',');
    GroupExpansion(pattern, 0, end);
    SingleProduct(choice);
    assert Expanded("") == [""] && Product([[choice]]) == PickFirst([choice], [""]);
    assert "" + [choice][0] == choice;
  }

  lemma NewlineKept(path: string)
    requires '\n' in path
    ensures '\n' in Normalized(path)
  {
    var slashed := ForwardSlashes(path);
    var i :| 0 <= i < |path| && path[i] == '\n';
    assert slashed[i] == '\n';
    DropDotSlashKeeps(slashed);
    TrimSlashesKeeps(DropDotSlash(slashed));
  }

  lemma {:induction false} DropDotSlashKeeps(path: string)
    requires '\n' in path
    ensures '\n' in DropDotSlash(path)
  {
    if "./" <= path {
      assert path == "./" + path[2..];
      DropDotSlashKeeps(path[2..]);
    }
  }

  lemma {:induction false} TrimSlashesKeeps(path: string)
    requires '\n' in path
    ensures '\n' in TrimSlashes(path)
  {
    if path[|path| - 1] == '/' {
      assert path == path[..|path| - 1] + "/";
      TrimSlashesKeeps(path[..|path| - 1]);
    }
  }

  /** Normalisation only rewrites separators and drops characters. */
  lemma NormalizedSubset(path: string)
    ensures forall c :: c in Normalized(path) ==> c in path || c == '/'
  {
    DropDotSlashSubset(ForwardSlashes(path));
    TrimSlashesSubset(DropDotSlash(ForwardSlashes(path)));
  }

  lemma {:induction false} DropDotSlashSubset(path: string)
    ensures forall c :: c in DropDotSlash(path) ==> c in path
  {
    if "./" <= path { DropDotSlashSubset(path[2..]); }
  }

  lemma {:induction false} TrimSlashesSubset(path: string)
    ensures forall c :: c in TrimSlashes(path) ==> c in path
  {
    if path != "" && path[|path| - 1] == '/' { TrimSlashesSubset(path[..|path| - 1]); }
  }

  // ---------------------------------------------------------------- literal patterns

  predicate IsLiteralPath(pattern: string) {
    '*' !in pattern && '?' !in pattern && '{' !in pattern
  }

  lemma {:induction false} LiteralGlob(pattern: string, path: string)
    requires '*' !in pattern && '?' !in pattern
    ensures GlobMatch(pattern, path) <==> pattern == path
  {
    if pattern != "" {
      if path != "" { LiteralGlob(pattern[1..], path[1..]); }
      assert pattern == [pattern[0]] + pattern[1..];
    }
  }

  /** A literal pattern matches its own normalised path and no other. */
  lemma LiteralMatchesItself(path: string, pattern: string)
    requires '\n' !in path && IsLiteralPath(pattern)
    ensures Matches(path, [pattern]) <==> Normalized(path) == Normalized(pattern)
  {
    MatchesMeaning(path, [pattern]);
    var literal := Normalized(pattern);
    NormalizedSubset(pattern);
    assert Expanded(literal) == [literal];
    LiteralGlob(literal, Normalized(path));
  }

  // ---------------------------------------------------------------- names and directories

  /** One path component against one pattern component without `**`. */
  ghost predicate NameMatch(pattern: string, name: string)
    decreases |pattern|
  {
    if pattern == "" then name == ""
    else if pattern[0] == '*' then exists k | 0 <= k <= |name| :: NameMatch(pattern[1..], name[k..])
    else if pattern[0] == '?' then name != "" && NameMatch(pattern[1..], name[1..])
    else name != "" && name[0] == pattern[0] && NameMatch(pattern[1..], name[1..])
  }

  /**
   Component by component: `**` stands for any number of whole directories, and at the end for
   everything below; every other component matches one component of the path.
   */
  ghost predicate ComponentMatch(patterns: seq<string>, names: seq<string>)
    requires patterns != []
    decreases |patterns|
  {
    if names == [] then false
    else if patterns[0] == "**" then
      |patterns| == 1 || exists k | 0 <= k < |names| :: ComponentMatch(patterns[1..], names[k..])
    else
      NameMatch(patterns[0], names[0]) &&
      (if |patterns| == 1 then |names| == 1 else ComponentMatch(patterns[1..], names[1..]))
  }

  predicate HasDoubleStar(s: string) {
    exists i :: 0 <= i < |s| - 1 && s[i] == '*' && s[i + 1] == '*'
  }

  /** `**` occurs only as a component of its own. */
  ghost predicate WholeStars(patterns: seq<string>) {
    forall i :: 0 <= i < |patterns| ==> '/' !in patterns[i] && (patterns[i] == "**" || !HasDoubleStar(patterns[i]))
  }

  ghost predicate SlashFree(names: seq<string>) {
    forall i :: 0 <= i < |names| ==> '/' !in names[i]
  }

  /**
   The character-level meaning is the component-level one, for every pattern whose `**` are whole
   components: `**` never matches part of a name.
   */
  lemma {:induction false} ComponentMeaning(patterns: seq<string>, names: seq<string>)
    requires patterns != [] && WholeStars(patterns) && names != [] && SlashFree(names)
    ensures GlobMatch(Join(patterns, '/'), Join(names, '/')) <==> ComponentMatch(patterns, names)
    decreases |patterns|, 0
  {
    var path := Join(names, '/');
    if patterns[0] == "**" {
      if |patterns| == 1 {
        assert GlobMatch("**"[2..], path[|path|..]);
      } else {
        SkipDirectories(patterns[1..], names);
      }
    } else if |patterns| == 1 {
      LastName(patterns[0], path);
      JoinedSlash(names);
    } else {
      var rest := Join(patterns[1..], '/');
      assert Join(patterns, '/') == patterns[0] + "/" + rest;
      if |names| == 1 {
        NoDirectory(patterns[0], rest, path);
        assert names[1..] == [];
      } else {
        JoinHead(names);
        NameThenRest(patterns[0], rest, path, |names[0]|);
        assert path[..|names[0]|] == names[0] && path[|names[0]| + 1..] == Join(names[1..], '/');
        ComponentMeaning(patterns[1..], names[1..]);
      }
    }
  }

  lemma {:induction false} SkipDirectories(patterns: seq<string>, names: seq<string>)
    requires patterns != [] && WholeStars(patterns) && names != [] && SlashFree(names)
    ensures GlobMatch("**/" + Join(patterns, '/'), Join(names, '/'))
        <==> exists k | 0 <= k < |names| :: ComponentMatch(patterns, names[k..])
    decreases |patterns|, 1
  {
    var whole, rest, path := "**/" + Join(patterns, '/'), Join(patterns, '/'), Join(names, '/');
    assert whole[3..] == rest;
    forall k | 0 <= k < |names|
      ensures GlobMatch(rest, Join(names[k..], '/')) <==> ComponentMatch(patterns, names[k..])
    {
      ComponentMeaning(patterns, names[k..]);
    }
    if GlobMatch(whole, path) {
      var k :| 0 <= k <= |path| && (k == 0 || path[k - 1] == '/') && GlobMatch(rest, path[k..]);
      var n := BoundaryComponent(names, k);
      assert ComponentMatch(patterns, names[n..]);
    }
    if n :| 0 <= n < |names| && ComponentMatch(patterns, names[n..]) {
      var k := ComponentBoundary(names, n);
      assert GlobMatch(rest, path[k..]);
    }
  }

  lemma JoinHead(names: seq<string>)
    requires |names| > 1
    ensures Join(names, '/') == names[0] + "/" + Join(names[1..], '/')
  {
  }

  /** The joined path has a slash exactly when there is more than one component. */
  lemma JoinedSlash(names: seq<string>)
    requires names != [] && SlashFree(names)
    ensures '/' in Join(names, '/') <==> |names| > 1
  {
    if |names| > 1 { assert Join(names, '/')[|names[0]|] == '/'; }
  }

  /** Every component boundary of the joined path starts some component. */
  lemma {:induction false} BoundaryComponent(names: seq<string>, k: nat) returns (n: nat)
    requires names != [] && SlashFree(names)
    requires k <= |Join(names, '/')| && (k == 0 || Join(names, '/')[k - 1] == '/')
    ensures n < |names| && Join(names, '/')[k..] == Join(names[n..], '/')
  {
    hide Join;
    if k == 0 {
      n := 0;
      assert names[0..] == names;
    } else {
      JoinedSlash(names);
      JoinHead(names);
      var w := |names[0]| + 1;
      BoundaryInTail(names[0], Join(names[1..], '/'), Join(names, '/'), k);
      var m := BoundaryComponent(names[1..], k - w);
      n := m + 1;
      assert names[1..][m..] == names[n..];
    }
  }

  /** A boundary after the first component is a boundary of the rest of the path. */
  lemma BoundaryInTail(head: string, rest: string, path: string, k: nat)
    requires path == head + "/" + rest && '/' !in head && 0 < k <= |path| && path[k - 1] == '/'
    ensures var w := |head| + 1;
            k >= w && path[k..] == rest[k - w..] && (k == w || rest[k - w - 1] == '/')
  {
    var w := |head| + 1;
    assert forall q :: 0 <= q < |head| ==> path[q] == head[q];
    assert path[w..] == rest;
    if k > w { assert rest[k - w - 1] == path[k - 1]; }
  }

  lemma {:induction false} ComponentBoundary(names: seq<string>, n: nat) returns (k: nat)
    requires n < |names|
    ensures k <= |Join(names, '/')| && (k == 0 || Join(names, '/')[k - 1] == '/')
    ensures Join(names, '/')[k..] == Join(names[n..], '/')
  {
    hide Join;
    if n == 0 {
      k := 0;
      assert names[0..] == names;
    } else {
      JoinHead(names);
      var path, w := Join(names, '/'), |names[0]| + 1;
      var m := ComponentBoundary(names[1..], n - 1);
      k := m + w;
      assert names[1..][n - 1..] == names[n..];
      assert path[w..] == Join(names[1..], '/');
      assert path[k..] == Join(names[1..], '/')[m..];
      assert path[k - 1] == if m == 0 then '/' else Join(names[1..], '/')[m - 1];
    }
  }

  lemma TailHasNoDoubleStar(name: string)
    requires name != "" && !HasDoubleStar(name)
    ensures !HasDoubleStar(name[1..])
  {
    forall i | 0 <= i < |name[1..]| - 1
      ensures !(name[1..][i] == '*' && name[1..][i + 1] == '*')
    {
      var j := i + 1;
      assert !(name[j] == '*' && name[j + 1] == '*');
    }
  }

  lemma {:induction false} LastName(name: string, path: string)
    requires '/' !in name && !HasDoubleStar(name)
    ensures GlobMatch(name, path) <==> '/' !in path && NameMatch(name, path)
    decreases |name|
  {
    hide GlobMatch, NameMatch, HasDoubleStar;
    if name == "" {
      EmptyPatterns(path);
    } else {
      TailHasNoDoubleStar(name);
      StartsSingle(name);
      forall k | 0 <= k <= |path|
        ensures GlobMatch(name[1..], path[k..]) <==> '/' !in path[k..] && NameMatch(name[1..], path[k..])
        ensures path == path[..k] + path[k..]
      {
        LastName(name[1..], path[k..]);
      }
      if name[0] == '*' {
        StarSteps(name, path);
        NameStarSteps(name, path);
        if StarStep(name, path) {
          var k: nat :| k <= |path| && '/' !in path[..k] && GlobMatch(name[1..], path[k..]);
          assert NameMatch(name[1..], path[k..]);
        }
        if '/' !in path && NameStarStep(name, path) {
          var k: nat :| k <= |path| && NameMatch(name[1..], path[k..]);
          assert '/' !in path[..k] && GlobMatch(name[1..], path[k..]);
        }
      } else {
        CharacterSteps(name, path);
        if path != "" { assert path == [path[0]] + path[1..]; }
      }
    }
  }

  lemma EmptyPatterns(path: string)
    ensures GlobMatch("", path) <==> path == ""
    ensures NameMatch("", path) <==> path == ""
  {
  }

  lemma StartsSingle(name: string)
    requires name != "" && !HasDoubleStar(name)
    ensures !("**" <= name)
  {
    assert |name| > 1 ==> !(name[0] == '*' && name[0 + 1] == '*');
  }

  /** A leading `*` skips part of a name. */
  ghost predicate StarStep(pattern: string, path: string)
    requires pattern != ""
  {
    exists k: nat :: k <= |path| && '/' !in path[..k] && GlobMatch(pattern[1..], path[k..])
  }

  lemma StarSteps(pattern: string, path: string)
    requires pattern != "" && pattern[0] == '*' && !("**" <= pattern)
    ensures GlobMatch(pattern, path) <==> StarStep(pattern, path)
  {
  }

  ghost predicate NameStarStep(pattern: string, name: string)
    requires pattern != ""
  {
    exists k: nat :: k <= |name| && NameMatch(pattern[1..], name[k..])
  }

  lemma NameStarSteps(pattern: string, name: string)
    requires pattern != "" && pattern[0] == '*'
    ensures NameMatch(pattern, name) <==> NameStarStep(pattern, name)
  {
  }

  /** Any other leading character stands for one character. */
  lemma CharacterSteps(pattern: string, path: string)
    requires pattern != "" && pattern[0] != '*'
    ensures GlobMatch(pattern, path) <==>
              path != "" && (if pattern[0] == '?' then path[0] != '/' else path[0] == pattern[0]) &&
              GlobMatch(pattern[1..], path[1..])
    ensures NameMatch(pattern, path) <==>
              path != "" && (pattern[0] == '?' || path[0] == pattern[0]) && NameMatch(pattern[1..], path[1..])
  {
  }

  /** A pattern with a directory part needs a slash in the path. */
  lemma {:induction false} NoDirectory(name: string, rest: string, path: string)
    requires '/' !in name && !HasDoubleStar(name) && '/' !in path
    ensures !GlobMatch(name + "/" + rest, path)
    decreases |name|
  {
    var whole := name + "/" + rest;
    if name == "" {
      assert whole[0] == '/';
    } else {
      TailHasNoDoubleStar(name);
      assert whole[1..] == name[1..] + "/" + rest;
      SingleStar(name, rest);
      forall k | 0 <= k <= |path|
        ensures !GlobMatch(whole[1..], path[k..])
      {
        NoDirectory(name[1..], rest, path[k..]);
      }
    }
  }

  lemma SingleStar(name: string, rest: string)
    requires name != "" && '/' !in name && !HasDoubleStar(name)
    ensures !("**" <= name + "/" + rest) && !("**/" <= name + "/" + rest)
  {
    var whole := name + "/" + rest;
    if |name| > 1 {
      assert whole[0] == name[0] && whole[1] == name[1];
      assert !(name[0] == '*' && name[0 + 1] == '*');
    } else {
      assert whole[1] == '/';
    }
  }

  /** With the path's first slash at `n`, the leading component is matched against the leading name. */
  lemma {:induction false} NameThenRest(name: string, rest: string, path: string, n: nat)
    requires '/' !in name && !HasDoubleStar(name)
    requires n < |path| && path[n] == '/' && '/' !in path[..n]
    ensures GlobMatch(name + "/" + rest, path) <==> NameMatch(name, path[..n]) && GlobMatch(rest, path[n + 1..])
    decreases |name|
  {
    hide GlobMatch, NameMatch, HasDoubleStar;
    var whole := name + "/" + rest;
    if name == "" {
      CharacterSteps(whole, path);
      EmptyPatterns(path[..n]);
      assert whole[0] == '/' && whole[1..] == rest;
      if n > 0 { assert path[..n][0] == path[0]; }
    } else {
      TailHasNoDoubleStar(name);
      SingleStar(name, rest);
      assert whole[1..] == name[1..] + "/" + rest;
      forall k | 0 <= k <= n
        ensures GlobMatch(whole[1..], path[k..])
            <==> NameMatch(name[1..], path[..n][k..]) && GlobMatch(rest, path[n + 1..])
      {
        assert path[k..][..n - k] == path[..n][k..];
        assert path[k..][n - k + 1..] == path[n + 1..];
        NameThenRest(name[1..], rest, path[k..], n - k);
      }
      if name[0] == '*' {
        StarThenRest(name, rest, path, n);
      } else {
        CharacterSteps(whole, path);
        CharacterSteps(name, path[..n]);
        if n > 0 { assert path[..n][0] == path[0] && path[..n][0] != '/'; }
      }
    }
  }

  lemma SlashBefore(path: string, n: nat, k: nat)
    requires n < |path| && path[n] == '/' && k <= |path|
    ensures n < k ==> '/' in path[..k]
  {
    if n < k { assert path[..k][n] == '/'; }
  }

  lemma StarThenRest(name: string, rest: string, path: string, n: nat)
    requires name != "" && name[0] == '*' && !("**" <= name + "/" + rest)
    requires n < |path| && path[n] == '/' && '/' !in path[..n]
    requires forall k :: 0 <= k <= n ==>
               (GlobMatch((name + "/" + rest)[1..], path[k..]) <==>
                (NameMatch(name[1..], path[..n][k..]) && GlobMatch(rest, path[n + 1..])))
    ensures GlobMatch(name + "/" + rest, path) <==> NameMatch(name, path[..n]) && GlobMatch(rest, path[n + 1..])
  {
    hide GlobMatch, NameMatch;
    var whole := name + "/" + rest;
    StarSteps(whole, path);
    NameStarSteps(name, path[..n]);
    if StarStep(whole, path) {
      var k: nat :| k <= |path| && '/' !in path[..k] && GlobMatch(whole[1..], path[k..]);
      SlashBefore(path, n, k);
      assert NameMatch(name[1..], path[..n][k..]);
    }
    if NameStarStep(name, path[..n]) && GlobMatch(rest, path[n + 1..]) {
      var k: nat :| k <= n && NameMatch(name[1..], path[..n][k..]);
      assert path[..k] == path[..n][..k];
      assert GlobMatch(whole[1..], path[k..]);
    }
  }
}
