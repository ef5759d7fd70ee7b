/**
 Repository-relative globs: path normalisation, brace expansion, compilation to a regular
 expression, and the direct meaning of a glob that the compilation is proved against.
 */
module Glob {
  import opened Text

  // ---------------------------------------------------------------- normalisation

  function ForwardSlashes(path: string): string {
    seq(|path|, i requires 0 <= i < |path| => if path[i] == '\\' then '/' else path[i])
  }

  function DropDotSlash(path: string): string {
    if "./" <= path then DropDotSlash(path[2..]) else path
  }

  function TrimSlashes(path: string): string {
    if path != "" && path[|path| - 1] == '/' then TrimSlashes(path[..|path| - 1]) else path
  }

  function Normalized(path: string): string {
    TrimSlashes(DropDotSlash(ForwardSlashes(path)))
  }

  predicate InNormalForm(path: string) {
    '\\' !in path && !("./" <= path) && (path == "" || path[|path| - 1] != '/')
  }

  method NormalizePath(path: string) returns (normalized: string)
    ensures normalized == Normalized(path)
    ensures InNormalForm(normalized)
  {
    normalized := ForwardSlashes(path);
    while "./" <= normalized
      invariant DropDotSlash(normalized) == DropDotSlash(ForwardSlashes(path))
      decreases |normalized|
    {
      normalized := normalized[2..];
    }
    normalized := TrimSlashes(normalized);
    NormalizedForm(path);
  }

  /** The normal forms are exactly the results of normalisation, which is therefore idempotent. */
  lemma NormalizedForm(path: string)
    ensures InNormalForm(Normalized(path))
    ensures InNormalForm(path) <==> Normalized(path) == path
    ensures Normalized(Normalized(path)) == Normalized(path)
  {
    var slashed := ForwardSlashes(path);
    assert '\\' !in slashed;
    DropDotSlashForm(slashed);
    TrimSlashesForm(DropDotSlash(slashed));
    NormalFormFixed(Normalized(path));
    if InNormalForm(path) { NormalFormFixed(path); }
  }

  lemma {:induction false} DropDotSlashForm(path: string)
    requires '\\' !in path
    ensures '\\' !in DropDotSlash(path) && !("./" <= DropDotSlash(path))
  {
    if "./" <= path { DropDotSlashForm(path[2..]); }
  }

  lemma {:induction false} TrimSlashesForm(path: string)
    requires '\\' !in path && !("./" <= path)
    ensures InNormalForm(TrimSlashes(path))
  {
    if path != "" && path[|path| - 1] == '/' { TrimSlashesForm(path[..|path| - 1]); }
  }

  lemma NormalFormFixed(path: string)
    requires InNormalForm(path)
    ensures Normalized(path) == path
  {
    assert ForwardSlashes(path) == path;
  }

  /** A backslash is a slash. */
  lemma BackslashIsSlash(left: string, right: string)
    ensures Normalized(left + "\\" + right) == Normalized(left + "/" + right)
  {
    assert ForwardSlashes(left + "\\" + right) == ForwardSlashes(left + "/" + right);
  }

  /** A leading `./` says nothing. */
  lemma DotSlashDropped(path: string)
    ensures Normalized("./" + path) == Normalized(path)
  {
    var slashed := ForwardSlashes("./" + path);
    assert slashed[2..] == ForwardSlashes(path) && slashed[..2] == "./";
  }

  /** A trailing slash says nothing, but after a lone dot, with which it makes a `./`. */
  lemma TrailingSlashDropped(path: string)
    ensures Normalized(path + "/") == if Normalized(path) == "." then "" else Normalized(path)
  {
    var slashed := ForwardSlashes(path);
    assert ForwardSlashes(path + "/") == slashed + "/";
    DropBeforeSlash(slashed);
    var rest := DropDotSlash(slashed);
    DropDotSlashForm(slashed);
    assert (rest + "/")[..|rest|] == rest;
    if rest != "." && TrimSlashes(rest) == "." { TrimmedDot(rest); }
  }

  lemma {:induction false} DropBeforeSlash(path: string)
    ensures DropDotSlash(path + "/") == if DropDotSlash(path) == "." then "" else DropDotSlash(path) + "/"
  {
    if "./" <= path {
      assert (path + "/")[2..] == path[2..] + "/" && (path + "/")[..2] == path[..2];
      DropBeforeSlash(path[2..]);
    } else if path == "." {
      assert (path + "/")[2..] == "" && path + "/" == "./";
    } else {
      assert |path| >= 2 ==> (path + "/")[..2] == path[..2];
      assert |path| == 1 ==> (path + "/")[0] == path[0];
    }
  }

  /** Only a path that starts with a dot and a slash is trimmed to a dot. */
  lemma {:induction false} TrimmedDot(path: string)
    requires TrimSlashes(path) == "." && path != "."
    ensures "./" <= path
  {
    var shorter := path[..|path| - 1];
    if shorter != "." { TrimmedDot(shorter); }
  }

  // ---------------------------------------------------------------- brace expansion

  /** Index of the first `c` at or after `from`, or -1. */
  function Find(s: string, c: char, from: nat): (r: int)
    requires from <= |s|
    ensures r == -1 || from <= r < |s|
    ensures r >= 0 ==> s[r] == c && forall i :: from <= i < r ==> s[i] != c
    ensures r < 0 ==> forall i :: from <= i < |s| ==> s[i] != c
    decreases |s| - from
  {
    if from == |s| then -1 else if s[from] == c then from else Find(s, c, from + 1)
  }

  function Prefixed(pre: string, xs: seq<string>): seq<string> {
    seq(|xs|, i requires 0 <= i < |xs| => pre + xs[i])
  }

  function Around(pre: string, choices: seq<string>, post: string): seq<string> {
    seq(|choices|, i requires 0 <= i < |choices| => pre + choices[i] + post)
  }

  /** The patterns obtained by putting each choice of one brace group in place of the group. */
  function Substituted(pattern: string, start: nat, end: nat): (results: seq<string>)
    requires start < end < |pattern|
    ensures forall i :: 0 <= i < |results| ==> |results[i]| < |pattern|
  {
    Around(pattern[..start], Split(pattern[start + 1..end], ','), pattern[end + 1..])
  }

  function Expanded(pattern: string): seq<string>
    decreases |pattern|
  {
    var start := Find(pattern, '{', 0);
    if start < 0 then [pattern]
    else
      var end := Find(pattern, '}', start + 1);
      if end < 0 then [pattern] else ExpandedAll(Substituted(pattern, start, end), |pattern|)
  }

  /** `size` only bounds the patterns, to show that the recursion ends. */
  function ExpandedAll(patterns: seq<string>, size: nat): seq<string>
    requires forall i :: 0 <= i < |patterns| ==> |patterns[i]| < size
    decreases size, |patterns|
  {
    if patterns == [] then [] else Expanded(patterns[0]) + ExpandedAll(patterns[1..], size)
  }

  lemma {:induction false} SizeIrrelevant(patterns: seq<string>, size: nat, size': nat)
    requires forall i :: 0 <= i < |patterns| ==> |patterns[i]| < size && |patterns[i]| < size'
    ensures ExpandedAll(patterns, size) == ExpandedAll(patterns, size')
  {
    if patterns != [] { SizeIrrelevant(patterns[1..], size, size'); }
  }

  method ExpandBraces(pattern: string) returns (expanded: seq<string>)
    ensures expanded == Expanded(pattern)
    decreases |pattern|
  {
    hide *;
    var start := Find(pattern, '{', 0);
    if start < 0 {
      ExpandedPlain(pattern);
      return [pattern];
    }
    var end := Find(pattern, '}', start + 1);
    if end < 0 {
      ExpandedPlain(pattern);
      return [pattern];
    }
    var pre, choices, post := pattern[..start], Split(pattern[start + 1..end], ','), pattern[end + 1..];
    ghost var results := Substituted(pattern, start, end);
    ExpandedGroup(pattern, start, end);
    SubstitutedEach(pattern, start, end);
    expanded := [];
    assert results[0..] == results;
    for n := 0 to |choices|
      invariant |results| == |choices|
      invariant Expanded(pattern) == expanded + ExpandedAll(results[n..], |pattern|)
    {
      var more := ExpandBraces(pre + choices[n] + post);
      ExpandedAllStep(results, n, |pattern|);
      expanded := expanded + more;
    }
    NothingLeft(results[|choices|..], |pattern|);
  }

  lemma ExpandedPlain(pattern: string)
    requires Find(pattern, '{', 0) < 0 || Find(pattern, '}', Find(pattern, '{', 0) + 1) < 0
    ensures Expanded(pattern) == [pattern]
  {
  }

  lemma ExpandedGroup(pattern: string, start: nat, end: nat)
    requires start < end < |pattern|
    requires start == Find(pattern, '{', 0) && end == Find(pattern, '}', start + 1)
    ensures Expanded(pattern) == ExpandedAll(Substituted(pattern, start, end), |pattern|)
  {
    hide Find, Substituted;
  }

  lemma SubstitutedEach(pattern: string, start: nat, end: nat)
    requires start < end < |pattern|
    ensures var choices, results := Split(pattern[start + 1..end], ','), Substituted(pattern, start, end);
            |results| == |choices| &&
            forall i :: 0 <= i < |choices| ==> results[i] == pattern[..start] + choices[i] + pattern[end + 1..]
  {
    hide Split;
  }

  lemma NothingLeft(patterns: seq<string>, size: nat)
    requires patterns == []
    ensures ExpandedAll(patterns, size) == []
  {
  }

  lemma ExpandedAllStep(patterns: seq<string>, n: nat, size: nat)
    requires forall i :: 0 <= i < |patterns| ==> |patterns[i]| < size
    requires n < |patterns|
    ensures ExpandedAll(patterns[n..], size) == Expanded(patterns[n]) + ExpandedAll(patterns[n + 1..], size)
  {
    assert patterns[n..][1..] == patterns[n + 1..];
  }

  /** A `{` that some later `}` closes. */
  ghost predicate HasBraces(s: string) {
    exists i, j :: 0 <= i < j < |s| && s[i] == '{' && s[j] == '}'
  }

  /** Expansion leaves nothing to expand. */
  lemma {:induction false} ExpandedIsFinal(pattern: string, r: string)
    requires r in Expanded(pattern)
    ensures !HasBraces(r)
    decreases |pattern|
  {
    hide *;
    var start := Find(pattern, '{', 0);
    var end := if start < 0 then -1 else Find(pattern, '}', start + 1);
    if start < 0 || end < 0 {
      ExpandedPlain(pattern);
      PlainIsFinal(pattern);
    } else {
      ExpandedGroup(pattern, start, end);
      var results := Substituted(pattern, start, end);
      var i := ExpandedFrom(results, |pattern|, r);
      ExpandedIsFinal(results[i], r);
    }
  }

  lemma PlainIsFinal(pattern: string)
    requires Find(pattern, '{', 0) < 0 || Find(pattern, '}', Find(pattern, '{', 0) + 1) < 0
    ensures !HasBraces(pattern)
  {
    hide Find;
  }

  lemma {:induction false} ExpandedFrom(patterns: seq<string>, size: nat, r: string) returns (i: nat)
    requires forall i :: 0 <= i < |patterns| ==> |patterns[i]| < size
    requires r in ExpandedAll(patterns, size)
    ensures i < |patterns| && r in Expanded(patterns[i])
  {
    if r in Expanded(patterns[0]) { return 0; }
    var k := ExpandedFrom(patterns[1..], size, r);
    i := k + 1;
  }

  /** The alternatives offered by each stretch of a pattern, read left to right. */
  function Template(pattern: string): seq<seq<string>>
    decreases |pattern|
  {
    var start := Find(pattern, '{', 0);
    if start < 0 then [[pattern]]
    else
      var end := Find(pattern, '}', start + 1);
      if end < 0 then [[pattern]]
      else [[pattern[..start]], Split(pattern[start + 1..end], ',')] + Template(pattern[end + 1..])
  }

  /** Every way to pick one string from each position, concatenated, in lexicographic order of picks. */
  function Product(choices: seq<seq<string>>): seq<string> {
    if choices == [] then [""] else PickFirst(choices[0], Product(choices[1..]))
  }

  function PickFirst(heads: seq<string>, tails: seq<string>): seq<string> {
    if heads == [] then [] else Prefixed(heads[0], tails) + PickFirst(heads[1..], tails)
  }

  /** No `{` opens between a `{` and the `}` that closes it. */
  ghost predicate Flat(pattern: string)
    decreases |pattern|
  {
    var start := Find(pattern, '{', 0);
    start < 0 ||
    var end := Find(pattern, '}', start + 1);
    end < 0 || ('{' !in pattern[start + 1..end] && Flat(pattern[end + 1..]))
  }

  /** Without nesting, expansion is the product of the choices, in order. */
  lemma {:induction false} ExpandedIsProduct(pattern: string)
    requires Flat(pattern)
    ensures Expanded(pattern) == Product(Template(pattern))
    decreases |pattern|
  {
    var start := Find(pattern, '{', 0);
    var end := if start < 0 then -1 else Find(pattern, '}', start + 1);
    if start < 0 || end < 0 {
      SingleProduct(pattern);
    } else {
      ExpandedIsProduct(pattern[end + 1..]);
      GroupExpansion(pattern, start, end);
      GroupProduct(pattern[..start], Split(pattern[start + 1..end], ','), Template(pattern[end + 1..]));
    }
  }

  lemma GroupExpansion(pattern: string, start: nat, end: nat)
    requires start < end < |pattern|
    requires start == Find(pattern, '{', 0) && end == Find(pattern, '}', start + 1)
    requires '{' !in pattern[start + 1..end]
    ensures Expanded(pattern)
         == Prefixed(pattern[..start], PickFirst(Split(pattern[start + 1..end], ','), Expanded(pattern[end + 1..])))
  {
    var pre, choices, post := pattern[..start], Split(pattern[start + 1..end], ','), pattern[end + 1..];
    forall i | 0 <= i < |choices|
      ensures '{' !in choices[i]
    {
      if '{' in choices[i] { PartOfWhole(choices, ',', i, '{'); }
    }
    var results := Around(pre, choices, post);
    forall i | 0 <= i < |choices|
      ensures |pre + choices[i] + post| < |pattern|
    {
      assert |Substituted(pattern, start, end)[i]| < |pattern|;
    }
    EachChoice(pre, choices, post, |pattern|);
  }

  lemma GroupProduct(pre: string, choices: seq<string>, rest: seq<seq<string>>)
    ensures Product([[pre], choices] + rest) == Prefixed(pre, PickFirst(choices, Product(rest)))
  {
    assert [[pre], choices] + rest == [[pre]] + ([choices] + rest);
    ProductStep([pre], [choices] + rest);
    ProductStep(choices, rest);
    var tails := PickFirst(choices, Product(rest));
    assert PickFirst([pre], tails) == Prefixed(pre, tails) + PickFirst([], tails);
  }

  lemma SingleProduct(s: string)
    ensures Product([[s]]) == [s]
  {
    assert Product([[s]]) == PickFirst([s], [""]) == Prefixed(s, [""]) + PickFirst([], [""]);
    assert s + "" == s;
    assert Prefixed(s, [""]) == [s];
  }

  lemma ProductStep(heads: seq<string>, rest: seq<seq<string>>)
    ensures Product([heads] + rest) == PickFirst(heads, Product(rest))
  {
    assert ([heads] + rest)[1..] == rest;
  }

  lemma {:induction false} PartOfWhole(parts: seq<string>, sep: char, n: nat, c: char)
    requires n < |parts| && c in parts[n]
    ensures c in Join(parts, sep)
  {
    if n > 0 {
      PartOfWhole(parts[1..], sep, n - 1, c);
      assert Join(parts, sep) == parts[0] + [sep] + Join(parts[1..], sep);
    }
  }

  lemma {:induction false} EachChoice(pre: string, choices: seq<string>, post: string, size: nat)
    requires '{' !in pre && forall i :: 0 <= i < |choices| ==> '{' !in choices[i]
    requires forall i :: 0 <= i < |choices| ==> |pre + choices[i] + post| < size
    ensures ExpandedAll(Around(pre, choices, post), size) == Prefixed(pre, PickFirst(choices, Expanded(post)))
  {
    if choices != [] {
      var head, rest, ends := choices[0], choices[1..], Expanded(post);
      EachChoice(pre, rest, post, size);
      assert Around(pre, choices, post)[1..] == Around(pre, rest, post);
      ExpandedPrefix(pre + head, post);
      PrefixedTwice(pre, head, ends);
      PrefixedConcat(pre, Prefixed(head, ends), PickFirst(rest, ends));
    }
  }

  lemma PrefixedTwice(pre: string, head: string, xs: seq<string>)
    ensures Prefixed(pre + head, xs) == Prefixed(pre, Prefixed(head, xs))
  {
    forall i | 0 <= i < |xs|
      ensures (pre + head) + xs[i] == pre + (head + xs[i])
    {
    }
  }

  lemma PrefixedConcat(pre: string, xs: seq<string>, ys: seq<string>)
    ensures Prefixed(pre, xs + ys) == Prefixed(pre, xs) + Prefixed(pre, ys)
  {
  }

  /** Text before the first `{` is carried along unchanged. */
  lemma {:induction false} ExpandedPrefix(pre: string, rest: string)
    requires '{' !in pre
    ensures Expanded(pre + rest) == Prefixed(pre, Expanded(rest))
    decreases |rest|
  {
    hide Find, Substituted;
    FindSkip(pre, rest, '{', 0);
    FindShift(pre, rest, '{', 0);
    var start := Find(rest, '{', 0);
    if start >= 0 {
      FindShift(pre, rest, '}', start + 1);
      var end := Find(rest, '}', start + 1);
      if end >= 0 {
        SubstitutedPrefix(pre, rest, start, end);
        ExpandedAllPrefix(pre, Substituted(rest, start, end), |rest|);
      }
    }
  }

  lemma SubstitutedPrefix(pre: string, rest: string, start: nat, end: nat)
    requires start < end < |rest|
    ensures Substituted(pre + rest, |pre| + start, |pre| + end) == Prefixed(pre, Substituted(rest, start, end))
  {
    var whole := pre + rest;
    assert whole[..|pre| + start] == pre + rest[..start];
    assert whole[|pre| + start + 1..|pre| + end] == rest[start + 1..end];
    assert whole[|pre| + end + 1..] == rest[end + 1..];
    var choices := Split(rest[start + 1..end], ',');
    forall i | 0 <= i < |choices|
      ensures (pre + rest[..start]) + choices[i] + rest[end + 1..]
           == pre + (rest[..start] + choices[i] + rest[end + 1..])
    {
    }
  }

  lemma {:induction false} ExpandedAllPrefix(pre: string, patterns: seq<string>, size: nat)
    requires '{' !in pre
    requires forall i :: 0 <= i < |patterns| ==> |patterns[i]| < size
    ensures ExpandedAll(Prefixed(pre, patterns), |pre| + size) == Prefixed(pre, ExpandedAll(patterns, size))
    decreases size, |patterns|
  {
    if patterns != [] {
      assert Prefixed(pre, patterns)[1..] == Prefixed(pre, patterns[1..]);
      ExpandedPrefix(pre, patterns[0]);
      ExpandedAllPrefix(pre, patterns[1..], size);
      PrefixedConcat(pre, Expanded(patterns[0]), ExpandedAll(patterns[1..], size));
    }
  }

  lemma {:induction false} FindShift(pre: string, rest: string, c: char, from: nat)
    requires from <= |rest|
    ensures Find(pre + rest, c, |pre| + from) == if Find(rest, c, from) < 0 then -1 else |pre| + Find(rest, c, from)
    decreases |rest| - from
  {
    if from < |rest| && rest[from] != c { FindShift(pre, rest, c, from + 1); }
  }

  lemma {:induction false} FindSkip(pre: string, rest: string, c: char, from: nat)
    requires c !in pre && from <= |pre|
    ensures Find(pre + rest, c, from) == Find(pre + rest, c, |pre|)
    decreases |pre| - from
  {
    if from < |pre| {
      assert (pre + rest)[from] == pre[from];
      FindSkip(pre, rest, c, from + 1);
    }
  }
}
