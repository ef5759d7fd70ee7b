/**
 The fragment of Python's `re` that the glob compiler emits, with its matching relation.
 As in `re` without flags, `.` does not match a newline and `$` also matches just before a final one.
 */
module Regex {

  datatype Regex =
    | Begin                                  // ^
    | End                                    // $
    | Lit(c: char)                           // an escaped character
    | Dot                                    // .
    | NotSlash                               // [^/]
    | Star(body: Regex)                      // body*
    | Opt(body: Regex)                       // (?:body)?
    | Empty
    | Cat(first: Regex, second: Regex)
    | Alt(left: Regex, right: Regex)

  /** `r` consumes exactly the characters of `s` from `i` up to `j`. */
  predicate Spans(r: Regex, s: string, i: nat, j: nat)
    requires i <= j <= |s|
    decreases r, j - i
  {
    match r
    case Begin => i == j == 0
    case End => i == j && (i == |s| || (i == |s| - 1 && s[i] == '\n'))
    case Lit(c) => j == i + 1 && s[i] == c
    case Dot => j == i + 1 && s[i] != '\n'
    case NotSlash => j == i + 1 && s[i] != '/'
    case Star(body) => i == j || exists k: nat | i < k <= j :: Spans(body, s, i, k) && Spans(r, s, k, j)
    case Opt(body) => i == j || Spans(body, s, i, j)
    case Empty => i == j
    case Cat(first, second) => exists k: nat | i <= k <= j :: Spans(first, s, i, k) && Spans(second, s, k, j)
    case Alt(left, right) => Spans(left, s, i, j) || Spans(right, s, i, j)
  }

  /** `r` matches from position `i`, wherever the match ends. */
  predicate MatchesAt(r: Regex, s: string, i: nat)
    requires i <= |s|
  {
    exists j: nat | i <= j <= |s| :: Spans(r, s, i, j)
  }

  /** `re.match`: anchored at the start only. */
  predicate Match(r: Regex, s: string) {
    MatchesAt(r, s, 0)
  }

  function Sequence(pieces: seq<Regex>): Regex {
    if pieces == [] then Empty else Cat(pieces[0], Sequence(pieces[1..]))
  }

  function Alternation(items: seq<Regex>): Regex
    requires items != []
  {
    if |items| == 1 then items[0] else Alt(items[0], Alternation(items[1..]))
  }

  lemma {:induction false} AlternationMatches(items: seq<Regex>, s: string)
    requires items != []
    ensures Match(Alternation(items), s) <==> exists n :: 0 <= n < |items| && Match(items[n], s)
  {
    if |items| > 1 {
      var rest := items[1..];
      AlternationMatches(rest, s);
      forall j: nat | j <= |s|
        ensures Spans(Alternation(items), s, 0, j)
            <==> Spans(items[0], s, 0, j) || Spans(Alternation(rest), s, 0, j)
      {
      }
      if n :| 0 <= n < |items| && Match(items[n], s) {
        if n > 0 { assert rest[n - 1] == items[n]; }
      }
      if n :| 0 <= n < |rest| && Match(rest[n], s) {
        assert items[n + 1] == rest[n];
      }
    }
  }

  lemma CatSplits(first: Regex, second: Regex, s: string, i: nat, j: nat) returns (k: nat)
    requires i <= j <= |s| && Spans(Cat(first, second), s, i, j)
    ensures i <= k <= j && Spans(first, s, i, k) && Spans(second, s, k, j)
  {
    k :| i <= k <= j && Spans(first, s, i, k) && Spans(second, s, k, j);
  }

  lemma CatJoins(first: Regex, second: Regex, s: string, i: nat, k: nat, j: nat)
    requires i <= k <= j <= |s| && Spans(first, s, i, k) && Spans(second, s, k, j)
    ensures Spans(Cat(first, second), s, i, j)
  {
  }

  /** Matching a sequence: the first piece consumes some stretch, the rest matches after it. */
  lemma SequenceMatches(piece: Regex, rest: seq<Regex>, s: string, i: nat)
    requires i <= |s|
    ensures MatchesAt(Sequence([piece] + rest), s, i)
        <==> exists k: nat | i <= k <= |s| :: Spans(piece, s, i, k) && MatchesAt(Sequence(rest), s, k)
  {
    assert ([piece] + rest)[1..] == rest;
    var all := Sequence([piece] + rest);
    assert all == Cat(piece, Sequence(rest));
    if MatchesAt(all, s, i) {
      var j: nat :| i <= j <= |s| && Spans(all, s, i, j);
      var k := CatSplits(piece, Sequence(rest), s, i, j);
      assert MatchesAt(Sequence(rest), s, k);
    }
    if k: nat :| i <= k <= |s| && Spans(piece, s, i, k) && MatchesAt(Sequence(rest), s, k) {
      var j: nat :| k <= j <= |s| && Spans(Sequence(rest), s, k, j);
      CatJoins(piece, Sequence(rest), s, i, k, j);
    }
  }

  lemma SequenceFrom(piece: Regex, rest: seq<Regex>, whole: seq<Regex>, s: string, i: nat, k: nat)
    requires i <= k <= |s| && whole == [piece] + rest
    requires Spans(piece, s, i, k) && MatchesAt(Sequence(rest), s, k)
    ensures MatchesAt(Sequence(whole), s, i)
  {
    var j: nat :| k <= j <= |s| && Spans(Sequence(rest), s, k, j);
    CatJoins(piece, Sequence(rest), s, i, k, j);
    assert whole[0] == piece && whole[1..] == rest;
    assert Sequence(whole) == Cat(piece, Sequence(rest));
  }

  lemma SequenceSplit(piece: Regex, rest: seq<Regex>, whole: seq<Regex>, s: string, i: nat) returns (k: nat)
    requires i <= |s| && whole == [piece] + rest && MatchesAt(Sequence(whole), s, i)
    ensures i <= k <= |s| && Spans(piece, s, i, k) && MatchesAt(Sequence(rest), s, k)
  {
    SequenceMatches(piece, rest, s, i);
    k :| i <= k <= |s| && Spans(piece, s, i, k) && MatchesAt(Sequence(rest), s, k);
  }

  /** `[^/]*` consumes exactly the slash-free stretches. */
  lemma {:induction false} StarNotSlash(s: string, i: nat, j: nat)
    requires i <= j <= |s|
    ensures Spans(Star(NotSlash), s, i, j) <==> '/' !in s[i..j]
    decreases j - i
  {
    if i < j {
      StarNotSlash(s, i + 1, j);
      assert s[i..j] == [s[i]] + s[i + 1..j];
      if s[i] != '/' { assert Spans(NotSlash, s, i, i + 1); }
    }
  }

  /** `.*` consumes exactly the newline-free stretches. */
  lemma {:induction false} StarDot(s: string, i: nat, j: nat)
    requires i <= j <= |s|
    ensures Spans(Star(Dot), s, i, j) <==> '\n' !in s[i..j]
    decreases j - i
  {
    if i < j {
      StarDot(s, i + 1, j);
      assert s[i..j] == [s[i]] + s[i + 1..j];
      if s[i] != '\n' { assert Spans(Dot, s, i, i + 1); }
    }
  }

  /** `(?:.*` `/)?` consumes nothing, or a newline-free stretch ending in a slash. */
  lemma OptionalDirectories(s: string, i: nat, j: nat)
    requires i <= j <= |s|
    ensures Spans(Opt(Cat(Star(Dot), Lit('/'))), s, i, j)
        <==> i == j || (s[j - 1] == '/' && '\n' !in s[i..j - 1])
  {
    if i < j {
      StarDot(s, i, j - 1);
      if Spans(Cat(Star(Dot), Lit('/')), s, i, j) {
        var k := CatSplits(Star(Dot), Lit('/'), s, i, j);
      }
      if s[j - 1] == '/' && '\n' !in s[i..j - 1] {
        CatJoins(Star(Dot), Lit('/'), s, i, j - 1, j);
      }
    }
  }
}
