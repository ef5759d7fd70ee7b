/** Splitting and joining on a separator, shared by the glob, the catalog and the publication path models. */
module Text {

  /** The pieces between separators, empty pieces included; never an empty list. */
  function Split<T(==)>(s: seq<T>, sep: T): (parts: seq<seq<T>>)
    ensures |parts| >= 1
    ensures forall i :: 0 <= i < |parts| ==> sep !in parts[i] && |parts[i]| <= |s|
    ensures Join(parts, sep) == s
  {
    if s == [] then [[]]
    else
      var rest := Split(s[1..], sep);
      assert s == [s[0]] + s[1..];
      if s[0] == sep then
        JoinEmpty(rest, sep);
        [[]] + rest
      else
        JoinFirst(s[0], rest, sep);
        [[s[0]] + rest[0]] + rest[1..]
  }

  function Join<T>(parts: seq<seq<T>>, sep: T): seq<T> {
    if parts == [] then []
    else if |parts| == 1 then parts[0]
    else parts[0] + [sep] + Join(parts[1..], sep)
  }

  lemma JoinEmpty<T>(parts: seq<seq<T>>, sep: T)
    requires parts != []
    ensures Join([[]] + parts, sep) == [sep] + Join(parts, sep)
  {
    assert ([[]] + parts)[1..] == parts;
  }

  lemma {:induction false} JoinFirst<T>(x: T, parts: seq<seq<T>>, sep: T)
    requires parts != []
    ensures Join([[x] + parts[0]] + parts[1..], sep) == [x] + Join(parts, sep)
  {
    var grown := [[x] + parts[0]] + parts[1..];
    assert grown[1..] == parts[1..];
    if |parts| > 1 {
      assert Join(grown, sep) == ([x] + parts[0]) + [sep] + Join(parts[1..], sep);
    }
  }

  /** Splitting undoes joining, for separator-free pieces. */
  lemma {:induction false} SplitJoin<T>(parts: seq<seq<T>>, sep: T)
    requires parts != []
    requires forall i :: 0 <= i < |parts| ==> sep !in parts[i]
    ensures Split(Join(parts, sep), sep) == parts
  {
    if |parts| == 1 {
      SplitPiece(parts[0], sep);
    } else {
      SplitJoin(parts[1..], sep);
      SplitConcat(parts[0], Join(parts[1..], sep), sep);
      assert parts[0] + [sep] + Join(parts[1..], sep) == parts[0] + ([sep] + Join(parts[1..], sep));
      assert [parts[0]] + parts[1..] == parts;
    }
  }

  lemma {:induction false} SplitPiece<T>(s: seq<T>, sep: T)
    requires sep !in s
    ensures Split(s, sep) == [s]
  {
    if s != [] {
      SplitPiece(s[1..], sep);
      assert [s[0]] + s[1..] == s;
    }
  }

  lemma {:induction false} SplitConcat<T>(piece: seq<T>, rest: seq<T>, sep: T)
    requires sep !in piece
    ensures Split(piece + ([sep] + rest), sep) == [piece] + Split(rest, sep)
  {
    hide Split, Join;
    if piece == [] {
      assert piece + ([sep] + rest) == [sep] + rest;
      SplitAtSeparator(rest, sep);
    } else {
      SplitConcat(piece[1..], rest, sep);
      assert piece + ([sep] + rest) == [piece[0]] + (piece[1..] + ([sep] + rest));
      SplitGrows(piece[0], piece[1..] + ([sep] + rest), sep);
      var split := [piece[1..]] + Split(rest, sep);
      assert split[1..] == Split(rest, sep) && [piece[0]] + split[0] == piece;
    }
  }

  lemma SplitAtSeparator<T>(s: seq<T>, sep: T)
    ensures Split([sep] + s, sep) == [[]] + Split(s, sep)
  {
    hide Join;
    assert ([sep] + s)[1..] == s;
  }

  lemma SplitGrows<T>(x: T, s: seq<T>, sep: T)
    requires x != sep
    ensures Split([x] + s, sep) == [[x] + Split(s, sep)[0]] + Split(s, sep)[1..]
  {
    hide Join;
    assert ([x] + s)[1..] == s;
  }
}
