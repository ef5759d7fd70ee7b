/**
 Text as its UTF-8 bytes: well-formed scalars, and the Characters (grapheme clusters) that text is split and
 searched by. An ASCII separator is a Character of its own unless a scalar next to it attaches to it.
 */
module Characters {
  import opened Text

  type Byte = b: int | 0 <= b < 256
  type Bytes = seq<Byte>

  // ---------------------------------------------------------------- UTF-8

  predicate Within(s: Bytes, i: nat, lo: int, hi: int) {
    i < |s| && lo <= s[i] <= hi
  }

  /** Width of the scalar at the front, or 0 if the bytes are ill-formed there. */
  function ScalarWidth(s: Bytes): (width: nat)
    requires s != []
    ensures width <= |s|
    ensures forall i :: 1 <= i < width ==> s[i] >= 0x80
  {
    var lead := s[0];
    if lead < 0x80 then 1
    else if 0xC2 <= lead <= 0xDF then (if Within(s, 1, 0x80, 0xBF) then 2 else 0)
    else if 0xE0 <= lead <= 0xEF then
      (if Within(s, 1, if lead == 0xE0 then 0xA0 else 0x80, if lead == 0xED then 0x9F else 0xBF)
          && Within(s, 2, 0x80, 0xBF) then 3 else 0)
    else if 0xF0 <= lead <= 0xF4 then
      (if Within(s, 1, if lead == 0xF0 then 0x90 else 0x80, if lead == 0xF4 then 0x8F else 0xBF)
          && Within(s, 2, 0x80, 0xBF) && Within(s, 3, 0x80, 0xBF) then 4 else 0)
    else 0
  }

  predicate ValidUtf8(s: Bytes) {
    s == [] || (ScalarWidth(s) > 0 && ValidUtf8(s[ScalarWidth(s)..]))
  }

  /** Cutting valid text at an ASCII character leaves valid text on both sides. */
  lemma {:induction false} CutAtAscii(left: Bytes, c: Byte, right: Bytes)
    requires c < 0x80 && ValidUtf8(left + [c] + right)
    ensures ValidUtf8(left) && ValidUtf8(right)
    decreases |left|
  {
    hide ScalarWidth;
    var whole := left + [c] + right;
    var width := ScalarWidth(whole);
    if left == [] {
      AsciiIsOneByte(whole);
      assert whole[0] == c && whole[1..] == right;
    } else {
      ScalarBeforeAscii(left, c, right);
      assert whole[width..] == left[width..] + [c] + right;
      CutAtAscii(left[width..], c, right);
    }
  }

  lemma AsciiIsOneByte(s: Bytes)
    requires s != [] && s[0] < 0x80
    ensures ScalarWidth(s) == 1
  {
  }

  /** No scalar reaches over an ASCII character. */
  lemma ScalarBeforeAscii(left: Bytes, c: Byte, right: Bytes)
    requires left != [] && c < 0x80 && ScalarWidth(left + [c] + right) > 0
    ensures ScalarWidth(left + [c] + right) == ScalarWidth(left) <= |left|
  {
    var whole := left + [c] + right;
    assert whole[|left|] == c;
    assert ScalarWidth(whole) <= |left|;
    assert forall i :: 0 <= i < |left| ==> left[i] == whole[i];
  }

  lemma {:induction false} ConcatValid(left: Bytes, right: Bytes)
    requires ValidUtf8(left) && ValidUtf8(right)
    ensures ValidUtf8(left + right)
    decreases |left|
  {
    hide ScalarWidth;
    if left == [] {
      assert left + right == right;
    } else {
      ScalarStays(left, right);
      var width := ScalarWidth(left);
      assert (left + right)[width..] == left[width..] + right;
      ConcatValid(left[width..], right);
    }
  }

  lemma ScalarStays(left: Bytes, right: Bytes)
    requires left != [] && ScalarWidth(left) > 0
    ensures ScalarWidth(left + right) == ScalarWidth(left)
  {
    assert forall i :: 0 <= i < |left| ==> (left + right)[i] == left[i];
  }

  ghost predicate AllValid(parts: seq<Bytes>) {
    forall part :: part in parts ==> ValidUtf8(part)
  }

  /** Joining valid parts with an ASCII separator, and cutting valid text at one, both give valid text. */
  lemma {:induction false} JoinedValid(parts: seq<Bytes>, sep: Byte)
    requires sep < 0x80 && parts != []
    ensures ValidUtf8(Join(parts, sep)) <==> AllValid(parts)
  {
    hide ValidUtf8;
    if |parts| == 1 {
      assert parts[0] in parts;
    } else {
      var rest := Join(parts[1..], sep);
      assert Join(parts, sep) == parts[0] + [sep] + rest && parts == [parts[0]] + parts[1..];
      JoinedValid(parts[1..], sep);
      if ValidUtf8(Join(parts, sep)) {
        CutAtAscii(parts[0], sep, rest);
      }
      if AllValid(parts) {
        AsciiValid(sep);
        ConcatValid(parts[0], [sep]);
        ConcatValid(parts[0] + [sep], rest);
      }
    }
  }

  lemma AsciiValid(c: Byte)
    requires c < 0x80
    ensures ValidUtf8([c])
  {
    AsciiIsOneByte([c]);
    assert [c][1..] == [];
  }

  // ---------------------------------------------------------------- Characters

  /** The scalars that attach to what is before them, and those that attach to what is after; any sets will do. */
  const MARKS: set<Bytes>
  const PREPENDED: set<Bytes>

  /** No ASCII character attaches to a separator. */
  predicate Attaches(scalar: Bytes) {
    scalar != [] && forall b :: b in scalar ==> b >= 0x80
  }

  predicate StartsWithMark(text: Bytes) {
    exists mark :: mark in MARKS && Attaches(mark) && mark <= text
  }

  predicate EndsWith(text: Bytes, end: Bytes) {
    |end| <= |text| && text[|text| - |end|..] == end
  }

  predicate EndsWithPrepended(text: Bytes) {
    exists scalar :: scalar in PREPENDED && Attaches(scalar) && EndsWith(text, scalar)
  }

  /** A separator between the two texts is part of a larger Character. */
  predicate Fused(before: Bytes, after: Bytes) {
    StartsWithMark(after) || EndsWithPrepended(before)
  }

  predicate StandsAt(before: Bytes, s: Bytes, i: nat, c: Byte)
    requires i < |s|
  {
    s[i] == c && !Fused(before + s[..i], s[i + 1..])
  }

  /** Whether the text, with `before` in front of it, holds the separator as a Character. */
  predicate HasAfter(before: Bytes, s: Bytes, c: Byte) {
    exists i: nat :: i < |s| && StandsAt(before, s, i, c)
  }

  predicate Has(s: Bytes, c: Byte) {
    HasAfter([], s, c)
  }

  /** The pieces between the separators that are Characters, for text that has `before` in front of it. */
  function SplitAfter(before: Bytes, s: Bytes, sep: Byte): (parts: seq<Bytes>)
    ensures |parts| >= 1 && Join(parts, sep) == s
    decreases |s|
  {
    if s == [] then [[]]
    else
      var rest := SplitAfter(before + [s[0]], s[1..], sep);
      assert s == [s[0]] + s[1..];
      if s[0] == sep && !Fused(before, s[1..]) then
        JoinEmpty(rest, sep);
        [[]] + rest
      else
        JoinFirst(s[0], rest, sep);
        [[s[0]] + rest[0]] + rest[1..]
  }

  function SplitAt(s: Bytes, sep: Byte): (parts: seq<Bytes>)
    ensures |parts| >= 1 && Join(parts, sep) == s
  {
    SplitAfter([], s, sep)
  }

  // ---------------------------------------------------------------- ASCII on either side decides nothing

  lemma NotAcrossStart(scalar: Bytes, text: Bytes, k: nat)
    requires Attaches(scalar) && k < |text| && text[k] < 0x80 && k < |scalar|
    ensures !(scalar <= text)
  {
    assert scalar[k] in scalar;
  }

  lemma NotAcrossEnd(scalar: Bytes, text: Bytes, k: nat)
    requires Attaches(scalar) && k < |text| && text[k] < 0x80 && |text| - |scalar| <= k
    ensures !EndsWith(text, scalar)
  {
    if |scalar| <= |text| {
      var from := |text| - |scalar|;
      assert scalar[k - from] in scalar && text[from..][k - from] == text[k];
    }
  }

  /** What follows the next ASCII character does not matter. */
  lemma FusedUpTo(before: Bytes, after: Bytes, c: Byte, more: Bytes)
    requires c < 0x80
    ensures Fused(before, after + [c] + more) <==> Fused(before, after)
  {
    var longer := after + [c] + more;
    assert longer[|after|] == c;
    forall mark | Attaches(mark)
      ensures mark <= longer <==> mark <= after
    {
      if |mark| > |after| {
        NotAcrossStart(mark, longer, |after|);
      } else {
        assert longer[..|mark|] == after[..|mark|];
      }
    }
  }

  /** Nor does what precedes the previous one. */
  lemma FusedFrom(more: Bytes, c: Byte, before: Bytes, after: Bytes)
    requires c < 0x80
    ensures Fused(more + [c] + before, after) <==> Fused(before, after)
  {
    var longer := more + [c] + before;
    assert longer[|more|] == c;
    forall scalar | Attaches(scalar)
      ensures EndsWith(longer, scalar) <==> EndsWith(before, scalar)
    {
      if |scalar| > |before| {
        NotAcrossEnd(scalar, longer, |more|);
      } else {
        assert longer[|longer| - |scalar|..] == before[|before| - |scalar|..];
      }
    }
  }

  /** Between ASCII characters, or at an end, a separator stands alone. */
  lemma AsciiStandsAlone(before: Bytes, after: Bytes)
    requires before == [] || before[|before| - 1] < 0x80
    requires after == [] || after[0] < 0x80
    ensures !Fused(before, after)
  {
    forall scalar | Attaches(scalar)
      ensures !(scalar <= after) && !EndsWith(before, scalar)
    {
      if after != [] { NotAcrossStart(scalar, after, 0); }
      if before != [] { NotAcrossEnd(scalar, before, |before| - 1); }
    }
  }

  predicate IsAscii(s: Bytes) {
    forall b :: b in s ==> b < 0x80
  }

  /** In ASCII text every separator is a Character. */
  lemma {:induction false} AsciiSplit(before: Bytes, s: Bytes, sep: Byte)
    requires IsAscii(before) && IsAscii(s)
    ensures SplitAfter(before, s, sep) == Split(s, sep)
    decreases |s|
  {
    hide Fused;
    if s != [] {
      assert s == [s[0]] + s[1..];
      assert s[0] in s && forall b :: b in s[1..] ==> b in s;
      if before != [] { assert before[|before| - 1] in before; }
      if |s| > 1 { assert s[1..][0] in s; }
      AsciiStandsAlone(before, s[1..]);
      AsciiSplit(before + [s[0]], s[1..], sep);
    }
  }

  // ---------------------------------------------------------------- pieces

  lemma StandsInLeft(before: Bytes, left: Bytes, c: Byte, right: Bytes, i: nat, sep: Byte)
    requires c < 0x80 && i < |left|
    ensures StandsAt(before, left + [c] + right, i, sep) <==> StandsAt(before, left, i, sep)
  {
    hide Fused;
    var s := left + [c] + right;
    assert s[..i] == left[..i] && s[i + 1..] == left[i + 1..] + [c] + right;
    FusedUpTo(before + left[..i], left[i + 1..], c, right);
  }

  lemma StandsInMiddle(before: Bytes, left: Bytes, c: Byte, right: Bytes, sep: Byte)
    ensures StandsAt(before, left + [c] + right, |left|, sep) <==> c == sep && !Fused(before + left, right)
  {
    hide Fused;
    var s := left + [c] + right;
    assert s[..|left|] == left && s[|left| + 1..] == right;
  }

  lemma StandsInRight(before: Bytes, left: Bytes, c: Byte, right: Bytes, i: nat, sep: Byte)
    requires c < 0x80 && i < |right|
    ensures StandsAt(before, left + [c] + right, |left| + 1 + i, sep) <==> StandsAt([], right, i, sep)
  {
    hide Fused;
    var s, k := left + [c] + right, |left| + 1 + i;
    assert before + s[..k] == (before + left) + [c] + right[..i] && s[k + 1..] == right[i + 1..];
    assert [] + right[..i] == right[..i];
    FusedFrom(before + left, c, right[..i], right[i + 1..]);
  }

  /** An ASCII character separates: text before it and text after it are each on their own. */
  lemma HasConcat(before: Bytes, left: Bytes, c: Byte, right: Bytes, sep: Byte)
    requires c < 0x80
    ensures HasAfter(before, left + [c] + right, sep)
        <==> HasAfter(before, left, sep) || (c == sep && !Fused(before + left, right)) || Has(right, sep)
  {
    hide Fused, StandsAt;
    var s, n := left + [c] + right, |left|;
    forall i: nat | i < n
      ensures StandsAt(before, s, i, sep) <==> StandsAt(before, left, i, sep)
    {
      StandsInLeft(before, left, c, right, i, sep);
    }
    StandsInMiddle(before, left, c, right, sep);
    forall i: nat | i < |right|
      ensures StandsAt(before, s, n + 1 + i, sep) <==> StandsAt([], right, i, sep)
    {
      StandsInRight(before, left, c, right, i, sep);
    }
    if k: nat :| k < |s| && StandsAt(before, s, k, sep) {
      if k < n { assert StandsAt(before, left, k, sep); }
      if k > n {
        var i := k - n - 1;
        assert StandsAt(before, s, n + 1 + i, sep) && StandsAt([], right, i, sep);
      }
    }
    if c == sep && !Fused(before + left, right) { assert StandsAt(before, s, n, sep); }
    if i: nat :| i < |right| && StandsAt([], right, i, sep) {
      assert StandsAt(before, s, n + 1 + i, sep);
    }
    if i: nat :| i < n && StandsAt(before, left, i, sep) {
      assert StandsAt(before, s, i, sep);
    }
  }

  lemma HasOnItsOwn(more: Bytes, c: Byte, s: Bytes, sep: Byte)
    requires c < 0x80
    ensures HasAfter(more + [c], s, sep) <==> Has(s, sep)
  {
    hide StandsAt;
    forall i: nat | i < |s|
      ensures StandsAt(more + [c], s, i, sep) <==> StandsAt([], s, i, sep)
    {
      StandsOnItsOwn(more, c, s, i, sep);
    }
  }

  lemma StandsOnItsOwn(more: Bytes, c: Byte, s: Bytes, i: nat, sep: Byte)
    requires c < 0x80 && i < |s|
    ensures StandsAt(more + [c], s, i, sep) <==> StandsAt([], s, i, sep)
  {
    hide Fused;
    assert [] + s[..i] == s[..i];
    FusedFrom(more, c, s[..i], s[i + 1..]);
  }

  /** Another separator occurs in joined text exactly when it occurs in a part. */
  lemma {:induction false} JoinHas(parts: seq<Bytes>, sep: Byte, c: Byte)
    requires parts != [] && sep < 0x80 && c != sep
    ensures Has(Join(parts, sep), c) <==> exists part :: part in parts && Has(part, c)
  {
    hide Has, HasAfter, Fused;
    if |parts| == 1 {
      assert parts == [parts[0]];
    } else {
      var rest := parts[1..];
      JoinHas(rest, sep, c);
      HasIsAfterNothing(parts[0], c);
      HasIsAfterNothing(Join(parts, sep), c);
      HasConcat([], parts[0], sep, Join(rest, sep), c);
      assert Join(parts, sep) == parts[0] + [sep] + Join(rest, sep) && parts == [parts[0]] + rest;
    }
  }

  lemma HasIsAfterNothing(s: Bytes, c: Byte)
    ensures Has(s, c) <==> HasAfter([], s, c)
  {
  }

  /** The first piece, in its place, does not hold the separator, and no other piece does. */
  lemma {:induction false} PiecesHaveNone(before: Bytes, s: Bytes, sep: Byte)
    requires sep < 0x80
    ensures var parts := SplitAfter(before, s, sep);
            !HasAfter(before, parts[0], sep) && forall k :: 1 <= k < |parts| ==> !Has(parts[k], sep)
    decreases |s|
  {
    hide Has, HasAfter, Fused;
    if s == [] {
      NothingHas(before, sep);
    } else {
      var tail := SplitAfter(before + [s[0]], s[1..], sep);
      PiecesHaveNone(before + [s[0]], s[1..], sep);
      if s[0] == sep && !Fused(before, s[1..]) {
        NothingHas(before, sep);
        HasOnItsOwn(before, sep, tail[0], sep);
      } else {
        if s[0] == sep { FirstPieceFused(before, s[1..], tail, sep); }
        HasGrows(before, s[0], tail[0], sep);
      }
    }
  }

  lemma NothingHas(before: Bytes, sep: Byte)
    ensures !HasAfter(before, [], sep)
  {
  }

  lemma FirstPieceFused(before: Bytes, s: Bytes, parts: seq<Bytes>, sep: Byte)
    requires sep < 0x80 && parts != [] && Join(parts, sep) == s && Fused(before, s)
    ensures Fused(before, parts[0])
  {
    hide Fused;
    if |parts| > 1 { FusedUpTo(before, parts[0], sep, Join(parts[1..], sep)); }
  }

  lemma HasGrows(before: Bytes, x: Byte, s: Bytes, sep: Byte)
    requires !HasAfter(before + [x], s, sep) && (x == sep ==> Fused(before, s))
    ensures !HasAfter(before, [x] + s, sep)
  {
    hide Fused, StandsAt;
    var whole := [x] + s;
    forall i: nat | i < |whole|
      ensures !StandsAt(before, whole, i, sep)
    {
      StandsInGrown(before, x, s, i, sep);
    }
  }

  lemma StandsInGrown(before: Bytes, x: Byte, s: Bytes, i: nat, sep: Byte)
    requires i <= |s|
    ensures StandsAt(before, [x] + s, i, sep) <==>
              if i == 0 then x == sep && !Fused(before, s) else StandsAt(before + [x], s, i - 1, sep)
  {
    hide Fused;
    var whole := [x] + s;
    if i == 0 {
      assert before + whole[..0] == before && whole[1..] == s;
    } else {
      assert before + whole[..i] == before + [x] + s[..i - 1] && whole[i + 1..] == s[i..];
    }
  }

  /** No piece of a split holds the separator. */
  lemma SplitAtHasNone(s: Bytes, sep: Byte)
    requires sep < 0x80
    ensures forall part :: part in SplitAt(s, sep) ==> !Has(part, sep)
  {
    hide SplitAfter, Fused;
    PiecesHaveNone([], s, sep);
  }

  /** No separator of the stretch between `before` and `rest` is a Character. */
  ghost predicate AllFused(before: Bytes, part: Bytes, rest: Bytes, sep: Byte) {
    forall i :: 0 <= i < |part| && part[i] == sep ==> Fused(before + part[..i], part[i + 1..] + rest)
  }

  lemma AllFusedTail(before: Bytes, part: Bytes, rest: Bytes, sep: Byte)
    requires AllFused(before, part, rest, sep) && part != []
    ensures AllFused(before + [part[0]], part[1..], rest, sep)
    ensures part[0] == sep ==> Fused(before, part[1..] + rest)
  {
    hide Fused;
    var tail := part[1..];
    forall i | 0 <= i < |tail| && tail[i] == sep
      ensures Fused(before + [part[0]] + tail[..i], tail[i + 1..] + rest)
    {
      assert before + [part[0]] + tail[..i] == before + part[..i + 1] && tail[i + 1..] == part[i + 2..];
    }
    assert before + part[..0] == before;
  }

  lemma SplitOverOne(before: Bytes, x: Byte, s: Bytes, sep: Byte)
    requires x == sep ==> Fused(before, s)
    ensures var tail := SplitAfter(before + [x], s, sep);
            SplitAfter(before, [x] + s, sep) == [[x] + tail[0]] + tail[1..]
  {
    hide Fused, Join;
    assert ([x] + s)[1..] == s;
  }

  lemma SplitAtOne(before: Bytes, s: Bytes, sep: Byte)
    requires !Fused(before, s)
    ensures SplitAfter(before, [sep] + s, sep) == [[]] + SplitAfter(before + [sep], s, sep)
  {
    hide Fused, Join;
    assert ([sep] + s)[1..] == s;
  }

  /** A stretch without the separator stays in one piece. */
  lemma {:induction false} SplitOver(before: Bytes, part: Bytes, rest: Bytes, sep: Byte)
    requires AllFused(before, part, rest, sep)
    ensures var tail := SplitAfter(before + part, rest, sep);
            SplitAfter(before, part + rest, sep) == [part + tail[0]] + tail[1..]
    decreases |part|
  {
    hide Fused, AllFused, SplitAfter, Join;
    if part == [] {
      var split := SplitAfter(before, rest, sep);
      assert part + rest == rest && before + part == before && part + split[0] == split[0];
      assert [split[0]] + split[1..] == split;
    } else {
      var tail := part[1..];
      assert part + rest == [part[0]] + (tail + rest) && before + [part[0]] + tail == before + part;
      AllFusedTail(before, part, rest, sep);
      SplitOver(before + [part[0]], tail, rest, sep);
      SplitOverOne(before, part[0], tail + rest, sep);
      var split := SplitAfter(before + part, rest, sep);
      assert [part[0]] + (tail + split[0]) == part + split[0];
    }
  }

  /** The separator after a part splits there unless it is part of a larger Character. */
  lemma SplitAfterPart(before: Bytes, part: Bytes, rest: Bytes, sep: Byte)
    requires sep < 0x80 && !Has(part, sep) && (before == [] || before[|before| - 1] == sep)
    ensures var tail := SplitAfter(before + part + [sep], rest, sep);
            SplitAfter(before, part + [sep] + rest, sep) ==
            if Fused(before + part, rest) then [part + [sep] + tail[0]] + tail[1..] else [part] + tail
  {
    hide Fused, SplitAfter, Has, Join;
    var tail := SplitAfter(before + part + [sep], rest, sep);
    SplitFirst(before, part, [sep] + rest, sep);
    assert part + ([sep] + rest) == part + [sep] + rest;
    if Fused(before + part, rest) {
      SplitOverOne(before + part, sep, rest, sep);
      assert part + ([sep] + tail[0]) == part + [sep] + tail[0];
    } else {
      SplitAtOne(before + part, rest, sep);
      assert part + [] == part;
    }
  }

  lemma NothingAfter(before: Bytes, sep: Byte)
    ensures SplitAfter(before, [], sep) == [[]]
  {
  }

  /** A part without the separator stays in one piece, whatever stands around it. */
  lemma SplitFirst(before: Bytes, part: Bytes, rest: Bytes, sep: Byte)
    requires sep < 0x80 && !Has(part, sep)
    requires (before == [] || before[|before| - 1] == sep) && (rest == [] || rest[0] == sep)
    ensures var tail := SplitAfter(before + part, rest, sep);
            SplitAfter(before, part + rest, sep) == [part + tail[0]] + tail[1..]
  {
    hide Has, SplitAfter, AllFused;
    PartIsFused(before, part, rest, sep);
    SplitOver(before, part, rest, sep);
  }

  lemma PartIsFused(before: Bytes, part: Bytes, rest: Bytes, sep: Byte)
    requires sep < 0x80 && !Has(part, sep)
    requires (before == [] || before[|before| - 1] == sep) && (rest == [] || rest[0] == sep)
    ensures AllFused(before, part, rest, sep)
  {
    hide Fused, StandsAt;
    forall i: nat | i < |part| && part[i] == sep
      ensures Fused(before + part[..i], part[i + 1..] + rest)
    {
      assert !StandsAt([], part, i, sep);
      FusedAround(before, part, i, rest, sep);
    }
  }

  lemma FusedAround(before: Bytes, part: Bytes, i: nat, rest: Bytes, sep: Byte)
    requires sep < 0x80 && i < |part| && part[i] == sep && !StandsAt([], part, i, sep)
    requires (before == [] || before[|before| - 1] == sep) && (rest == [] || rest[0] == sep)
    ensures Fused(before + part[..i], part[i + 1..] + rest)
  {
    hide Fused;
    assert [] + part[..i] == part[..i];
    if rest == [] {
      assert part[i + 1..] + rest == part[i + 1..];
    } else {
      assert part[i + 1..] + rest == part[i + 1..] + [sep] + rest[1..];
      FusedUpTo(part[..i], part[i + 1..], sep, rest[1..]);
    }
    if before == [] {
      assert before + part[..i] == part[..i];
    } else {
      var more := before[..|before| - 1];
      assert before + part[..i] == more + [sep] + part[..i];
      FusedFrom(more, sep, part[..i], part[i + 1..] + rest);
    }
  }

  lemma NotHeld(s: Bytes, c: Byte)
    requires c !in s
    ensures !Has(s, c)
  {
  }

  // ---------------------------------------------------------------- splits of joined text

  /** What stands before an ASCII character does not change the split after it. */
  lemma {:induction false} SplitOnItsOwn(more: Bytes, c: Byte, before: Bytes, s: Bytes, sep: Byte)
    requires c < 0x80
    ensures SplitAfter(more + [c] + before, s, sep) == SplitAfter(before, s, sep)
    decreases |s|
  {
    hide Fused, Join;
    if s != [] {
      assert more + [c] + before + [s[0]] == more + [c] + (before + [s[0]]);
      SplitOnItsOwn(more, c, before + [s[0]], s[1..], sep);
      FusedFrom(more, c, before, s[1..]);
    }
  }

  /** A separator that is a Character separates the splits of what is around it. */
  lemma {:induction false} SplitAfterConcat(before: Bytes, left: Bytes, right: Bytes, sep: Byte)
    requires sep < 0x80 && !Fused(before + left, right)
    ensures SplitAfter(before, left + [sep] + right, sep) == SplitAfter(before, left, sep) + SplitAt(right, sep)
    decreases |left|
  {
    hide Fused, Join, SplitAfter;
    if left == [] {
      assert before + left == before && left + [sep] + right == [sep] + right;
      SplitAtOne(before, right, sep);
      NothingAfter(before, sep);
      SplitOnItsOwn(before, sep, [], right, sep);
      assert before + [sep] + [] == before + [sep];
    } else {
      var tail := left[1..];
      assert left == [left[0]] + tail && left + [sep] + right == [left[0]] + (tail + [sep] + right);
      assert before + [left[0]] + tail == before + left;
      SplitAfterConcat(before + [left[0]], tail, right, sep);
      FusedUpTo(before, tail, sep, right);
      SplitGrown(before, left[0], tail, sep);
      SplitGrown(before, left[0], tail + [sep] + right, sep);
    }
  }

  lemma SplitGrown(before: Bytes, x: Byte, s: Bytes, sep: Byte)
    ensures var tail := SplitAfter(before + [x], s, sep);
            SplitAfter(before, [x] + s, sep) ==
            if x == sep && !Fused(before, s) then [[]] + tail else [[x] + tail[0]] + tail[1..]
  {
    hide Fused, Join;
    assert ([x] + s)[1..] == s;
  }

  lemma SplitAtConcat(left: Bytes, right: Bytes, sep: Byte)
    requires sep < 0x80 && !Fused(left, right)
    ensures SplitAt(left + [sep] + right, sep) == SplitAt(left, sep) + SplitAt(right, sep)
  {
    hide Fused, Join, SplitAfter;
    assert [] + left == left;
    SplitAfterConcat([], left, right, sep);
  }

  /** Text without the separator is one piece. */
  lemma SplitAtPiece(part: Bytes, sep: Byte)
    requires sep < 0x80 && !Has(part, sep)
    ensures SplitAt(part, sep) == [part]
  {
    hide Has, SplitAfter;
    SplitFirst([], part, [], sep);
    NothingAfter([] + part, sep);
    assert part + [] == part;
  }

  /** Text without the separator, up to another ASCII character, belongs to the first piece. */
  lemma SplitHead(left: Bytes, c: Byte, right: Bytes, sep: Byte)
    requires sep < 0x80 && c < 0x80 && c != sep && !Has(left, sep)
    ensures SplitAt(left + [c] + right, sep)[0] == left + [c] + SplitAt(right, sep)[0]
  {
    hide Has, SplitAfter, AllFused;
    HeadIsFused(left, c, right, sep);
    SplitOver([], left + [c], right, sep);
    assert [] + (left + [c]) == left + [c] + [];
    SplitOnItsOwn(left, c, [], right, sep);
  }

  lemma HeadIsFused(left: Bytes, c: Byte, right: Bytes, sep: Byte)
    requires sep < 0x80 && c < 0x80 && c != sep && !Has(left, sep)
    ensures AllFused([], left + [c], right, sep)
  {
    hide Fused, StandsAt;
    var part := left + [c];
    forall i: nat | i < |part| && part[i] == sep
      ensures Fused([] + part[..i], part[i + 1..] + right)
    {
      assert i < |left| && !StandsAt([], left, i, sep);
      assert part[i] == left[i] && part[..i] == left[..i] && part[i + 1..] + right == left[i + 1..] + [c] + right;
      NotStanding(left, i, sep);
      FusedUpTo([] + left[..i], left[i + 1..], c, right);
    }
  }

  lemma NotStanding(s: Bytes, i: nat, sep: Byte)
    requires i < |s| && s[i] == sep && !StandsAt([], s, i, sep)
    ensures Fused([] + s[..i], s[i + 1..])
  {
  }
}
