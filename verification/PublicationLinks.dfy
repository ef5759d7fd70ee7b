/** What a link names: the walk over its parts seen from the text of the link. */
module PublicationLinks {
  import opened Options
  import opened Text
  import opened Characters
  import opened PublicationPath

  // ---------------------------------------------------------------- the fragment

  /** A link names what its text before the first `#` that is a Character names. */
  lemma FragmentIgnored(base: Bytes, fragment: Bytes)
    requires !Has(base, HASH) && !Fused(base, fragment)
    ensures SafePath(base + [HASH] + fragment) == SafePath(base)
  {
    hide Has, Fused, SplitAt, Walk;
    SplitAtConcat(base, fragment, HASH);
    SplitAtPiece(base, HASH);
  }

  /** In ASCII text that is any first `#`. */
  lemma AsciiFragmentIgnored(base: Bytes, fragment: Bytes)
    requires IsAscii(base) && IsAscii(fragment) && HASH !in base
    ensures SafePath(base + [HASH] + fragment) == SafePath(base)
  {
    hide Has, Fused, SafePath;
    NotHeld(base, HASH);
    if base != [] { assert base[|base| - 1] in base; }
    if fragment != [] { assert fragment[0] in fragment; }
    AsciiStandsAlone(base, fragment);
    FragmentIgnored(base, fragment);
  }

  /** The text `%23`. */
  const ENCODED_HASH: Bytes := [PERCENT, 0x32, 0x33]

  ghost predicate Occurs(s: Bytes, piece: Bytes) {
    exists before, after :: s == before + piece + after
  }

  lemma OccursWithin(s: Bytes, piece: Bytes, before: Bytes, after: Bytes)
    requires Occurs(s, piece)
    ensures Occurs(before + s + after, piece)
  {
    var left, right :| s == left + piece + right;
    assert before + s + after == (before + left) + piece + (right + after);
  }

  lemma {:induction false} OccursInJoined(parts: seq<Bytes>, sep: Byte, part: Bytes, piece: Bytes)
    requires part in parts && Occurs(part, piece)
    ensures Occurs(Join(parts, sep), piece)
  {
    hide Occurs;
    if |parts| == 1 {
      assert parts == [parts[0]];
    } else {
      var rest := Join(parts[1..], sep);
      assert parts == [parts[0]] + parts[1..];
      if part == parts[0] {
        OccursWithin(part, piece, [], [sep] + rest);
        assert [] + part + ([sep] + rest) == part + [sep] + rest;
      } else {
        OccursInJoined(parts[1..], sep, part, piece);
        OccursWithin(rest, piece, parts[0] + [sep], []);
        assert parts[0] + [sep] + rest + [] == parts[0] + [sep] + rest;
      }
    }
  }

  /** Decoding makes a `#` only of `%23`. */
  lemma {:induction false} DecodedHash(s: Bytes)
    requires HASH !in s && Unescaped(s).Some? && HASH in Unescaped(s).value
    ensures Occurs(s, ENCODED_HASH)
    decreases |s|
  {
    hide Occurs;
    if s[0] != PERCENT {
      DecodedHash(s[1..]);
      OccursWithin(s[1..], ENCODED_HASH, [s[0]], []);
      assert s == [s[0]] + s[1..] + [];
    } else if 16 * HexValue(s[1]) + HexValue(s[2]) == HASH {
      HexOfHash(s[1], s[2]);
      assert s == [] + ENCODED_HASH + s[3..];
      assert Occurs(s, ENCODED_HASH) by { OccursHere(s, [], ENCODED_HASH, s[3..]); }
    } else {
      DecodedHash(s[3..]);
      OccursWithin(s[3..], ENCODED_HASH, s[..3], []);
      assert s == s[..3] + s[3..] + [];
    }
  }

  lemma OccursHere(s: Bytes, before: Bytes, piece: Bytes, after: Bytes)
    requires s == before + piece + after
    ensures Occurs(s, piece)
  {
  }

  lemma HexOfHash(high: Byte, low: Byte)
    requires HexValue(high) >= 0 && HexValue(low) >= 0 && 16 * HexValue(high) + HexValue(low) == HASH
    ensures high == 0x32 && low == 0x33
  {
  }

  lemma {:induction false} WalkedParts(raws: seq<Bytes>, output: seq<Bytes>, part: Bytes)
    requires Walk(raws, output).Some? && part in Walk(raws, output).value
    ensures part in output || exists raw :: raw in raws && part == Part(raw)
  {
    hide Part, IsPlainName;
    if raws != [] {
      var first := Part(raws[0]);
      assert raws == [raws[0]] + raws[1..];
      if first == HERE {
        WalkedParts(raws[1..], output, part);
      } else if first == PARENT {
        WalkedParts(raws[1..], output[..|output| - 1], part);
      } else {
        WalkedParts(raws[1..], output + [first], part);
      }
    }
  }

  /** A path named by an ASCII link holds a `#` only if the link holds a `%23`. */
  lemma HashOnlyDecoded(href: Bytes)
    requires IsAscii(href) && SafePath(href).Some? && HASH in SafePath(href).value
    ensures Occurs(href, ENCODED_HASH)
  {
    hide Occurs, Part, Walk, IsPlainName, SafePath, Raws;
    var part := PartWithHash(href);
    WalkedParts(Raws(href), [], part);
    var raw :| raw in Raws(href) && part == Part(raw);
    RawWithHash(href, raw);
  }

  lemma PartWithHash(href: Bytes) returns (part: Bytes)
    requires SafePath(href).Some? && HASH in SafePath(href).value
    ensures part in Parts(href) && HASH in part
    ensures Walk(Raws(href), []) == Some(Parts(href))
  {
    hide Walk, Raws;
    JoinedBytes(Parts(href), SLASH, HASH);
    part :| part in Parts(href) && HASH in part;
  }

  lemma RawWithHash(href: Bytes, raw: Bytes)
    requires IsAscii(href) && raw in Raws(href) && HASH in Part(raw)
    ensures Occurs(href, ENCODED_HASH)
  {
    hide Occurs, Join, SplitAt, ValidUtf8;
    var cut := SplitAt(href, HASH);
    var base := cut[0];
    NoHashBefore(href);
    var pieces := SplitAt(base, SLASH);
    JoinedBytes(pieces, SLASH, HASH);
    assert raw in pieces;
    assert HASH !in raw;
    DecodedHash(raw);
    OccursInJoined(pieces, SLASH, raw, ENCODED_HASH);
    OccursInJoined(cut, HASH, base, ENCODED_HASH);
  }

  lemma NoHashBefore(href: Bytes)
    requires IsAscii(href)
    ensures HASH !in SplitAt(href, HASH)[0]
  {
    AsciiSplit([], href, HASH);
  }

  // ---------------------------------------------------------------- the parts

  function Decoded(raws: seq<Bytes>): seq<Bytes> {
    seq(|raws|, i requires 0 <= i < |raws| => Part(raws[i]))
  }

  lemma {:induction false} WalkConcat(left: seq<Bytes>, right: seq<Bytes>, output: seq<Bytes>)
    ensures Walk(left + right, output) ==
            match Walk(left, output) case None => None case Some(between) => Walk(right, between)
  {
    hide Part, IsPlainName;
    if left == [] {
      assert left + right == right;
    } else {
      var first := Part(left[0]);
      assert (left + right)[1..] == left[1..] + right;
      if first == HERE {
        WalkConcat(left[1..], right, output);
      } else if first == PARENT {
        if output != [] { WalkConcat(left[1..], right, output[..|output| - 1]); }
      } else {
        WalkConcat(left[1..], right, output + [first]);
      }
    }
  }

  lemma {:induction false} WalkNames(raws: seq<Bytes>, output: seq<Bytes>)
    requires forall raw :: raw in raws ==> IsComponent(Part(raw))
    ensures Walk(raws, output) == Some(output + Decoded(raws))
  {
    hide Part, IsPlainName;
    if raws != [] {
      assert raws == [raws[0]] + raws[1..] && IsComponent(Part(raws[0]));
      WalkNames(raws[1..], output + [Part(raws[0])]);
      assert output + [Part(raws[0])] + Decoded(raws[1..]) == output + Decoded(raws);
    } else {
      assert output + Decoded(raws) == output;
    }
  }

  /** A link of names alone names what they decode to, in order. */
  lemma NamesInOrder(href: Bytes)
    requires !Has(href, HASH) && forall raw :: raw in SplitAt(href, SLASH) ==> IsComponent(Part(raw))
    ensures SafePath(href) == Some(Join(Decoded(SplitAt(href, SLASH)), SLASH))
  {
    hide Has, Part, Walk, SplitAt, Join;
    SplitAtPiece(href, HASH);
    var raws := SplitAt(href, SLASH);
    forall i | 0 <= i < |raws|
      ensures raws[i] != []
    {
      assert raws[i] in raws;
      ComponentNotEmpty(raws[i]);
    }
    NonEmptyAll(raws);
    WalkNames(raws, []);
    assert [] + Decoded(raws) == Decoded(raws);
  }

  lemma ComponentNotEmpty(raw: Bytes)
    requires IsComponent(Part(raw))
    ensures raw != []
  {
  }

  lemma {:induction false} NonEmptyConcat(left: seq<Bytes>, right: seq<Bytes>)
    ensures NonEmpty(left + right) == NonEmpty(left) + NonEmpty(right)
  {
    if left == [] {
      assert left + right == right;
    } else {
      assert (left + right)[1..] == left[1..] + right;
      NonEmptyConcat(left[1..], right);
    }
  }

  /** A `/` that is a Character separates the parts of the link. */
  lemma RawsConcat(left: Bytes, right: Bytes)
    requires !Has(left, HASH) && !Fused(left, right)
    ensures Raws(left + [SLASH] + right) == NonEmpty(SplitAt(left, SLASH)) + Raws(right)
  {
    hide Has, Fused, NonEmpty, SplitAt;
    var path := BeforeFragment(right);
    SplitHead(left, SLASH, right, HASH);
    BeforeFragmentFused(left, right);
    SplitAtConcat(left, path, SLASH);
    NonEmptyConcat(SplitAt(left, SLASH), SplitAt(path, SLASH));
  }

  lemma BeforeFragmentFused(left: Bytes, right: Bytes)
    requires !Fused(left, right)
    ensures !Fused(left, BeforeFragment(right))
  {
    hide Fused;
    var parts := SplitAt(right, HASH);
    if |parts| > 1 { FusedUpTo(left, parts[0], HASH, Join(parts[1..], HASH)); }
  }

  /** A step up undoes the name before it. */
  lemma StepUpCancels(left: Bytes, name: Bytes, right: Bytes)
    requires !Has(left, HASH) && !Has(name, HASH) && !Has(name, SLASH) && IsComponent(Part(name))
    requires !Fused(left, name) && !Fused(name, PARENT) && !Fused(PARENT, right) && !Fused(left, right)
    ensures SafePath(left + [SLASH] + name + [SLASH] + PARENT + [SLASH] + right) == SafePath(left + [SLASH] + right)
  {
    hide Has, Fused, Part, Walk, Raws, NonEmpty, SplitAt, Join;
    var up := PARENT + [SLASH] + right;
    var named := name + [SLASH] + up;
    assert left + [SLASH] + name + [SLASH] + PARENT + [SLASH] + right == left + [SLASH] + named;
    ParentIsPlain();
    StillApart(name, PARENT, right);
    StillApart(left, name, up);
    RawsConcat(left, named);
    RawsConcat(name, up);
    RawsConcat(PARENT, right);
    RawsConcat(left, right);
    SplitAtPiece(name, SLASH);
    ComponentNotEmpty(name);
    var before, after := NonEmpty(SplitAt(left, SLASH)), Raws(right);
    assert NonEmpty([name]) == [name] by { NonEmptyAll([name]); }
    assert before + ([name] + ([PARENT] + after)) == before + ([name, PARENT] + after);
    WalkConcat(before, [name, PARENT] + after, []);
    WalkConcat(before, after, []);
    if Walk(before, []).Some? { NameAndBack(name, after, Walk(before, []).value); }
  }

  lemma StillApart(before: Bytes, name: Bytes, rest: Bytes)
    requires !Fused(before, name)
    ensures !Fused(before, name + [SLASH] + rest)
  {
    hide Fused;
    FusedUpTo(before, name, SLASH, rest);
  }

  lemma ParentIsPlain()
    ensures !Has(PARENT, HASH) && NonEmpty(SplitAt(PARENT, SLASH)) == [PARENT] && Part(PARENT) == PARENT
  {
    hide Has;
    NotHeld(PARENT, HASH);
    NotHeld(PARENT, SLASH);
    SplitAtPiece(PARENT, SLASH);
    NonEmptyAll([PARENT]);
    UnreservedEncoded(DOT, [DOT]);
    UnreservedEncoded(DOT, []);
    assert [DOT] + [DOT] == PARENT && [DOT] + [] == [DOT];
    AsciiValid(DOT);
    ConcatValid([DOT], [DOT]);
    PartEncoded(PARENT);
  }

  lemma UnreservedEncoded(b: Byte, rest: Bytes)
    requires IsUnreserved(b)
    ensures PercentEncoded([b] + rest) == [b] + PercentEncoded(rest)
  {
    assert ([b] + rest)[1..] == rest;
  }

  lemma NameAndBack(name: Bytes, after: seq<Bytes>, output: seq<Bytes>)
    requires IsComponent(Part(name)) && Part(PARENT) == PARENT
    ensures Walk([name, PARENT] + after, output) == Walk(after, output)
  {
    hide Part, IsPlainName;
    var raws := [name, PARENT] + after;
    assert raws[1..][1..] == after && (output + [Part(name)])[..|output|] == output;
  }

  // ---------------------------------------------------------------- single parts and bytes

  lemma {:induction false} NothingToDecode(s: Bytes)
    requires PERCENT !in s
    ensures Unescaped(s) == Some(s)
  {
    if s != [] {
      NothingToDecode(s[1..]);
      assert [s[0]] + s[1..] == s;
    }
  }

  lemma AsciiHas(s: Bytes, c: Byte)
    requires IsAscii(s)
    ensures Has(s, c) <==> c in s
  {
    forall i: nat | i < |s| && s[i] == c
      ensures StandsAt([], s, i, c)
    {
      if i > 0 { assert ([] + s[..i])[i - 1] == s[i - 1] && s[i - 1] in s; }
      if i + 1 < |s| { assert s[i + 1..][0] == s[i + 1] && s[i + 1] in s; }
      AsciiStandsAlone([] + s[..i], s[i + 1..]);
    }
  }

  /** An ASCII link of one part without escapes names itself, unless it is a dot step or holds a forbidden byte. */
  lemma OnePart(href: Bytes)
    requires IsAscii(href) && 0x23 !in href && 0x25 !in href && 0x2F !in href
    ensures SafePath(href) ==
              if href != [] && href != [0x2E] && href != [0x2E, 0x2E] && 0x5C !in href && 0x3A !in href &&
                 forall b :: b in href ==> b >= 0x20 && b != 0x7F
              then Some(href) else None
  {
    hide Has;
    AsciiHas(href, HASH);
    AsciiHas(href, SLASH);
    AsciiHas(href, BACKSLASH);
    AsciiHas(href, COLON);
    NothingToDecode(href);
    assert Part(href) == href;
    SinglePart(href);
    if href != [] { WalkOne(href); }
  }

  lemma WalkOne(raw: Bytes)
    ensures Walk([raw], []) ==
              if Part(raw) == HERE then Some([]) else if Part(raw) == PARENT then None
              else if IsPlainName(Part(raw)) then Some([Part(raw)]) else None
  {
    hide Part, IsPlainName;
    var raws := [raw];
    assert raws[1..] == [] && [] + [Part(raw)] == [Part(raw)];
  }

  lemma SinglePart(href: Bytes)
    requires !Has(href, HASH) && !Has(href, SLASH)
    ensures Raws(href) == if href == [] then [] else [href]
  {
    hide Has, SplitAt;
    SplitAtPiece(href, HASH);
    SplitAtPiece(href, SLASH);
    var parts := [href];
    assert parts[1..] == [];
    if href != [] { NonEmptyAll(parts); } else { assert NonEmpty(parts) == []; }
  }

  const UPPER: Bytes := [0x30, 0x31, 0x32, 0x33, 0x34, 0x35, 0x36, 0x37, 0x38, 0x39, 0x41, 0x42, 0x43, 0x44, 0x45, 0x46]
  const LOWER: Bytes := [0x30, 0x31, 0x32, 0x33, 0x34, 0x35, 0x36, 0x37, 0x38, 0x39, 0x61, 0x62, 0x63, 0x64, 0x65, 0x66]

  /** An escape stands for a byte exactly when its digits are the byte's, in either case. */
  lemma EscapeStandsFor(high: Byte, low: Byte, b: Byte)
    ensures Unescaped([PERCENT, high, low]) == Some([b]) <==>
              (high == UPPER[b / 16] || high == LOWER[b / 16]) && (low == UPPER[b % 16] || low == LOWER[b % 16])
  {
    hide HexValue;
    assert [PERCENT, high, low][3..] == [];
    DigitOf(high, b / 16);
    DigitOf(low, b % 16);
    Unescaped3(high, low);
    HexRange(high);
    HexRange(low);
  }

  lemma HexRange(digit: Byte)
    ensures -1 <= HexValue(digit) < 16
  {
  }

  lemma Unescaped3(high: Byte, low: Byte)
    ensures Unescaped([PERCENT, high, low]) ==
              if HexValue(high) < 0 || HexValue(low) < 0 then None else Some([16 * HexValue(high) + HexValue(low)])
  {
    hide HexValue;
    var s := [PERCENT, high, low];
    assert s[3..] == [];
    var byte := [16 * HexValue(high) + HexValue(low)];
    assert byte + [] == byte;
  }

  lemma DigitOf(digit: Byte, n: int)
    requires 0 <= n < 16
    ensures HexValue(digit) == n <==> digit == UPPER[n] || digit == LOWER[n]
  {
    UpperDigit(n);
    LowerDigit(n);
  }

  /** Letters, digits and `-._~` are kept, every other byte becomes an escape in upper case. */
  lemma EncodedByte(b: Byte)
    ensures PercentEncoded([b]) ==
              if ('A' <= b as char <= 'Z') || ('a' <= b as char <= 'z') || ('0' <= b as char <= '9') ||
                 b as char in {'-', '.', '_', '~'}
              then [b] else ['%' as int, UPPER[b / 16], UPPER[b % 16]]
  {
    assert [b][1..] == [];
    UpperDigit(b / 16);
    UpperDigit(b % 16);
  }

  lemma UpperDigit(n: int)
    requires 0 <= n < 16
    ensures HexDigit(n) == UPPER[n]
  {
    assert UPPER[..10] == seq(10, i requires 0 <= i < 10 => 0x30 + i);
    assert UPPER[10..] == seq(6, i requires 0 <= i < 6 => 0x41 + i);
    if n < 10 { assert UPPER[..10][n] == UPPER[n]; } else { assert UPPER[10..][n - 10] == UPPER[n]; }
  }

  lemma LowerDigit(n: int)
    requires 0 <= n < 16
    ensures LOWER[n] == if n < 10 then 0x30 + n else 0x61 + n - 10
  {
    assert LOWER[..10] == seq(10, i requires 0 <= i < 10 => 0x30 + i);
    assert LOWER[10..] == seq(6, i requires 0 <= i < 6 => 0x61 + i);
    if n < 10 { assert LOWER[..10][n] == LOWER[n]; } else { assert LOWER[10..][n - 10] == LOWER[n]; }
  }

  lemma {:induction false} EncodedConcat(left: Bytes, right: Bytes)
    ensures PercentEncoded(left + right) == PercentEncoded(left) + PercentEncoded(right)
  {
    hide PercentEncoded;
    if left == [] {
      assert left + right == right;
      assert PercentEncoded([]) == [] by { NothingEncoded(); }
    } else {
      assert (left + right)[1..] == left[1..] + right && (left + right)[0] == left[0];
      EncodedConcat(left[1..], right);
      EncodedFirst(left);
      EncodedFirst(left + right);
    }
  }

  lemma NothingEncoded()
    ensures PercentEncoded([]) == []
  {
  }

  lemma EncodedFirst(s: Bytes)
    requires s != []
    ensures PercentEncoded(s) == PercentEncoded([s[0]]) + PercentEncoded(s[1..])
  {
    hide IsUnreserved, HexDigit;
    assert [s[0]][1..] == [];
  }
}
