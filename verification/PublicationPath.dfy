/**
 Resource paths of a publication: percent coding (RFC 3986, section 2.1) and the walk that keeps a
 manifest link inside the publication's directory. Strings are their UTF-8 bytes, split and searched by
 Characters.
 */
module PublicationPath {
  import opened Options
  import opened Text
  import opened Characters

  const SLASH: Byte := 0x2F
  const HASH: Byte := 0x23
  const PERCENT: Byte := 0x25
  const DOT: Byte := 0x2E
  const BACKSLASH: Byte := 0x5C
  const COLON: Byte := 0x3A

  // ---------------------------------------------------------------- percent coding

  predicate IsUnreserved(b: Byte) {
    0x30 <= b <= 0x39 || 0x41 <= b <= 0x5A || 0x61 <= b <= 0x7A || b in {0x2D, 0x2E, 0x5F, 0x7E}
  }

  function HexDigit(n: int): Byte
    requires 0 <= n < 16
  {
    if n < 10 then 0x30 + n else 0x41 + n - 10
  }

  function HexValue(b: Byte): (n: int)
    ensures -1 <= n < 16
  {
    if 0x30 <= b <= 0x39 then b - 0x30
    else if 0x41 <= b <= 0x46 then b - 0x41 + 10
    else if 0x61 <= b <= 0x66 then b - 0x61 + 10
    else -1
  }

  function PercentEncoded(s: Bytes): Bytes {
    if s == [] then []
    else (if IsUnreserved(s[0]) then [s[0]] else [PERCENT, HexDigit(s[0] / 16), HexDigit(s[0] % 16)])
         + PercentEncoded(s[1..])
  }

  /** The bytes denoted, or none if a `%` is not followed by two hexadecimal digits. */
  function Unescaped(s: Bytes): Option<Bytes> {
    if s == [] then Some([])
    else if s[0] != PERCENT then
      (match Unescaped(s[1..]) case None => None case Some(rest) => Some([s[0]] + rest))
    else if |s| < 3 || HexValue(s[1]) < 0 || HexValue(s[2]) < 0 then None
    else
      (match Unescaped(s[3..]) case None => None case Some(rest) => Some([16 * HexValue(s[1]) + HexValue(s[2])] + rest))
  }

  /** `removingPercentEncoding`: none also when the bytes are not UTF-8. */
  function PercentDecoded(s: Bytes): Option<Bytes> {
    match Unescaped(s)
    case None => None
    case Some(bytes) => if ValidUtf8(bytes) then Some(bytes) else None
  }

  lemma HexRoundTrip(b: Byte)
    ensures HexValue(HexDigit(b / 16)) == b / 16 && HexValue(HexDigit(b % 16)) == b % 16
    ensures HexDigit(b / 16) !in {SLASH, HASH, PERCENT} && HexDigit(b % 16) !in {SLASH, HASH, PERCENT}
  {
  }

  lemma UnescapeFirst(s: Bytes)
    requires |s| >= 3 && s[0] == PERCENT && HexValue(s[1]) >= 0 && HexValue(s[2]) >= 0 && Unescaped(s[3..]).Some?
    ensures Unescaped(s) == Some([16 * HexValue(s[1]) + HexValue(s[2])] + Unescaped(s[3..]).value)
  {
    hide HexValue;
  }

  /** Decoding undoes encoding, byte for byte. */
  lemma {:induction false} UnescapedEncoded(s: Bytes)
    ensures Unescaped(PercentEncoded(s)) == Some(s)
  {
    hide HexDigit, HexValue;
    if s != [] {
      var rest := PercentEncoded(s[1..]);
      UnescapedEncoded(s[1..]);
      if IsUnreserved(s[0]) {
        assert ([s[0]] + rest)[1..] == rest;
      } else {
        HexRoundTrip(s[0]);
        var escaped := [PERCENT, HexDigit(s[0] / 16), HexDigit(s[0] % 16)] + rest;
        assert escaped[3..] == rest;
        UnescapeFirst(escaped);
      }
      assert [s[0]] + s[1..] == s;
    }
  }

  lemma {:induction false} EncodedIsAscii(s: Bytes)
    ensures IsAscii(PercentEncoded(s))
  {
    if s != [] { EncodedIsAscii(s[1..]); }
  }

  /** An encoded component has no separator and no fragment mark, and is empty only for the empty component. */
  lemma {:induction false} EncodedIsPlain(s: Bytes)
    ensures SLASH !in PercentEncoded(s) && HASH !in PercentEncoded(s)
    ensures s != [] ==> PercentEncoded(s) != []
  {
    if s != [] {
      EncodedIsPlain(s[1..]);
      HexRoundTrip(s[0]);
    }
  }

  // ---------------------------------------------------------------- the walk

  function BeforeFragment(href: Bytes): Bytes {
    SplitAt(href, HASH)[0]
  }

  function NonEmpty(parts: seq<Bytes>): (kept: seq<Bytes>)
    ensures forall part :: part in kept <==> part in parts && part != []
  {
    if parts == [] then []
    else (if parts[0] == [] then [] else [parts[0]]) + NonEmpty(parts[1..])
  }

  /** What a raw part stands for: its decoding, or itself when it does not decode. */
  function Part(raw: Bytes): Bytes {
    match PercentDecoded(raw)
    case None => raw
    case Some(part) => part
  }

  const HERE: Bytes := [DOT]
  const PARENT: Bytes := [DOT, DOT]

  predicate IsPlainName(part: Bytes) {
    part != [] && !Has(part, SLASH) && !Has(part, BACKSLASH) && !Has(part, COLON) &&
    forall b :: b in part ==> b >= 0x20 && b != 0x7F
  }

  /** A name that can be a component of a returned path. */
  predicate IsComponent(part: Bytes) {
    IsPlainName(part) && part != HERE && part != PARENT
  }

  function Walk(raws: seq<Bytes>, output: seq<Bytes>): Option<seq<Bytes>> {
    if raws == [] then Some(output)
    else
      var part := Part(raws[0]);
      if part == HERE then Walk(raws[1..], output)
      else if part == PARENT then
        if output == [] then None else Walk(raws[1..], output[..|output| - 1])
      else if IsPlainName(part) then Walk(raws[1..], output + [part])
      else None
  }

  function Raws(href: Bytes): seq<Bytes> {
    NonEmpty(SplitAt(BeforeFragment(href), SLASH))
  }

  function SafePath(href: Bytes): Option<Bytes> {
    match Walk(Raws(href), [])
    case None => None
    case Some(output) => if output == [] then None else Some(Join(output, SLASH))
  }

  method SafePublicationPath(href: Bytes) returns (path: Option<Bytes>)
    ensures path == SafePath(href)
  {
    hide Part, IsPlainName, Raws;
    var raws := Raws(href);
    var output: seq<Bytes> := [];
    assert raws[0..] == raws;
    for n := 0 to |raws|
      invariant Walk(raws, []) == Walk(raws[n..], output)
    {
      assert raws[n..][1..] == raws[n + 1..];
      var part := Part(raws[n]);
      if part == HERE { continue; }
      if part == PARENT {
        if output == [] { return None; }
        output := output[..|output| - 1];
      } else {
        if !IsPlainName(part) { return None; }
        output := output + [part];
      }
    }
    path := if output == [] then None else Some(Join(output, SLASH));
  }

  function EncodedAll(parts: seq<Bytes>): seq<Bytes> {
    seq(|parts|, i requires 0 <= i < |parts| => PercentEncoded(parts[i]))
  }

  function PercentEncodedPath(path: Bytes): Bytes {
    Join(EncodedAll(NonEmpty(SplitAt(path, SLASH))), SLASH)
  }

  // ---------------------------------------------------------------- containment

  ghost predicate Components(parts: seq<Bytes>) {
    forall i :: 0 <= i < |parts| ==> IsComponent(parts[i])
  }

  lemma {:induction false} WalkComponents(raws: seq<Bytes>, output: seq<Bytes>)
    requires Components(output) && Walk(raws, output).Some?
    ensures Components(Walk(raws, output).value)
  {
    if raws != [] {
      var part := Part(raws[0]);
      if part == HERE {
        WalkComponents(raws[1..], output);
      } else if part == PARENT {
        WalkComponents(raws[1..], output[..|output| - 1]);
      } else {
        WalkComponents(raws[1..], output + [part]);
      }
    }
  }

  /** Steps down minus steps up in a list of raw parts. */
  function Depth(raws: seq<Bytes>): int {
    if raws == [] then 0
    else
      var part := Part(raws[|raws| - 1]);
      Depth(raws[..|raws| - 1]) + (if part == HERE then 0 else if part == PARENT then -1 else 1)
  }

  /** A part that is neither a name nor a step. */
  predicate IsForbidden(raw: Bytes) {
    var part := Part(raw);
    part != HERE && part != PARENT && !IsPlainName(part)
  }

  ghost predicate LeavesRoot(raws: seq<Bytes>) {
    exists k :: 0 <= k <= |raws| && Depth(raws[..k]) < 0
  }

  /** The walk fails exactly when a part is forbidden or some prefix steps above the root. */
  lemma {:induction false} WalkMeaning(raws: seq<Bytes>, n: nat, output: seq<Bytes>)
    requires n <= |raws| && |output| == Depth(raws[..n])
    requires forall k :: 0 <= k <= n ==> Depth(raws[..k]) >= 0
    requires forall k :: 0 <= k < n ==> !IsForbidden(raws[k])
    ensures Walk(raws[n..], output) == None
        <==> LeavesRoot(raws) || exists k :: 0 <= k < |raws| && IsForbidden(raws[k])
    ensures Walk(raws[n..], output).Some? ==> |Walk(raws[n..], output).value| == Depth(raws)
    decreases |raws| - n
  {
    hide Part, IsPlainName;
    if n == |raws| {
      assert raws[..n] == raws;
    } else {
      assert raws[..n + 1][..n] == raws[..n] && raws[n..][1..] == raws[n + 1..];
      var part := Part(raws[n]);
      if part == HERE {
        WalkMeaning(raws, n + 1, output);
      } else if part == PARENT {
        if output == [] {
          assert Depth(raws[..n + 1]) == -1;
        } else {
          WalkMeaning(raws, n + 1, output[..|output| - 1]);
        }
      } else if IsPlainName(part) {
        WalkMeaning(raws, n + 1, output + [part]);
      } else {
        assert IsForbidden(raws[n]);
      }
    }
  }

  /** What a returned path is made of. */
  ghost predicate IsSafe(path: Bytes) {
    path != [] && Components(SplitAt(path, SLASH))
  }

  /** The decoded parts that an accepted link joins. */
  function Parts(href: Bytes): seq<Bytes>
    requires SafePath(href).Some?
  {
    Walk(Raws(href), []).value
  }

  /**
   A link is accepted exactly when it never steps above the publication root, has no forbidden part and
   names something; then the result joins plain names, and splits into plain names again.
   */
  lemma SafePathStaysInside(href: Bytes)
    ensures SafePath(href).Some? <==>
              !LeavesRoot(Raws(href)) && Depth(Raws(href)) > 0 && forall raw :: raw in Raws(href) ==> !IsForbidden(raw)
    ensures SafePath(href).Some? ==>
              SafePath(href).value == Join(Parts(href), SLASH) && Components(Parts(href)) &&
              |Parts(href)| == Depth(Raws(href)) && IsSafe(SafePath(href).value)
  {
    hide Walk, Depth, IsForbidden, LeavesRoot, Raws, Components, IsSafe, Join;
    var raws := Raws(href);
    WalkFromRoot(raws);
    if SafePath(href).Some? { JoinedIsSafe(Walk(raws, []).value); }
  }

  lemma WalkFromRoot(raws: seq<Bytes>)
    ensures Walk(raws, []) == None <==> LeavesRoot(raws) || exists raw :: raw in raws && IsForbidden(raw)
    ensures Walk(raws, []).Some? ==> |Walk(raws, []).value| == Depth(raws) && Components(Walk(raws, []).value)
  {
    hide Walk, IsForbidden;
    assert raws[0..] == raws && raws[..0] == [];
    WalkMeaning(raws, 0, []);
    assert (exists k :: 0 <= k < |raws| && IsForbidden(raws[k])) <==> exists raw :: raw in raws && IsForbidden(raw);
    if Walk(raws, []).Some? { WalkComponents(raws, []); }
  }

  lemma JoinedIsSafe(output: seq<Bytes>)
    requires output != [] && Components(output)
    ensures IsSafe(Join(output, SLASH))
  {
    hide IsPlainName, Has, Join;
    var path := Join(output, SLASH);
    var pieces := SplitAt(path, SLASH);
    PiecesAreNamed([], output);
    assert pieces[0] in pieces && path != [] by { EmptyJoin(output); }
    forall k | 0 <= k < |pieces|
      ensures IsComponent(pieces[k])
    {
      assert pieces[k] in pieces;
      PieceIsPlain(output, pieces[k]);
    }
  }

  lemma EmptyJoin(output: seq<Bytes>)
    requires output != [] && Components(output)
    ensures Join(output, SLASH) != []
  {
    assert IsComponent(output[0]);
  }

  /** Each piece of joined names is one name, or several with fused separators between them. */
  lemma {:induction false} PiecesAreNamed(before: Bytes, output: seq<Bytes>)
    requires output != [] && Components(output)
    requires before == [] || before[|before| - 1] == SLASH
    ensures forall piece :: piece in SplitAfter(before, Join(output, SLASH), SLASH) ==>
              piece != [] && piece != HERE && piece != PARENT
    decreases |output|
  {
    hide Fused, SplitAfter, Has;
    var name := output[0];
    assert IsComponent(name);
    if |output| == 1 {
      SplitFirst(before, name, [], SLASH);
      NothingAfter(before + name, SLASH);
      assert name + [] == name;
    } else {
      var rest := Join(output[1..], SLASH);
      SplitAfterPart(before, name, rest, SLASH);
      OthersAreComponents(output);
      PiecesAreNamed(before + name + [SLASH], output[1..]);
      var tail := SplitAfter(before + name + [SLASH], rest, SLASH);
      assert (name + [SLASH] + tail[0])[|name|] == SLASH;
      assert forall piece :: piece in tail[1..] ==> piece in tail;
    }
  }

  lemma OthersAreComponents(names: seq<Bytes>)
    requires names != [] && Components(names)
    ensures Components(names[1..])
  {
    hide IsComponent;
    assert forall i :: 0 <= i < |names[1..]| ==> names[1..][i] == names[i + 1];
  }

  /** Nothing is in a piece of joined names that is not in a name. */
  lemma PieceIsPlain(output: seq<Bytes>, piece: Bytes)
    requires output != [] && Components(output) && piece in SplitAt(Join(output, SLASH), SLASH) && piece != []
    ensures IsPlainName(piece)
  {
    hide Has, Join, SplitAt;
    var pieces := SplitAt(Join(output, SLASH), SLASH);
    SplitAtHasNone(Join(output, SLASH), SLASH);
    JoinHas(pieces, SLASH, BACKSLASH);
    JoinHas(output, SLASH, BACKSLASH);
    JoinHas(pieces, SLASH, COLON);
    JoinHas(output, SLASH, COLON);
    assert forall part :: part in output ==> IsPlainName(part);
    forall b | b in piece
      ensures b >= 0x20 && b != 0x7F
    {
      JoinedBytes(pieces, SLASH, b);
      JoinedBytes(output, SLASH, b);
    }
  }

  lemma {:induction false} JoinedBytes(parts: seq<Bytes>, sep: Byte, b: Byte)
    ensures (exists part :: part in parts && b in part) ==> b in Join(parts, sep)
    ensures b in Join(parts, sep) ==> b == sep || exists part :: part in parts && b in part
  {
    if |parts| == 1 {
      assert parts == [parts[0]];
    } else if parts != [] {
      JoinedBytes(parts[1..], sep, b);
      assert parts == [parts[0]] + parts[1..];
    }
  }

  // ---------------------------------------------------------------- the round trip

  lemma {:induction false} WalkValid(raws: seq<Bytes>, output: seq<Bytes>)
    requires AllValid(raws) && AllValid(output) && Walk(raws, output).Some?
    ensures AllValid(Walk(raws, output).value)
  {
    if raws != [] {
      var part := Part(raws[0]);
      assert ValidUtf8(part) by { assert raws[0] in raws; }
      assert AllValid(raws[1..]);
      if part == HERE {
        WalkValid(raws[1..], output);
      } else if part == PARENT {
        WalkValid(raws[1..], output[..|output| - 1]);
      } else {
        WalkValid(raws[1..], output + [part]);
      }
    }
  }

  lemma RawsValid(href: Bytes)
    requires ValidUtf8(href)
    ensures AllValid(Raws(href))
  {
    hide ValidUtf8, SplitAt, Join;
    var pieces := SplitAt(href, HASH);
    JoinedValid(pieces, HASH);
    assert pieces[0] in pieces;
    JoinedValid(SplitAt(BeforeFragment(href), SLASH), SLASH);
  }

  lemma PartEncoded(name: Bytes)
    requires ValidUtf8(name)
    ensures Part(PercentEncoded(name)) == name
  {
    UnescapedEncoded(name);
  }

  /** Walking the encodings of plain names rebuilds the names. */
  lemma {:induction false} WalkEncoded(names: seq<Bytes>, output: seq<Bytes>)
    requires Components(names) && AllValid(names)
    ensures Walk(EncodedAll(names), output) == Some(output + names)
  {
    hide Part, IsPlainName, PercentEncoded;
    if names == [] {
      assert EncodedAll(names) == [] && output + names == output;
    } else {
      var rest := names[1..];
      assert EncodedAll(names)[1..] == EncodedAll(rest);
      assert names[0] in names && IsComponent(names[0]);
      PartEncoded(names[0]);
      OthersAreComponents(names);
      WalkEncoded(rest, output + [names[0]]);
      assert output + [names[0]] + rest == output + names;
    }
  }

  lemma {:induction false} NonEmptyAll(parts: seq<Bytes>)
    requires forall i :: 0 <= i < |parts| ==> parts[i] != []
    ensures NonEmpty(parts) == parts
  {
    if parts != [] {
      assert forall i :: 0 <= i < |parts[1..]| ==> parts[1..][i] == parts[i + 1];
      NonEmptyAll(parts[1..]);
    }
  }

  lemma EncodedRaws(names: seq<Bytes>)
    requires Components(names) && names != []
    ensures Raws(Join(EncodedAll(names), SLASH)) == EncodedAll(names)
  {
    var encoded := EncodedAll(names);
    forall i | 0 <= i < |encoded|
      ensures SLASH !in encoded[i] && HASH !in encoded[i] && encoded[i] != []
    {
      assert IsComponent(names[i]);
      EncodedIsPlain(names[i]);
    }
    JoinFree(encoded, SLASH, HASH);
    EncodedAllAscii(names);
    AsciiSplit([], Join(encoded, SLASH), HASH);
    AsciiSplit([], Join(encoded, SLASH), SLASH);
    SplitPiece(Join(encoded, SLASH), HASH);
    SplitJoin(encoded, SLASH);
    NonEmptyAll(encoded);
  }

  lemma EncodedAllAscii(names: seq<Bytes>)
    ensures IsAscii(Join(EncodedAll(names), SLASH))
  {
    var encoded := EncodedAll(names);
    forall b | b in Join(encoded, SLASH)
      ensures b < 0x80
    {
      JoinedBytes(encoded, SLASH, b);
      if part :| part in encoded && b in part {
        var n :| 0 <= n < |encoded| && encoded[n] == part;
        EncodedIsAscii(names[n]);
      }
    }
  }

  lemma {:induction false} JoinFree(parts: seq<Bytes>, sep: Byte, c: Byte)
    requires c != sep && forall i :: 0 <= i < |parts| ==> c !in parts[i]
    ensures c !in Join(parts, sep)
  {
    if |parts| > 1 {
      assert forall i :: 0 <= i < |parts[1..]| ==> parts[1..][i] == parts[i + 1];
      JoinFree(parts[1..], sep, c);
    }
  }

  /** Every path the walk can return is rebuilt from its own percent-encoded form. */
  lemma EncodedPathRoundTrip(href: Bytes)
    requires ValidUtf8(href) && SafePath(href).Some?
    ensures SafePath(PercentEncodedPath(SafePath(href).value)) == SafePath(href)
  {
    hide Walk, Raws, IsComponent, ValidUtf8, SplitAt, Join;
    SafePathStaysInside(href);
    RawsValid(href);
    WalkValid(Raws(href), []);
    var path := SafePath(href).value;
    JoinedValid(Parts(href), SLASH);
    var names := SplitAt(path, SLASH);
    JoinedValid(names, SLASH);
    NamesNotEmpty(names);
    NonEmptyAll(names);
    EncodedRaws(names);
    WalkEncoded(names, []);
    assert [] + names == names;
  }

  lemma NamesNotEmpty(names: seq<Bytes>)
    requires Components(names)
    ensures forall i :: 0 <= i < |names| ==> names[i] != []
  {
    hide Has;
    assert forall i :: 0 <= i < |names| ==> IsComponent(names[i]);
  }
}
