/**
 What the file system makes of a returned path: it steps at every `/`, also at one that a combining mark or a
 prepended scalar makes part of a larger Character, which the walk of PublicationPath does not see.
 */
module PublicationLevels {
  import opened Options
  import opened Text
  import opened Characters
  import opened PublicationPath

  /** The level that steps lead to, below or above the directory they start from. */
  function Level(steps: seq<Bytes>): int {
    if steps == [] then 0
    else
      var last := steps[|steps| - 1];
      Level(steps[..|steps| - 1]) + (if last == [] || last == HERE then 0 else if last == PARENT then -1 else 1)
  }

  function Steps(path: Bytes): (steps: seq<Bytes>)
    ensures |steps| >= 1 && Join(steps, SLASH) == path
  {
    Split(path, SLASH)
  }

  /** Starting at `base`, no prefix of the steps goes below `low`. */
  ghost predicate StaysAbove(steps: seq<Bytes>, base: int, low: int) {
    forall k :: 0 <= k <= |steps| ==> base + Level(steps[..k]) >= low
  }

  /** Some step of the path goes above the directory it starts from. */
  ghost predicate LeavesDirectory(path: Bytes) {
    !StaysAbove(Steps(path), 0, 0)
  }

  lemma {:induction false} LevelConcat(left: seq<Bytes>, right: seq<Bytes>)
    ensures Level(left + right) == Level(left) + Level(right)
  {
    if right == [] {
      assert left + right == left;
    } else {
      assert (left + right)[..|left + right| - 1] == left + right[..|right| - 1];
      LevelConcat(left, right[..|right| - 1]);
    }
  }

  lemma AboveConcat(left: seq<Bytes>, right: seq<Bytes>, base: int, low: int)
    requires StaysAbove(left, base, low)
    ensures StaysAbove(left + right, base, low) <==> StaysAbove(right, base + Level(left), low)
  {
    hide Level;
    forall k | 0 <= k <= |right|
      ensures Level((left + right)[..|left| + k]) == Level(left) + Level(right[..k])
    {
      assert (left + right)[..|left| + k] == left + right[..k];
      LevelConcat(left, right[..k]);
    }
    var whole := left + right;
    if StaysAbove(right, base + Level(left), low) {
      forall k | 0 <= k <= |whole|
        ensures base + Level(whole[..k]) >= low
      {
        if k <= |left| {
          assert whole[..k] == left[..k];
        } else {
          var n := k - |left|;
          assert whole[..|left| + n] == whole[..k] && base + Level(left) + Level(right[..n]) >= low;
        }
      }
    }
    if StaysAbove(whole, base, low) {
      forall k | 0 <= k <= |right|
        ensures base + Level(left) + Level(right[..k]) >= low
      {
        assert base + Level(whole[..|left| + k]) >= low;
      }
    }
  }

  lemma {:induction false} StepsConcat(left: Bytes, right: Bytes)
    ensures Steps(left + [SLASH] + right) == Steps(left) + Steps(right)
  {
    hide Split, Join;
    if left == [] {
      SplitAtSeparator(right, SLASH);
      SplitPiece(left, SLASH);
      assert left + [SLASH] + right == [SLASH] + right;
    } else {
      var tail := left[1..];
      StepsConcat(tail, right);
      assert left + [SLASH] + right == [left[0]] + (tail + [SLASH] + right) && left == [left[0]] + tail;
      if left[0] == SLASH {
        SplitAtSeparator(tail, SLASH);
        SplitAtSeparator(tail + [SLASH] + right, SLASH);
      } else {
        SplitGrows(left[0], tail, SLASH);
        SplitGrows(left[0], tail + [SLASH] + right, SLASH);
      }
    }
  }

  /** The separators that the text hides join its steps into Characters. */
  lemma {:induction false} StepsFuse(before: Bytes, text: Bytes)
    requires AllFused(before, text, [], SLASH)
    ensures var steps := Steps(text);
            |steps| > 1 ==> Fused(before + steps[0], steps[1])
    ensures var steps := Steps(text);
            forall k :: 2 <= k < |steps| ==> Fused(steps[k - 1], steps[k])
    decreases |text|
  {
    hide Fused, AllFused, Join;
    if text != [] {
      var tail := text[1..];
      var rest := Steps(tail);
      AllFusedTail(before, text, [], SLASH);
      StepsFuse(before + [text[0]], tail);
      assert text == [text[0]] + tail && tail + [] == tail;
      if text[0] == SLASH {
        SplitAtSeparator(tail, SLASH);
        FirstPieceFused(before, tail, rest, SLASH);
        assert before + [] == before;
        if |rest| > 1 { FusedFrom(before, SLASH, rest[0], rest[1]); }
      } else {
        SplitGrows(text[0], tail, SLASH);
        assert before + [text[0]] + rest[0] == before + ([text[0]] + rest[0]);
      }
    }
  }

  lemma StepsOfName(name: Bytes)
    requires !Has(name, SLASH)
    ensures var steps := Steps(name);
            forall k :: 1 <= k < |steps| ==> Fused(steps[k - 1], steps[k])
  {
    hide Has, Fused, AllFused, Steps;
    PartIsFused([], name, [], SLASH);
    StepsFuse([], name);
    assert [] + Steps(name)[0] == Steps(name)[0];
  }

  predicate IsDown(step: Bytes) {
    step != [] && step != HERE && step != PARENT
  }

  lemma MarkIsDown(step: Bytes)
    requires StartsWithMark(step)
    ensures IsDown(step)
  {
    var mark :| mark in MARKS && Attaches(mark) && mark <= step;
    assert mark[0] in mark;
  }

  lemma FirstLevel(steps: seq<Bytes>)
    requires steps != []
    ensures Level(steps[..1]) == if steps[0] == [] || steps[0] == HERE then 0 else if steps[0] == PARENT then -1 else 1
  {
    var first := steps[..1];
    assert first[..0] == [];
  }

  lemma PrependedIsDown(step: Bytes)
    requires EndsWithPrepended(step)
    ensures IsDown(step)
  {
    var scalar :| scalar in PREPENDED && Attaches(scalar) && EndsWith(step, scalar);
    var last := |scalar| - 1;
    assert scalar[last] in scalar && step[|step| - |scalar|..][last] == step[|step| - 1];
  }

  /** A scalar that hides a separator makes a name of the step it is in. */
  lemma FusedIsDown(step: Bytes, next: Bytes)
    requires Fused(step, next)
    ensures IsDown(step) || IsDown(next)
  {
    hide StartsWithMark, EndsWithPrepended;
    if StartsWithMark(next) { MarkIsDown(next); } else { PrependedIsDown(step); }
  }

  /** Steps joined into Characters lead down, but for a step up at their start. */
  lemma {:induction false} FusedLevels(steps: seq<Bytes>, n: nat)
    requires 1 <= n <= |steps| && forall k :: 1 <= k < |steps| ==> Fused(steps[k - 1], steps[k])
    ensures var low := if steps[0] == PARENT then -1 else 0;
            Level(steps[..n]) >= if IsDown(steps[n - 1]) then low + 1 else low
  {
    hide Fused;
    if n == 1 {
      FirstLevel(steps);
    } else {
      FusedLevels(steps, n - 1);
      FusedIsDown(steps[n - 2], steps[n - 1]);
      assert steps[..n][..n - 1] == steps[..n - 1];
    }
  }

  lemma LevelsOfName(name: Bytes)
    requires IsComponent(name)
    ensures var steps := Steps(name);
            var low := if steps[0] == PARENT then -1 else 0;
            Level(steps) >= low && StaysAbove(steps, 0, low)
  {
    hide Has, Fused, Steps, Level, IsDown;
    var steps := Steps(name);
    var low := if steps[0] == PARENT then -1 else 0;
    StepsOfName(name);
    forall k | 0 <= k <= |steps|
      ensures Level(steps[..k]) >= low
    {
      if k == 0 { NoLevel(steps); } else { FusedLevels(steps, k); }
    }
    assert steps[..|steps|] == steps;
  }

  lemma NoLevel(steps: seq<Bytes>)
    ensures Level(steps[..0]) == 0
  {
  }

  /** What the first `k` names lead to. */
  function LevelAt(names: seq<Bytes>, k: nat): int
    requires k <= |names|
  {
    Level(Steps(Join(names[..k], SLASH)))
  }

  lemma LevelAtNext(names: seq<Bytes>, k: nat)
    requires k < |names|
    ensures LevelAt(names, k + 1) == Level(Steps(names[0])) + LevelAt(names[1..], k)
    ensures LevelAt(names, 0) == 0
  {
    hide Steps;
    var left := names[..k + 1];
    assert left[1..] == names[1..][..k] && left[0] == names[0] && names[..0] == [];
    NoSteps();
    if k > 0 {
      var rest := Join(left[1..], SLASH);
      StepsConcat(names[0], rest);
      LevelConcat(Steps(names[0]), Steps(rest));
    }
  }

  lemma NoSteps()
    ensures Level(Steps([])) == 0
  {
    var steps := Steps([]);
    FirstLevel(steps);
    assert steps == steps[..1];
  }

  /** Starting at `base`, the names before the `k`th lead no deeper than level 0, and it begins with a step up. */
  ghost predicate UpAt(names: seq<Bytes>, k: nat, base: int)
    requires k < |names|
  {
    PARENT + [SLASH] <= names[k] && base + LevelAt(names, k) <= 0
  }

  lemma {:induction false} NamesLeave(names: seq<Bytes>, base: nat)
    requires names != [] && Components(names)
    ensures !StaysAbove(Steps(Join(names, SLASH)), base, 0) <==> exists k: nat :: k < |names| && UpAt(names, k, base)
    decreases |names|
  {
    hide IsPlainName, Level, StaysAbove, Steps, LevelAt;
    var name, rest := names[0], names[1..];
    var steps := Steps(name);
    assert IsComponent(name);
    LevelsOfName(name);
    StepsStartWith(name);
    LevelAtNext(names, 0);
    if steps[0] == PARENT && base == 0 {
      assert UpAt(names, 0, base);
      FirstStep(names);
      NotParent(names);
      StepsStartWith(Join(names, SLASH));
    } else {
      var level := base + Level(steps);
      Shifted(steps, 0, if steps[0] == PARENT then -1 else 0, base);
      Lower(steps, base, if steps[0] == PARENT then base - 1 else base, 0);
      if rest != [] {
        OthersAreComponents(names);
        NamesLeave(rest, level);
        StepsConcat(name, Join(rest, SLASH));
        AboveConcat(steps, Steps(Join(rest, SLASH)), base, 0);
      }
      forall k: nat | k < |rest|
        ensures UpAt(names, k + 1, base) <==> UpAt(rest, k, level)
      {
        LevelAtNext(names, k);
      }
      if k: nat :| k < |names| && UpAt(names, k, base) { assert UpAt(rest, k - 1, level); }
      if k: nat :| k < |rest| && UpAt(rest, k, level) { assert UpAt(names, k + 1, base); }
    }
  }

  /** Each separator that the name hides has a mark after it. */
  ghost predicate HiddenByMarks(name: Bytes) {
    forall k :: 1 <= k < |Steps(name)| ==> StartsWithMark(Steps(name)[k])
  }

  lemma {:induction false} StepsDown(steps: seq<Bytes>, n: nat)
    requires 1 <= n <= |steps| && forall k :: 1 <= k < |steps| ==> StartsWithMark(steps[k])
    ensures Level(steps[..n]) == Level(steps[..1]) + n - 1
  {
    hide StartsWithMark;
    if n > 1 {
      StepsDown(steps, n - 1);
      MarkIsDown(steps[n - 1]);
      assert steps[..n][..n - 1] == steps[..n - 1];
    }
  }

  /** A name leads down, but for a step up first when it starts with `..` and a hidden separator. */
  lemma MarkedLevels(name: Bytes)
    requires IsComponent(name) && HiddenByMarks(name)
    ensures var steps := Steps(name);
            Level(steps) >= 0 && StaysAbove(steps, 0, -1) &&
            (steps[0] != PARENT ==> Level(steps) >= 1 && StaysAbove(steps, 0, 0))
  {
    hide Has, StartsWithMark, Join, Steps;
    var steps := Steps(name);
    assert Level(steps[..1]) >= -1 && (steps[0] != PARENT ==> Level(steps[..1]) >= 0) by {
      FirstLevel(steps);
    }
    assert |steps| == 1 ==> steps[0] == name && Level(steps[..1]) == 1 by {
      if |steps| == 1 { SingleStep(steps, name); }
    }
    forall k | 0 <= k <= |steps|
      ensures Level(steps[..k]) >= -1 && (steps[0] != PARENT ==> Level(steps[..k]) >= 0)
    {
      if k > 0 { StepsDown(steps, k); }
    }
    StepsDown(steps, |steps|);
    assert steps[..|steps|] == steps;
  }

  lemma SingleStep(steps: seq<Bytes>, name: Bytes)
    requires |steps| == 1 && Join(steps, SLASH) == name && IsComponent(name)
    ensures steps[0] == name && Level(steps[..1]) == 1
  {
    FirstLevel(steps);
  }

  lemma {:induction false} MarkedNamesLevels(names: seq<Bytes>, base: nat)
    requires names != [] && Components(names) && forall name :: name in names ==> HiddenByMarks(name)
    ensures StaysAbove(Steps(Join(names, SLASH)), base, base - 1)
    ensures Steps(names[0])[0] != PARENT ==> StaysAbove(Steps(Join(names, SLASH)), base, base)
    decreases |names|
  {
    hide IsComponent, HiddenByMarks, Level, StaysAbove, Steps;
    var first := names[0];
    MarkedLevels(first);
    var steps := Steps(first);
    Shifted(steps, 0, -1, base);
    if steps[0] != PARENT { Shifted(steps, 0, 0, base); }
    if |names| > 1 {
      var rest := Join(names[1..], SLASH);
      assert Join(names, SLASH) == first + [SLASH] + rest;
      OthersAreComponents(names);
      StepsConcat(first, rest);
      var level := base + Level(steps);
      MarkedNamesLevels(names[1..], level);
      Lower(Steps(rest), level, level - 1, base - 1);
      AboveConcat(steps, Steps(rest), base, base - 1);
      if steps[0] != PARENT {
        Lower(Steps(rest), level, level - 1, base);
        AboveConcat(steps, Steps(rest), base, base);
      }
    }
  }

  lemma Shifted(steps: seq<Bytes>, base: int, low: int, up: int)
    requires StaysAbove(steps, base, low)
    ensures StaysAbove(steps, base + up, low + up)
  {
  }

  lemma Lower(steps: seq<Bytes>, base: int, low: int, lower: int)
    requires StaysAbove(steps, base, low) && lower <= low
    ensures StaysAbove(steps, base, lower)
  {
  }

  /** How many names begin with `..` and a separator they hide. */
  function Ups(names: seq<Bytes>): (n: int)
    ensures 0 <= n <= |names|
  {
    if names == [] then 0 else (if PARENT + [SLASH] <= names[0] then 1 else 0) + Ups(names[1..])
  }

  /** Each such name leads up by one level at most. */
  lemma {:induction false} OneLevelEach(names: seq<Bytes>, base: int)
    requires names != [] && Components(names)
    ensures StaysAbove(Steps(Join(names, SLASH)), base, base - Ups(names))
    decreases |names|
  {
    hide IsPlainName, Level, StaysAbove, Steps;
    var name, rest := names[0], names[1..];
    var steps := Steps(name);
    assert IsComponent(name);
    LevelsOfName(name);
    StepsStartWith(name);
    var low := if steps[0] == PARENT then -1 else 0;
    Shifted(steps, 0, low, base);
    Lower(steps, base, base + low, base - Ups(names));
    if rest != [] {
      OthersAreComponents(names);
      var level := base + Level(steps);
      OneLevelEach(rest, level);
      Lower(Steps(Join(rest, SLASH)), level, level - Ups(rest), base - Ups(names));
      StepsConcat(name, Join(rest, SLASH));
      AboveConcat(steps, Steps(Join(rest, SLASH)), base, base - Ups(names));
    }
  }

  /**
   An accepted link leaves the directory exactly when a part that begins with `..` and a separator it hides
   is joined where the parts before it lead no deeper than the directory; each such part leads up by one
   level at most.
   */
  lemma LeavesDirectoryIff(href: Bytes)
    requires SafePath(href).Some?
    ensures LeavesDirectory(SafePath(href).value) <==>
              exists k: nat :: k < |Parts(href)| && UpAt(Parts(href), k, 0)
    ensures StaysAbove(Steps(SafePath(href).value), 0, -Ups(Parts(href)))
  {
    hide SafePath, Parts, Components, IsSafe, Depth, LeavesRoot, IsForbidden, Raws, StaysAbove, Steps, UpAt, Ups, Join;
    SafePathStaysInside(href);
    NamedPath(href);
    NamesLeave(Parts(href), 0);
    OneLevelEach(Parts(href), 0);
  }

  lemma NamedPath(href: Bytes)
    requires SafePath(href).Some?
    ensures Parts(href) != []
  {
    hide Walk, Raws;
  }

  /** Where marks hide the separators, only the first part can lead out, and by one level. */
  lemma LeavesByOneLevel(href: Bytes)
    requires SafePath(href).Some? && forall part :: part in Parts(href) ==> HiddenByMarks(part)
    ensures LeavesDirectory(SafePath(href).value) <==> PARENT + [SLASH] <= SafePath(href).value
    ensures StaysAbove(Steps(SafePath(href).value), 0, -1)
  {
    hide Walk, Raws, HiddenByMarks, IsComponent, Join, Steps, Level;
    SafePathStaysInside(href);
    var path, names := SafePath(href).value, Parts(href);
    MarkedNamesLevels(names, 0);
    FirstStep(names);
    NotParent(names);
    StepsStartWith(path);
  }

  // ---------------------------------------------------------------- links that lead out

  /** No byte that is forbidden in a part; a separator in it need not be a Character. */
  predicate Harmless(s: Bytes) {
    forall b :: b in s ==> b >= 0x20 && b != 0x7F && b != BACKSLASH && b != COLON
  }

  /** A separator that is hidden between two texts makes one part of them. */
  lemma HiddenInside(left: Bytes, right: Bytes)
    requires Harmless(left) && Harmless(right) && !Has(left, SLASH) && !Has(right, SLASH) && Fused(left, right)
    requires ValidUtf8(left) && ValidUtf8(right)
    ensures var part := left + [SLASH] + right;
            Harmless(part) && !Has(part, SLASH) && IsComponent(part) && ValidUtf8(part)
  {
    hide Has, Fused, ValidUtf8, HasAfter;
    var part := left + [SLASH] + right;
    HasIsAfterNothing(part, SLASH);
    HasIsAfterNothing(left, SLASH);
    assert [] + left == left;
    HasConcat([], left, SLASH, right, SLASH);
    assert forall b :: b in part ==> b in left || b == SLASH || b in right;
    NotHeld(part, BACKSLASH);
    NotHeld(part, COLON);
    assert part[|left|] == SLASH;
    AsciiValid(SLASH);
    ConcatValid(left, [SLASH]);
    ConcatValid(left + [SLASH], right);
  }

  lemma ParentIsHarmless()
    ensures Harmless(PARENT) && !Has(PARENT, SLASH) && ValidUtf8(PARENT)
  {
    NotHeld(PARENT, SLASH);
    AsciiValid(DOT);
    ConcatValid([DOT], [DOT]);
    assert [DOT] + [DOT] == PARENT;
  }

  lemma HighIsHarmless(s: Bytes)
    requires forall b :: b in s ==> b >= 0x80
    ensures Harmless(s) && !Has(s, SLASH)
  {
    NotHeld(s, SLASH);
  }

  /** A link made of such parts is accepted, and gives them back. */
  lemma HiddenIsAccepted(parts: seq<Bytes>)
    requires parts != [] && forall part :: part in parts ==> IsComponent(part) && ValidUtf8(part)
    ensures SafePath(Join(EncodedAll(parts), SLASH)) == Some(Join(parts, SLASH))
  {
    hide Raws, Walk, IsComponent, ValidUtf8, Join;
    EncodedRaws(parts);
    WalkEncoded(parts, []);
    assert [] + parts == parts;
  }

  /** For any mark, `../` and the mark: it leads out by one level. */
  lemma HiddenSeparatorLeaves(mark: Bytes)
    requires mark in MARKS && mark != [] && (forall b :: b in mark ==> b >= 0x80) && ValidUtf8(mark)
    ensures var path := PARENT + [SLASH] + mark;
            SafePath(PercentEncoded(path)) == Some(path) && LeavesDirectory(path)
  {
    hide Has, ValidUtf8, SafePath;
    var path := PARENT + [SLASH] + mark;
    NothingIsValid();
    MarkedUp(mark, []);
    StepsStartWith(path);
    assert mark + [] == mark;
    HiddenIsAccepted([path]);
    assert EncodedAll([path]) == [PercentEncoded(path)];
  }

  lemma MarkedUp(mark: Bytes, more: Bytes)
    requires mark in MARKS && mark != [] && (forall b :: b in mark ==> b >= 0x80) && ValidUtf8(mark)
    requires (forall b :: b in more ==> b >= 0x80) && ValidUtf8(more)
    ensures var part := PARENT + [SLASH] + (mark + more);
            Harmless(part) && !Has(part, SLASH) && IsComponent(part) && ValidUtf8(part)
  {
    hide Has, ValidUtf8, EndsWithPrepended;
    ParentIsHarmless();
    HighIsHarmless(mark + more);
    ConcatValid(mark, more);
    assert mark <= mark + more && Attaches(mark) && StartsWithMark(mark + more);
    HiddenInside(PARENT, mark + more);
  }

  /** With a prepended scalar as well two parts lead out by two levels: more than one is possible. */
  lemma TwoLevelsUp(mark: Bytes, scalar: Bytes)
    requires mark in MARKS && mark != [] && (forall b :: b in mark ==> b >= 0x80) && ValidUtf8(mark)
    requires scalar in PREPENDED && scalar != [] && (forall b :: b in scalar ==> b >= 0x80) && ValidUtf8(scalar)
    ensures var parts := [PARENT + [SLASH] + (mark + scalar) + [SLASH] + PARENT, PARENT + [SLASH] + mark];
            SafePath(Join(EncodedAll(parts), SLASH)) == Some(Join(parts, SLASH)) &&
            !StaysAbove(Steps(Join(parts, SLASH)), 0, -1)
  {
    hide Has, ValidUtf8, SafePath, Steps, Level, IsComponent;
    var up := PARENT + [SLASH] + (mark + scalar);
    var first, second := up + [SLASH] + PARENT, PARENT + [SLASH] + mark;
    MarkedUp(mark, scalar);
    NothingIsValid();
    MarkedUp(mark, []);
    assert mark + [] == mark;
    ParentIsHarmless();
    EndsPrepended(PARENT + [SLASH] + mark, scalar);
    assert up == PARENT + [SLASH] + mark + scalar && Fused(up, PARENT);
    HiddenInside(up, PARENT);
    HiddenIsAccepted([first, second]);
    MarkedIsDown(mark, scalar);
    UpTwice(mark + scalar, mark);
    assert Join([first, second], SLASH) == first + [SLASH] + second;
  }

  lemma NothingIsValid()
    ensures ValidUtf8([])
  {
  }

  lemma MarkedIsDown(mark: Bytes, more: Bytes)
    requires mark != [] && forall b :: b in mark + more ==> b >= 0x80
    ensures IsDown(mark + more) && SLASH !in mark + more && SLASH !in mark
  {
    assert (mark + more)[0] == mark[0] && mark[0] in mark;
    assert forall b :: b in mark ==> b in mark + more;
  }

  lemma EndsPrepended(before: Bytes, scalar: Bytes)
    requires scalar in PREPENDED && Attaches(scalar)
    ensures EndsWithPrepended(before + scalar)
  {
    assert EndsWith(before + scalar, scalar);
  }

  lemma UpTwice(name: Bytes, last: Bytes)
    requires SLASH !in name && SLASH !in last && IsDown(name)
    ensures !StaysAbove(Steps(PARENT + [SLASH] + name + [SLASH] + PARENT + [SLASH] + (PARENT + [SLASH] + last)), 0, -1)
  {
    hide Steps;
    var path := PARENT + [SLASH] + name + [SLASH] + PARENT + [SLASH] + (PARENT + [SLASH] + last);
    StepsConcat(PARENT + [SLASH] + name + [SLASH] + PARENT, PARENT + [SLASH] + last);
    StepsConcat(PARENT + [SLASH] + name, PARENT);
    StepsConcat(PARENT, name);
    StepsConcat(PARENT, last);
    OneStep(PARENT);
    OneStep(name);
    OneStep(last);
    var steps := Steps(path);
    var ups: seq<Bytes> := [PARENT, name, PARENT, PARENT];
    assert steps == ups + [last] && steps[..4] == ups;
    LevelOfNext([], PARENT);
    LevelOfNext([PARENT], name);
    LevelOfNext([PARENT, name], PARENT);
    LevelOfNext([PARENT, name, PARENT], PARENT);
    assert [] + [PARENT] == [PARENT] && [PARENT] + [name] == [PARENT, name];
    assert [PARENT, name] + [PARENT] == [PARENT, name, PARENT] && [PARENT, name, PARENT] + [PARENT] == ups;
  }

  lemma LevelOfNext(steps: seq<Bytes>, next: Bytes)
    ensures Level(steps + [next]) ==
              Level(steps) + (if IsDown(next) then 1 else if next == PARENT then -1 else 0)
  {
    assert (steps + [next])[..|steps|] == steps;
  }

  lemma OneStep(name: Bytes)
    requires SLASH !in name
    ensures Steps(name) == [name]
  {
    SplitPiece(name, SLASH);
  }

  lemma NotParent(names: seq<Bytes>)
    requires names != [] && Components(names)
    ensures Join(names, SLASH) != PARENT
  {
    hide IsPlainName;
    assert IsComponent(names[0]);
    if |names| > 1 { assert Join(names, SLASH)[|names[0]|] == SLASH; }
  }

  lemma FirstStep(names: seq<Bytes>)
    requires names != [] && Components(names)
    ensures Steps(Join(names, SLASH))[0] == Steps(names[0])[0]
  {
    hide Steps, IsComponent;
    if |names| > 1 {
      assert Join(names, SLASH) == names[0] + [SLASH] + Join(names[1..], SLASH);
      StepsConcat(names[0], Join(names[1..], SLASH));
    }
  }

  /** A path whose first step is up goes above its directory; it begins with `../` unless it is `..` itself. */
  lemma StepsStartWith(path: Bytes)
    ensures Steps(path)[0] == PARENT ==> LeavesDirectory(path)
    ensures path != PARENT ==> (Steps(path)[0] == PARENT <==> PARENT + [SLASH] <= path)
  {
    hide Join;
    var steps := Steps(path);
    FirstLevel(steps);
    if PARENT + [SLASH] <= path {
      var rest := path[3..];
      assert path == PARENT + [SLASH] + rest;
      StepsConcat(PARENT, rest);
      SplitPiece(PARENT, SLASH);
    }
    if steps[0] == PARENT && path != PARENT { StartsUp(steps, path); }
  }

  lemma StartsUp(steps: seq<Bytes>, path: Bytes)
    requires steps != [] && steps[0] == PARENT && Join(steps, SLASH) == path && path != PARENT
    ensures PARENT + [SLASH] <= path
  {
    assert |steps| > 1;
    assert path == PARENT + [SLASH] + Join(steps[1..], SLASH);
  }
}
