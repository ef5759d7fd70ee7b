/** Paths stored relative to the app's container, which the system can spell in two ways. */
module LocalPath {
  import opened Options
  import opened OfflineBookModels

  /** `/private/var` and `/var` are one place. */
  function Comparable(url: Url): Url {
    if |url| > 2 && url[0] == "/" && url[1] == "private" && url[2] == "var" then ["/"] + url[2..] else url
  }

  /** Two locations are one place exactly when they are equal, or differ in the spelling of `/var`. */
  lemma SamePlace(a: Url, b: Url)
    ensures Comparable(a) == Comparable(b) <==>
              a == b || exists rest: Url :: {a, b} == {["/", "var"] + rest, ["/", "private", "var"] + rest}
  {
    if Comparable(a) == Comparable(b) && a != b {
      var rest := Comparable(a)[2..];
      Spelled(a);
      Spelled(b);
      assert {a, b} == {["/", "var"] + rest, ["/", "private", "var"] + rest};
    }
    if rest: Url :| {a, b} == {["/", "var"] + rest, ["/", "private", "var"] + rest} {
      Respelled(rest);
      assert a in {a, b} && b in {a, b};
    }
  }

  lemma Spelled(url: Url)
    ensures Comparable(url) != url ==>
              |Comparable(url)| >= 2 && Comparable(url) == ["/", "var"] + Comparable(url)[2..] &&
              url == ["/", "private", "var"] + Comparable(url)[2..]
  {
    if Comparable(url) != url { assert url[2..][1..] == url[3..] && Comparable(url)[2..] == url[3..]; }
  }

  lemma Respelled(rest: Url)
    ensures Comparable(["/", "private", "var"] + rest) == Comparable(["/", "var"] + rest) == ["/", "var"] + rest
  {
    var long, short := ["/", "private", "var"] + rest, ["/", "var"] + rest;
    assert long[0] == "/" && long[1] == "private" && long[2] == "var" && long[2..] == ["var"] + rest;
    NotPrivate(short);
    assert ["/"] + (["var"] + rest) == short;
  }

  lemma NotPrivate(url: Url)
    requires |url| >= 2 && url[1] == "var"
    ensures Comparable(url) == url
  {
    assert "var"[0] != "private"[0];
  }

  function RelativeLocalPath(url: Url, home: Url): Option<Url> {
    var root, target := Comparable(home), Comparable(url);
    if |target| > |root| && root <= target then Some(target[|root|..]) else None
  }

  function LocalUrl(relative: Url, home: Url): Url {
    home + relative
  }

  /** A stored relative path resolves to the place it was taken from, whatever the spelling. */
  lemma StoredPathResolves(url: Url, home: Url)
    requires RelativeLocalPath(url, home).Some?
    ensures RelativeLocalPath(url, home).value != []
    ensures Comparable(LocalUrl(RelativeLocalPath(url, home).value, home)) == Comparable(url)
  {
    var root, target := Comparable(home), Comparable(url);
    var relative := target[|root|..];
    assert target == root + relative;
    if root == home {
      assert LocalUrl(relative, home) == target;
    } else {
      assert LocalUrl(relative, home)[2..] == home[2..] + relative;
      assert target == ["/"] + (home[2..] + relative);
    }
  }

  /** Only proper descendants of the container, in either spelling, have a relative path. */
  lemma RelativePathIffDescendant(url: Url, home: Url)
    ensures RelativeLocalPath(url, home).Some? <==>
              exists below: Url :: below != [] && Comparable(url) == Comparable(home) + below
  {
    var root, target := Comparable(home), Comparable(url);
    if RelativeLocalPath(url, home).Some? {
      assert target == root + target[|root|..];
    }
  }

  lemma ChildrenDiffer(directory: Url, a: string, b: string)
    requires Comparable(directory + [a]) == Comparable(directory + [b])
    ensures a == b
  {
    var left, right := directory + [a], directory + [b];
    assert left[|directory|] == a && right[|directory|] == b;
    var cleft, cright := Comparable(left), Comparable(right);
    assert cleft[|cleft| - 1] == a && cright[|cright| - 1] == b;
  }
}
