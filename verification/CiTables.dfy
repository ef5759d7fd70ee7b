/** What the CI path tables mean for the paths of a diff: trees, files and name patterns, key by key. */
module CiTables {
  import opened Catalog
  import opened CiScope
  import Glob
  import GlobCompiler

  /** A path as git reports it. */
  predicate RepositoryPath(path: string) {
    Glob.InNormalForm(path) && '\n' !in path
  }

  predicate Below(directory: string, path: string) {
    directory + "/" <= path
  }

  predicate EndsWith(path: string, end: string) {
    |end| <= |path| && path[|path| - |end|..] == end
  }

  /** The path is the start and then the rest of one name. */
  predicate NameAfter(start: string, path: string) {
    start <= path && '/' !in path[|start|..]
  }

  // ---------------------------------------------------------------- kinds of patterns

  /** Text without special characters, from which a pattern in normal form is made. */
  predicate Plain(s: string) {
    s != "" && (s[0] == '.' ==> |s| > 1 && s[1] != '/') && forall i :: 0 <= i < |s| ==> s[i] !in {'*', '?', '{', '\\'}
  }

  lemma {:induction false} PlainGlob(plain: string, rest: string, path: string)
    requires forall i :: 0 <= i < |plain| ==> plain[i] != '*' && plain[i] != '?'
    ensures GlobCompiler.GlobMatch(plain + rest, path) <==>
              plain <= path && GlobCompiler.GlobMatch(rest, path[|plain|..])
  {
    if plain == "" {
      assert plain + rest == rest && path[|plain|..] == path;
    } else {
      var tail := plain[1..];
      assert (plain + rest)[0] == plain[0] && (plain + rest)[1..] == tail + rest;
      if path != "" {
        PlainGlob(tail, rest, path[1..]);
        PrefixStep(plain, path);
        if plain <= path { assert path[1..][|tail|..] == path[|plain|..]; }
      }
    }
  }

  lemma PrefixStep(a: string, b: string)
    requires a != "" && b != ""
    ensures a <= b <==> a[0] == b[0] && a[1..] <= b[1..]
  {
    assert a == [a[0]] + a[1..] && b == [b[0]] + b[1..];
    if a[0] == b[0] && a[1..] <= b[1..] { assert b[..|a|] == [b[0]] + b[1..][..|a| - 1]; }
    if a <= b { assert b[1..][..|a| - 1] == a[1..]; }
  }

  /** One pattern in normal form without braces. */
  lemma PatternMeans(pattern: string, path: string)
    requires RepositoryPath(path) && Glob.InNormalForm(pattern) && '{' !in pattern
    ensures GlobCompiler.Matches(path, [pattern]) <==> GlobCompiler.GlobMatch(pattern, path)
  {
    hide GlobCompiler.GlobMatch, GlobCompiler.Matches;
    GlobCompiler.MatchesMeaning(path, [pattern]);
    Glob.NormalFormFixed(path);
    Glob.NormalFormFixed(pattern);
    assert Glob.Expanded(pattern) == [pattern];
    assert GlobCompiler.ChoiceMatches(pattern, path) <==> GlobCompiler.GlobMatch(pattern, path);
  }

  lemma PlainMeans(plain: string, rest: string, path: string)
    requires RepositoryPath(path) && Plain(plain) && rest != "" && rest[|rest| - 1] == '*'
    requires '{' !in rest && '\\' !in rest
    ensures GlobCompiler.Matches(path, [plain + rest]) <==>
              plain <= path && GlobCompiler.GlobMatch(rest, path[|plain|..])
  {
    hide GlobCompiler.Matches;
    var pattern := plain + rest;
    assert pattern[|pattern| - 1] == '*';
    assert forall i :: 0 <= i < |plain| ==> pattern[i] == plain[i];
    assert forall i :: |plain| <= i < |pattern| ==> pattern[i] == rest[i - |plain|];
    assert |plain| >= 2 ==> pattern[..2] == plain[..2];
    PatternMeans(pattern, path);
    PlainGlob(plain, rest, path);
  }

  /** `dir/` followed by two stars: everything below the directory. */
  lemma TreeMeans(directory: string, path: string)
    requires RepositoryPath(path) && Plain(directory)
    ensures GlobCompiler.Matches(path, [directory + "/**"]) <==> Below(directory, path)
  {
    hide GlobCompiler.Matches;
    PlainMeans(directory, "/**", path);
    if directory <= path {
      SlashThenAnything(path[|directory|..]);
      assert path == directory + path[|directory|..];
    }
  }

  lemma SlashThenAnything(path: string)
    ensures GlobCompiler.GlobMatch("/**", path) <==> "/" <= path
  {
    var pattern := "/**";
    assert pattern[0] == '/' && pattern[1..] == "**";
    PlainGlob("/", "**", path);
    assert "/" + "**" == pattern;
    if path != "" { AnythingMeans(path[1..]); }
  }

  lemma AnythingMeans(path: string)
    ensures GlobCompiler.GlobMatch("**", path)
  {
    assert "**"[2..] == "" && path[|path|..] == "";
    assert GlobCompiler.GlobMatch("", path[|path|..]);
  }

  /** A plain pattern: that file. */
  lemma FileMeans(file: string, path: string)
    requires RepositoryPath(path) && Plain(file) && Glob.InNormalForm(file)
    ensures GlobCompiler.Matches(path, [file]) <==> path == file
  {
    hide GlobCompiler.Matches;
    PatternMeans(file, path);
    PlainGlob(file, "", path);
    assert file + "" == file;
  }

  /** A plain start and one star: the rest of one name. */
  lemma NameMeans(start: string, path: string)
    requires RepositoryPath(path) && Plain(start)
    ensures GlobCompiler.Matches(path, [start + "*"]) <==> NameAfter(start, path)
  {
    hide GlobCompiler.Matches;
    PlainMeans(start, "*", path);
    if start <= path { StarMeans(path[|start|..]); }
  }

  lemma StarMeans(name: string)
    ensures GlobCompiler.GlobMatch("*", name) <==> '/' !in name
  {
    assert "*"[1..] == "";
    assert name[..|name|] == name && name[|name|..] == "";
  }

  /** Two stars, a slash, a star and a plain end without a slash: that end of the path. */
  lemma AnywhereMeans(path: string, end: string)
    requires RepositoryPath(path) && Plain(end) && '/' !in end
    ensures GlobCompiler.Matches(path, ["**/*" + end]) <==> EndsWith(path, end)
  {
    hide GlobCompiler.Matches, GlobCompiler.GlobMatch;
    var pattern := "**/*" + end;
    assert forall i :: 4 <= i < |pattern| ==> pattern[i] == end[i - 4];
    assert pattern[0] == '*' && pattern[|pattern| - 1] == end[|end| - 1] && end[|end| - 1] in end;
    PatternMeans(pattern, path);
    DirectoriesThenName(path, end);
  }

  lemma DirectoriesThenName(path: string, end: string)
    requires Plain(end) && '/' !in end
    ensures GlobCompiler.GlobMatch("**/*" + end, path) <==> EndsWith(path, end)
  {
    hide Plain, GlobCompiler.GlobMatch;
    SomeDirectories(path, "*" + end);
    assert "**/*" + end == "**/" + ("*" + end);
    if k :| 0 <= k <= |path| && (k == 0 || path[k - 1] == '/') && GlobCompiler.GlobMatch("*" + end, path[k..]) {
      StarThenEnd(path[k..], end);
    }
    if EndsWith(path, end) {
      var k := LastName(path, |path| - |end|);
      var name := path[k..];
      assert name[..|name| - |end|] == path[k..|path| - |end|] && name[|name| - |end|..] == end;
      StarThenEnd(name, end);
    }
  }

  lemma SomeDirectories(path: string, rest: string)
    ensures GlobCompiler.GlobMatch("**/" + rest, path) <==>
              exists k :: 0 <= k <= |path| && (k == 0 || path[k - 1] == '/') &&
                GlobCompiler.GlobMatch(rest, path[k..])
  {
    assert ("**/" + rest)[3..] == rest;
  }

  lemma StarThenEnd(name: string, end: string)
    requires Plain(end) && '/' !in end
    ensures GlobCompiler.GlobMatch("*" + end, name) <==>
              EndsWith(name, end) && '/' !in name[..|name| - |end|]
  {
    var pattern := "*" + end;
    assert pattern[1] == end[0] && pattern[1..] == end;
    forall k | 0 <= k <= |name|
      ensures GlobCompiler.GlobMatch(end, name[k..]) <==> name[k..] == end
    {
      PlainGlob(end, "", name[k..]);
      assert end + "" == end;
    }
    if EndsWith(name, end) { assert GlobCompiler.GlobMatch(end, name[|name| - |end|..]); }
  }

  /** Start of the name that the position is in. */
  lemma {:induction false} LastName(path: string, n: nat) returns (k: nat)
    requires n <= |path|
    ensures k <= n && (k == 0 || path[k - 1] == '/') && '/' !in path[k..n]
  {
    if n == 0 || path[n - 1] == '/' {
      k := n;
    } else {
      k := LastName(path, n - 1);
      assert path[k..n] == path[k..n - 1] + [path[n - 1]];
    }
  }

  // ---------------------------------------------------------------- the tables

  lemma MatchesAny(path: string, patterns: seq<string>)
    ensures GlobCompiler.Matches(path, patterns) <==>
              exists i :: 0 <= i < |patterns| && GlobCompiler.Matches(path, [patterns[i]])
  {
    if i :| 0 <= i < |patterns| && GlobCompiler.Matches(path, [patterns[i]]) {
      MorePatterns(path, patterns[i], patterns);
    }
  }

  lemma GithubMarkdown(path: string)
    requires RepositoryPath(path)
    ensures GlobCompiler.Matches(path, [".github/**/*.md"]) ==> EndsWith(path, ".md")
  {
    hide GlobCompiler.Matches, GlobCompiler.GlobMatch;
    var pattern, start, end := ".github/**/*.md", ".github/", ".md";
    assert pattern == start + ("**/*" + end);
    assert forall i :: 0 <= i < |pattern| ==> pattern[i] != '{' && pattern[i] != '\\';
    assert Glob.InNormalForm(pattern) by { assert pattern[0] == '.' && pattern[1] == 'g' && pattern[14] == 'd'; }
    PatternMeans(pattern, path);
    PlainGlob(start, "**/*" + end, path);
    if start <= path { DirectoriesThenName(path[|start|..], end); }
  }

  ghost predicate FullCiPath(path: string) {
    Below(".github/actions", path) || path == ".github/workflows/ci.yml" || path == "validation/ci_scope.py" ||
    path == "validation/points.toml" || path == "validation/runner.py"
  }

  lemma FullCiRowsStart(path: string)
    requires RepositoryPath(path)
    ensures GlobCompiler.Matches(path, [RULES.fullCi[0]]) <==> Below(".github/actions", path)
    ensures GlobCompiler.Matches(path, [RULES.fullCi[1]]) <==> path == ".github/workflows/ci.yml"
  {
    hide GlobCompiler.Matches;
    TreeMeans(".github/actions", path);
    FileMeans(".github/workflows/ci.yml", path);
    assert RULES.fullCi[0] == ".github/actions" + "/**";
    assert RULES.fullCi[1] == ".github/workflows/ci.yml";
  }

  lemma FullCiRowsNext(path: string)
    requires RepositoryPath(path)
    ensures GlobCompiler.Matches(path, [RULES.fullCi[2]]) <==> path == "validation/ci_scope.py"
    ensures GlobCompiler.Matches(path, [RULES.fullCi[3]]) <==> path == "validation/points.toml"
  {
    hide GlobCompiler.Matches;
    FileMeans("validation/ci_scope.py", path);
    FileMeans("validation/points.toml", path);
    assert RULES.fullCi[2] == "validation/ci_scope.py";
    assert RULES.fullCi[3] == "validation/points.toml";
  }

  lemma FullCiRowsThen(path: string)
    requires RepositoryPath(path)
    ensures GlobCompiler.Matches(path, [RULES.fullCi[4]]) <==> path == "validation/runner.py"
  {
    hide GlobCompiler.Matches;
    FileMeans("validation/runner.py", path);
    assert RULES.fullCi[4] == "validation/runner.py";
  }

  lemma FullCiTable(path: string)
    requires RepositoryPath(path)
    ensures GlobCompiler.Matches(path, RULES.fullCi) <==> FullCiPath(path)
  {
    hide GlobCompiler.Matches;
    MatchesAny(path, RULES.fullCi);
    FullCiRowsStart(path);
    FullCiRowsNext(path);
    FullCiRowsThen(path);
    assert |RULES.fullCi| == 5;
  }

  ghost predicate ShippedPath(path: string) {
    Below("clients", path) || Below("crates", path)
  }

  lemma ShippedTable(path: string)
    requires RepositoryPath(path)
    ensures GlobCompiler.Matches(path, RULES.shippedSource) <==> ShippedPath(path)
  {
    hide GlobCompiler.Matches;
    MatchesAny(path, RULES.shippedSource);
    TreeMeans("clients", path);
    TreeMeans("crates", path);
    assert RULES.shippedSource[0] == "clients" + "/**";
    assert RULES.shippedSource[1] == "crates" + "/**";
  }

  ghost predicate ApplePath(path: string) {
    Below("clients/apple", path) || path == "tests/contracts/native-api.json"
  }

  lemma AppleTable(path: string)
    requires RepositoryPath(path)
    ensures GlobCompiler.Matches(path, RULES.apple) <==> ApplePath(path)
  {
    hide GlobCompiler.Matches;
    MatchesAny(path, RULES.apple);
    TreeMeans("clients/apple", path);
    FileMeans("tests/contracts/native-api.json", path);
    assert RULES.apple[0] == "clients/apple" + "/**";
    assert RULES.apple[1] == "tests/contracts/native-api.json";
  }

  ghost predicate AndroidJvmPath(path: string) {
    Below("clients/android", path) || path == "tests/contracts/native-api.json"
  }

  lemma AndroidJvmTable(path: string)
    requires RepositoryPath(path)
    ensures GlobCompiler.Matches(path, RULES.androidJvm) <==> AndroidJvmPath(path)
  {
    hide GlobCompiler.Matches;
    MatchesAny(path, RULES.androidJvm);
    TreeMeans("clients/android", path);
    FileMeans("tests/contracts/native-api.json", path);
    assert RULES.androidJvm[0] == "clients/android" + "/**";
    assert RULES.androidJvm[1] == "tests/contracts/native-api.json";
  }

  ghost predicate AndroidDevicePath(path: string) {
    path == "clients/android/Dockerfile" || path == "clients/android/app/build.gradle.kts" ||
    Below("clients/android/app/src/main", path) || Below("clients/android/app/src/androidTest", path) ||
    path == "clients/android/build.gradle.kts" || path == "clients/android/gradle.properties" ||
    Below("clients/android/gradle", path) || path == "clients/android/gradlew" ||
    path == "clients/android/settings.gradle.kts"
  }

  lemma AndroidDeviceRowsStart(path: string)
    requires RepositoryPath(path)
    ensures GlobCompiler.Matches(path, [RULES.androidDevice[0]]) <==> path == "clients/android/Dockerfile"
    ensures GlobCompiler.Matches(path, [RULES.androidDevice[1]]) <==> path == "clients/android/app/build.gradle.kts"
  {
    hide GlobCompiler.Matches;
    FileMeans("clients/android/Dockerfile", path);
    FileMeans("clients/android/app/build.gradle.kts", path);
    assert RULES.androidDevice[0] == "clients/android/Dockerfile";
    assert RULES.androidDevice[1] == "clients/android/app/build.gradle.kts";
  }

  lemma AndroidDeviceRowsNext(path: string)
    requires RepositoryPath(path)
    ensures GlobCompiler.Matches(path, [RULES.androidDevice[2]]) <==> Below("clients/android/app/src/main", path)
    ensures GlobCompiler.Matches(path, [RULES.androidDevice[3]]) <==> Below("clients/android/app/src/androidTest", path)
  {
    hide GlobCompiler.Matches;
    TreeMeans("clients/android/app/src/main", path);
    TreeMeans("clients/android/app/src/androidTest", path);
    assert RULES.androidDevice[2] == "clients/android/app/src/main" + "/**";
    assert RULES.androidDevice[3] == "clients/android/app/src/androidTest" + "/**";
  }

  lemma AndroidDeviceRowsThen(path: string)
    requires RepositoryPath(path)
    ensures GlobCompiler.Matches(path, [RULES.androidDevice[4]]) <==> path == "clients/android/build.gradle.kts"
    ensures GlobCompiler.Matches(path, [RULES.androidDevice[5]]) <==> path == "clients/android/gradle.properties"
  {
    hide GlobCompiler.Matches;
    FileMeans("clients/android/build.gradle.kts", path);
    FileMeans("clients/android/gradle.properties", path);
    assert RULES.androidDevice[4] == "clients/android/build.gradle.kts";
    assert RULES.androidDevice[5] == "clients/android/gradle.properties";
  }

  lemma AndroidDeviceRowsMore(path: string)
    requires RepositoryPath(path)
    ensures GlobCompiler.Matches(path, [RULES.androidDevice[6]]) <==> Below("clients/android/gradle", path)
    ensures GlobCompiler.Matches(path, [RULES.androidDevice[7]]) <==> path == "clients/android/gradlew"
  {
    hide GlobCompiler.Matches;
    TreeMeans("clients/android/gradle", path);
    FileMeans("clients/android/gradlew", path);
    assert RULES.androidDevice[6] == "clients/android/gradle" + "/**";
    assert RULES.androidDevice[7] == "clients/android/gradlew";
  }

  lemma AndroidDeviceRowsLast(path: string)
    requires RepositoryPath(path)
    ensures GlobCompiler.Matches(path, [RULES.androidDevice[8]]) <==> path == "clients/android/settings.gradle.kts"
  {
    hide GlobCompiler.Matches;
    FileMeans("clients/android/settings.gradle.kts", path);
    assert RULES.androidDevice[8] == "clients/android/settings.gradle.kts";
  }

  lemma AndroidDeviceTable(path: string)
    requires RepositoryPath(path)
    ensures GlobCompiler.Matches(path, RULES.androidDevice) <==> AndroidDevicePath(path)
  {
    hide GlobCompiler.Matches;
    MatchesAny(path, RULES.androidDevice);
    AndroidDeviceRowsStart(path);
    AndroidDeviceRowsNext(path);
    AndroidDeviceRowsThen(path);
    AndroidDeviceRowsMore(path);
    AndroidDeviceRowsLast(path);
    assert |RULES.androidDevice| == 9;
  }

  ghost predicate WebLayoutPath(path: string) {
    path == "brand/tokens.css" || path == "crates/plurxd/src/http/web.rs" ||
    Below("crates/plurxd/src/web", path) || NameAfter("scripts/contrast-", path) || path == "scripts/js-check" ||
    path == "scripts/themes-proposed.json" || path == "scripts/ui-baseline" || path == "tests/ui-structure.golden"
  }

  lemma WebLayoutRowsStart(path: string)
    requires RepositoryPath(path)
    ensures GlobCompiler.Matches(path, [RULES.webLayout[0]]) <==> path == "brand/tokens.css"
    ensures GlobCompiler.Matches(path, [RULES.webLayout[1]]) <==> path == "crates/plurxd/src/http/web.rs"
  {
    hide GlobCompiler.Matches;
    FileMeans("brand/tokens.css", path);
    FileMeans("crates/plurxd/src/http/web.rs", path);
    assert RULES.webLayout[0] == "brand/tokens.css";
    assert RULES.webLayout[1] == "crates/plurxd/src/http/web.rs";
  }

  lemma WebLayoutRowsNext(path: string)
    requires RepositoryPath(path)
    ensures GlobCompiler.Matches(path, [RULES.webLayout[2]]) <==> Below("crates/plurxd/src/web", path)
    ensures GlobCompiler.Matches(path, [RULES.webLayout[3]]) <==> NameAfter("scripts/contrast-", path)
  {
    hide GlobCompiler.Matches;
    TreeMeans("crates/plurxd/src/web", path);
    NameMeans("scripts/contrast-", path);
    assert RULES.webLayout[2] == "crates/plurxd/src/web" + "/**";
    assert RULES.webLayout[3] == "scripts/contrast-" + "*";
  }

  lemma WebLayoutRowsThen(path: string)
    requires RepositoryPath(path)
    ensures GlobCompiler.Matches(path, [RULES.webLayout[4]]) <==> path == "scripts/js-check"
    ensures GlobCompiler.Matches(path, [RULES.webLayout[5]]) <==> path == "scripts/themes-proposed.json"
  {
    hide GlobCompiler.Matches;
    FileMeans("scripts/js-check", path);
    FileMeans("scripts/themes-proposed.json", path);
    assert RULES.webLayout[4] == "scripts/js-check";
    assert RULES.webLayout[5] == "scripts/themes-proposed.json";
  }

  lemma WebLayoutRowsMore(path: string)
    requires RepositoryPath(path)
    ensures GlobCompiler.Matches(path, [RULES.webLayout[6]]) <==> path == "scripts/ui-baseline"
    ensures GlobCompiler.Matches(path, [RULES.webLayout[7]]) <==> path == "tests/ui-structure.golden"
  {
    hide GlobCompiler.Matches;
    FileMeans("scripts/ui-baseline", path);
    FileMeans("tests/ui-structure.golden", path);
    assert RULES.webLayout[6] == "scripts/ui-baseline";
    assert RULES.webLayout[7] == "tests/ui-structure.golden";
  }

  lemma WebLayoutTable(path: string)
    requires RepositoryPath(path)
    ensures GlobCompiler.Matches(path, RULES.webLayout) <==> WebLayoutPath(path)
  {
    hide GlobCompiler.Matches;
    MatchesAny(path, RULES.webLayout);
    WebLayoutRowsStart(path);
    WebLayoutRowsNext(path);
    WebLayoutRowsThen(path);
    WebLayoutRowsMore(path);
    assert |RULES.webLayout| == 8;
  }

  ghost predicate RustExemptPath(path: string) {
    Below("clients", path)
  }

  lemma RustExemptTable(path: string)
    requires RepositoryPath(path)
    ensures GlobCompiler.Matches(path, RULES.rustExempt) <==> RustExemptPath(path)
  {
    hide GlobCompiler.Matches;
    MatchesAny(path, RULES.rustExempt);
    TreeMeans("clients", path);
    assert RULES.rustExempt[0] == "clients" + "/**";
  }

  ghost predicate ReleaseBuildPath(path: string) {
    path == "Cargo.lock" || path == "Cargo.toml" || Below("crates", path) || path == "rust-toolchain.toml"
  }

  lemma ReleaseBuildTable(path: string)
    requires RepositoryPath(path)
    ensures GlobCompiler.Matches(path, RULES.releaseBuild) <==> ReleaseBuildPath(path)
  {
    hide GlobCompiler.Matches;
    MatchesAny(path, RULES.releaseBuild);
    FileMeans("Cargo.lock", path);
    FileMeans("Cargo.toml", path);
    TreeMeans("crates", path);
    FileMeans("rust-toolchain.toml", path);
    assert RULES.releaseBuild[0] == "Cargo.lock";
    assert RULES.releaseBuild[1] == "Cargo.toml";
    assert RULES.releaseBuild[2] == "crates" + "/**";
    assert RULES.releaseBuild[3] == "rust-toolchain.toml";
  }

  ghost predicate ContainerPath(path: string) {
    path == ".dockerignore" || path == "Cargo.lock" || path == "Cargo.toml" || path == "Dockerfile" ||
    Below("crates", path) || Below("deploy", path) || path == "plurx.example.toml" ||
    path == "rust-toolchain.toml" || path == "scripts/container-smoke"
  }

  lemma ContainerRowsStart(path: string)
    requires RepositoryPath(path)
    ensures GlobCompiler.Matches(path, [RULES.container[0]]) <==> path == ".dockerignore"
    ensures GlobCompiler.Matches(path, [RULES.container[1]]) <==> path == "Cargo.lock"
  {
    hide GlobCompiler.Matches;
    FileMeans(".dockerignore", path);
    FileMeans("Cargo.lock", path);
    assert RULES.container[0] == ".dockerignore";
    assert RULES.container[1] == "Cargo.lock";
  }

  lemma ContainerRowsNext(path: string)
    requires RepositoryPath(path)
    ensures GlobCompiler.Matches(path, [RULES.container[2]]) <==> path == "Cargo.toml"
    ensures GlobCompiler.Matches(path, [RULES.container[3]]) <==> path == "Dockerfile"
  {
    hide GlobCompiler.Matches;
    FileMeans("Cargo.toml", path);
    FileMeans("Dockerfile", path);
    assert RULES.container[2] == "Cargo.toml";
    assert RULES.container[3] == "Dockerfile";
  }

  lemma ContainerRowsThen(path: string)
    requires RepositoryPath(path)
    ensures GlobCompiler.Matches(path, [RULES.container[4]]) <==> Below("crates", path)
    ensures GlobCompiler.Matches(path, [RULES.container[5]]) <==> Below("deploy", path)
  {
    hide GlobCompiler.Matches;
    TreeMeans("crates", path);
    TreeMeans("deploy", path);
    assert RULES.container[4] == "crates" + "/**";
    assert RULES.container[5] == "deploy" + "/**";
  }

  lemma ContainerRowsMore(path: string)
    requires RepositoryPath(path)
    ensures GlobCompiler.Matches(path, [RULES.container[6]]) <==> path == "plurx.example.toml"
    ensures GlobCompiler.Matches(path, [RULES.container[7]]) <==> path == "rust-toolchain.toml"
  {
    hide GlobCompiler.Matches;
    FileMeans("plurx.example.toml", path);
    FileMeans("rust-toolchain.toml", path);
    assert RULES.container[6] == "plurx.example.toml";
    assert RULES.container[7] == "rust-toolchain.toml";
  }

  lemma ContainerRowsLast(path: string)
    requires RepositoryPath(path)
    ensures GlobCompiler.Matches(path, [RULES.container[8]]) <==> path == "scripts/container-smoke"
  {
    hide GlobCompiler.Matches;
    FileMeans("scripts/container-smoke", path);
    assert RULES.container[8] == "scripts/container-smoke";
  }

  lemma ContainerTable(path: string)
    requires RepositoryPath(path)
    ensures GlobCompiler.Matches(path, RULES.container) <==> ContainerPath(path)
  {
    hide GlobCompiler.Matches;
    MatchesAny(path, RULES.container);
    ContainerRowsStart(path);
    ContainerRowsNext(path);
    ContainerRowsThen(path);
    ContainerRowsMore(path);
    ContainerRowsLast(path);
    assert |RULES.container| == 9;
  }

  ghost predicate DocumentPath(path: string) {
    EndsWith(path, ".md") || Below("docs", path) || path == "LICENSE" || NameAfter("LICENSE.", path) ||
    path == "NOTICE" || NameAfter("NOTICE.", path) || Below("validation/regressions.d", path)
  }

  lemma DocumentRowsStart(path: string)
    requires RepositoryPath(path)
    ensures GlobCompiler.Matches(path, [RULES.docsOnly[0]]) <==> EndsWith(path, ".md")
    ensures GlobCompiler.Matches(path, [RULES.docsOnly[1]]) ==> EndsWith(path, ".md")
  {
    hide GlobCompiler.Matches;
    AnywhereMeans(path, ".md");
    GithubMarkdown(path);
    assert RULES.docsOnly[0] == "**/*" + ".md";
  }

  lemma DocumentRowsNext(path: string)
    requires RepositoryPath(path)
    ensures GlobCompiler.Matches(path, [RULES.docsOnly[2]]) <==> Below("docs", path)
    ensures GlobCompiler.Matches(path, [RULES.docsOnly[3]]) <==> path == "LICENSE"
  {
    hide GlobCompiler.Matches;
    TreeMeans("docs", path);
    FileMeans("LICENSE", path);
    assert RULES.docsOnly[2] == "docs" + "/**";
    assert RULES.docsOnly[3] == "LICENSE";
  }

  lemma DocumentRowsThen(path: string)
    requires RepositoryPath(path)
    ensures GlobCompiler.Matches(path, [RULES.docsOnly[4]]) <==> NameAfter("LICENSE.", path)
    ensures GlobCompiler.Matches(path, [RULES.docsOnly[5]]) <==> path == "NOTICE"
  {
    hide GlobCompiler.Matches;
    NameMeans("LICENSE.", path);
    FileMeans("NOTICE", path);
    assert RULES.docsOnly[4] == "LICENSE." + "*";
    assert RULES.docsOnly[5] == "NOTICE";
  }

  lemma DocumentRowsMore(path: string)
    requires RepositoryPath(path)
    ensures GlobCompiler.Matches(path, [RULES.docsOnly[6]]) <==> NameAfter("NOTICE.", path)
    ensures GlobCompiler.Matches(path, [RULES.docsOnly[7]]) <==> Below("validation/regressions.d", path)
  {
    hide GlobCompiler.Matches;
    NameMeans("NOTICE.", path);
    TreeMeans("validation/regressions.d", path);
    assert RULES.docsOnly[6] == "NOTICE." + "*";
    assert RULES.docsOnly[7] == "validation/regressions.d" + "/**";
  }

  lemma DocumentTable(path: string)
    requires RepositoryPath(path)
    ensures GlobCompiler.Matches(path, RULES.docsOnly) <==> DocumentPath(path)
  {
    hide GlobCompiler.Matches;
    MatchesAny(path, RULES.docsOnly);
    DocumentRowsStart(path);
    DocumentRowsNext(path);
    DocumentRowsThen(path);
    DocumentRowsMore(path);
    assert |RULES.docsOnly| == 8;
  }

  // ---------------------------------------------------------------- what a diff asks for

  /** Prose outside the shipped trees. */
  ghost predicate ProsePath(path: string) {
    DocumentPath(path) && !ShippedPath(path)
  }

  /** The surfaces that the paths of a diff ask for, by trees and files. */
  lemma DiffSurfaces(catalog: Catalog, paths: seq<string>)
    requires "ci" in catalog.profiles && forall path :: path in paths ==> RepositoryPath(path)
    ensures ScopeOf(RULES, catalog, paths).Ok?
    ensures var scope := ScopeOf(RULES, catalog, paths).value;
            if paths != [] && forall path :: path in paths ==> ProsePath(path)
            then forall key :: key in SCOPE_KEYS ==> (scope[key] <==> key == DocsOnly)
            else if exists path :: path in paths && FullCiPath(path)
            then forall key :: key in SCOPE_KEYS ==> (scope[key] <==> key != DocsOnly)
            else
              (paths == [] ==> scope[Rust]) &&
              (paths != [] ==> (scope[Rust] <==>
                exists path :: path in paths && !Below("clients", path) && !ProsePath(path))) &&
              (scope[Apple] <==> exists path :: path in paths && ApplePath(path)) &&
              (scope[AndroidJvm] <==> exists path :: path in paths && AndroidJvmPath(path)) &&
              (scope[AndroidDevice] <==> exists path :: path in paths && AndroidDevicePath(path)) &&
              (scope[WebLayout] <==> exists path :: path in paths && WebLayoutPath(path)) &&
              (scope[ReleaseBuild] <==> exists path :: path in paths && ReleaseBuildPath(path)) &&
              (scope[Container] <==> exists path :: path in paths && ContainerPath(path)) && !scope[DocsOnly]
  {
    hide GlobCompiler.Matches, SelectedIds, IsWanted, ApplePath, AndroidJvmPath, AndroidDevicePath, WebLayoutPath,
         ReleaseBuildPath, ContainerPath, DocumentPath, ShippedPath, FullCiPath, RepositoryPath, ScopeOf, Below;
    forall path | path in paths
      ensures TablesMean(path)
    {
      AllTables(path);
    }
    LanesMean(RULES, catalog, paths);
    if !(paths != [] && forall path :: path in paths ==> ProsePath(path)) &&
       !(exists path :: path in paths && FullCiPath(path)) {
      SurfacesMean(RULES, catalog, paths);
    }
  }

  ghost predicate TablesMean(path: string) {
    (GlobCompiler.Matches(path, RULES.fullCi) <==> FullCiPath(path)) &&
    (GlobCompiler.Matches(path, RULES.docsOnly) <==> DocumentPath(path)) &&
    (GlobCompiler.Matches(path, RULES.shippedSource) <==> ShippedPath(path)) &&
    (GlobCompiler.Matches(path, RULES.apple) <==> ApplePath(path)) &&
    (GlobCompiler.Matches(path, RULES.androidJvm) <==> AndroidJvmPath(path)) &&
    (GlobCompiler.Matches(path, RULES.androidDevice) <==> AndroidDevicePath(path)) &&
    (GlobCompiler.Matches(path, RULES.webLayout) <==> WebLayoutPath(path)) &&
    (GlobCompiler.Matches(path, RULES.rustExempt) <==> Below("clients", path)) &&
    (GlobCompiler.Matches(path, RULES.releaseBuild) <==> ReleaseBuildPath(path)) &&
    (GlobCompiler.Matches(path, RULES.container) <==> ContainerPath(path))
  }

  lemma AllTables(path: string)
    requires RepositoryPath(path)
    ensures TablesMean(path)
  {
    hide GlobCompiler.Matches, ApplePath, AndroidJvmPath, AndroidDevicePath, WebLayoutPath, ReleaseBuildPath,
         ContainerPath, DocumentPath, ShippedPath, FullCiPath, RepositoryPath, Below;
    FullCiTable(path);
    DocumentTable(path);
    ShippedTable(path);
    AppleTable(path);
    AndroidJvmTable(path);
    AndroidDeviceTable(path);
    WebLayoutTable(path);
    RustExemptTable(path);
    ReleaseBuildTable(path);
    ContainerTable(path);
  }

  /** A diff of one client asks for that client, and neither for the other one nor for the cargo gate. */
  lemma ClientDiff(catalog: Catalog, paths: seq<string>, apple: bool)
    requires "ci" in catalog.profiles && paths != []
    requires forall path :: path in paths ==>
               RepositoryPath(path) && Below(if apple then "clients/apple" else "clients/android", path)
    ensures ScopeOf(RULES, catalog, paths).Ok?
    ensures var scope := ScopeOf(RULES, catalog, paths).value;
            scope[Apple] == apple && scope[AndroidJvm] == !apple && !scope[Rust] && !scope[WebLayout] &&
            !scope[ReleaseBuild] && !scope[Container] && !scope[DocsOnly]
  {
    hide ScopeOf, ApplePath, AndroidJvmPath, AndroidDevicePath, WebLayoutPath, ReleaseBuildPath, ContainerPath,
         DocumentPath, FullCiPath, ShippedPath, RepositoryPath, Below;
    DiffSurfaces(catalog, paths);
    forall path | path in paths
      ensures !ProsePath(path) && !FullCiPath(path) && Below("clients", path) && !WebLayoutPath(path)
      ensures !ReleaseBuildPath(path) && !ContainerPath(path)
      ensures ApplePath(path) == apple && AndroidJvmPath(path) == !apple
    {
      BelowClient(path, apple);
    }
    assert paths[0] in paths;
  }

  lemma BelowClient(path: string, apple: bool)
    requires Below(if apple then "clients/apple" else "clients/android", path)
    ensures !ProsePath(path) && !FullCiPath(path) && Below("clients", path)
    ensures !WebLayoutPath(path) && !ReleaseBuildPath(path) && !ContainerPath(path)
    ensures ApplePath(path) == apple && AndroidJvmPath(path) == !apple
  {
    hide DocumentPath, FullCiPath, WebLayoutPath, ReleaseBuildPath, ContainerPath;
    assert path[0] == 'c' && path[1] == 'l' && path[9] == if apple then 'p' else 'n';
    assert path[..8] == "clients/";
    StartsNeither(path);
    ClientIsNotLayout(path);
    ClientIsNotRelease(path);
    ClientIsNotContainer(path);
  }

  lemma StartsNeither(path: string)
    requires path != "" && path[0] == 'c'
    ensures !FullCiPath(path)
  {
  }

  lemma ClientIsNotLayout(path: string)
    requires |path| > 1 && path[0] == 'c' && path[1] == 'l'
    ensures !WebLayoutPath(path)
  {
  }

  lemma ClientIsNotRelease(path: string)
    requires |path| > 1 && path[0] == 'c' && path[1] == 'l'
    ensures !ReleaseBuildPath(path)
  {
  }

  lemma ClientIsNotContainer(path: string)
    requires |path| > 1 && path[0] == 'c' && path[1] == 'l'
    ensures !ContainerPath(path)
  {
  }

  /** A diff of crates asks for the cargo gate, the release builds and the container, and for no client. */
  lemma CrateDiff(catalog: Catalog, paths: seq<string>)
    requires "ci" in catalog.profiles && paths != []
    requires forall path :: path in paths ==> RepositoryPath(path) && Below("crates", path)
    ensures ScopeOf(RULES, catalog, paths).Ok?
    ensures var scope := ScopeOf(RULES, catalog, paths).value;
            scope[Rust] && scope[ReleaseBuild] && scope[Container] && !scope[Apple] && !scope[AndroidJvm] &&
            !scope[AndroidDevice] && !scope[DocsOnly]
  {
    hide ScopeOf, ApplePath, AndroidJvmPath, AndroidDevicePath, WebLayoutPath, ReleaseBuildPath, ContainerPath,
         DocumentPath, FullCiPath, ShippedPath, RepositoryPath, Below;
    DiffSurfaces(catalog, paths);
    forall path | path in paths
      ensures !ProsePath(path) && !FullCiPath(path) && !Below("clients", path)
      ensures ReleaseBuildPath(path) && ContainerPath(path)
      ensures !ApplePath(path) && !AndroidJvmPath(path) && !AndroidDevicePath(path)
    {
      BelowCrates(path);
    }
    assert paths[0] in paths;
  }

  lemma BelowCrates(path: string)
    requires Below("crates", path)
    ensures !ProsePath(path) && !FullCiPath(path) && !Below("clients", path)
    ensures ReleaseBuildPath(path) && ContainerPath(path)
    ensures !ApplePath(path) && !AndroidJvmPath(path) && !AndroidDevicePath(path)
  {
    hide DocumentPath, FullCiPath, AndroidDevicePath, ReleaseBuildPath, ContainerPath;
    assert path[0] == 'c' && path[1] == 'r';
    StartsNeither(path);
    CrateIsBuilt(path);
    CrateIsNotOnDevice(path);
  }

  lemma CrateIsBuilt(path: string)
    requires Below("crates", path)
    ensures ReleaseBuildPath(path) && ContainerPath(path)
  {
    hide Below;
  }

  lemma CrateIsNotOnDevice(path: string)
    requires |path| > 1 && path[0] == 'c' && path[1] == 'r'
    ensures !AndroidDevicePath(path)
  {
  }
}
