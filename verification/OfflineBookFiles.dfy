/** The files of one downloaded book: writing resources, and the check that a tree is complete. */
module OfflineBookFiles {
  import opened Collections
  import opened Options
  import opened Characters
  import opened PublicationPath
  import opened OfflineBookModels

  const INT64_MAX := 0x7FFF_FFFF_FFFF_FFFF

  /** The contents of a book directory; JSON encoding is taken as lossless. */
  datatype Tree = Tree(original: Option<nat>, manifest: Option<Manifest>, resources: map<Bytes, nat>,
      cover: Option<nat>)

  const EMPTY_TREE := Tree(None, None, map[], None)

  function Links(manifest: Manifest): seq<Link> {
    manifest.readingOrder + manifest.resources
  }

  // ---------------------------------------------------------------- which resources

  /** Every link is safe. */
  predicate AllSafe(links: seq<Link>) {
    forall link :: link in links ==> SafePath(link.href).Some?
  }

  function Paths(links: seq<Link>): set<Bytes> {
    set link | link in links && SafePath(link.href).Some? :: SafePath(link.href).value
  }

  /** Order of strings, with a prefix before its extensions. */
  predicate Less(a: Bytes, b: Bytes) {
    if b == [] then false
    else if a == [] then true
    else a[0] < b[0] || (a[0] == b[0] && Less(a[1..], b[1..]))
  }

  /** `a` is a directory on the way to `b`. */
  predicate Ancestor(a: Bytes, b: Bytes) {
    a + [SLASH] <= b
  }

  lemma {:induction false} AncestorIsLess(a: Bytes, b: Bytes)
    requires Ancestor(a, b)
    ensures Less(a, b)
  {
    assert (a + [SLASH]) == b[..|a| + 1];
    if a != [] {
      assert b[0] == (a + [SLASH])[0] == a[0];
      assert (a + [SLASH])[1..] == a[1..] + [SLASH];
      assert b[1..][..|a|] == b[..|a| + 1][1..];
      AncestorIsLess(a[1..], b[1..]);
    }
  }

  lemma {:induction false} LessIrreflexive(a: Bytes, b: Bytes)
    ensures !(Less(a, b) && Less(b, a))
  {
    if a != [] && b != [] { LessIrreflexive(a[1..], b[1..]); }
  }

  ghost predicate Sorted(paths: seq<Bytes>) {
    forall i, j :: 0 <= i < j < |paths| ==> Less(paths[i], paths[j])
  }

  /** Distinct paths, no path after one below it. Every order of strings that puts prefixes first sorts them so. */
  ghost predicate AncestorsFirst(paths: seq<Bytes>) {
    forall i, j :: 0 <= i < j < |paths| ==> paths[i] != paths[j] && !Ancestor(paths[j], paths[i])
  }

  lemma SortedIsAncestorsFirst(paths: seq<Bytes>)
    requires Sorted(paths)
    ensures AncestorsFirst(paths)
  {
    forall i, j | 0 <= i < j < |paths|
      ensures paths[i] != paths[j] && !Ancestor(paths[j], paths[i])
    {
      LessIrreflexive(paths[i], paths[j]);
      NotBelowItself(paths[i], paths[j]);
    }
  }

  lemma NotBelowItself(a: Bytes, b: Bytes)
    requires !Less(b, a)
    ensures !Ancestor(b, a)
  {
    if Ancestor(b, a) { AncestorIsLess(b, a); }
  }

  // ---------------------------------------------------------------- writing them

  /** Saving a resource fails below a file; it replaces whatever was at its path. */
  function Saved(resources: map<Bytes, nat>, path: Bytes, size: nat): Option<map<Bytes, nat>> {
    if exists file :: file in resources && Ancestor(file, path) then None
    else Some((map file | file in resources && !Ancestor(path, file) :: resources[file])[path := size])
  }

  /** It fails exactly below a file; else the file is there, what was below its path is gone, and the rest stays. */
  lemma SavedMeans(resources: map<Bytes, nat>, path: Bytes, size: nat, other: Bytes)
    requires other != path
    ensures Saved(resources, path, size) == None <==> exists file :: file in resources && file + [0x2F] <= path
    ensures Saved(resources, path, size).Some? ==>
              var saved := Saved(resources, path, size).value;
              path in saved && saved[path] == size &&
              (other in saved <==> other in resources && !(path + [0x2F] <= other)) &&
              (other in saved ==> saved[other] == resources[other])
  {
  }

  /** Saving a resource removes no earlier one. */
  lemma SavedInOrder(resources: map<Bytes, nat>, paths: seq<Bytes>, n: nat, size: nat)
    requires AncestorsFirst(paths) && n < |paths| && resources.Keys == Prefix(paths, n)
    requires Saved(resources, paths[n], size).Some?
    ensures Saved(resources, paths[n], size).value == resources[paths[n] := size]
    ensures Saved(resources, paths[n], size).value.Keys == Prefix(paths, n + 1)
  {
    forall file | file in resources
      ensures !Ancestor(paths[n], file)
    {
      var i :| 0 <= i < n && paths[i] == file;
    }
  }

  ghost function Prefix(paths: seq<Bytes>, n: nat): set<Bytes>
    requires n <= |paths|
  {
    set i | 0 <= i < n :: paths[i]
  }

  /** Overflow-checked addition against a maximum. */
  function BoundedAdd(left: int, right: int, maximum: int): Option<int> {
    if left + right <= INT64_MAX && left + right <= maximum then Some(left + right) else None
  }

  // ---------------------------------------------------------------- the completeness check

  /** The resources at the given paths are regular files within the limits, one by one and together. */
  ghost predicate WithinLimits(resources: map<Bytes, nat>, paths: set<Bytes>, limits: Limits) {
    |paths| <= limits.entries && FilesFit(resources, paths, limits)
  }

  ghost predicate FilesFit(resources: map<Bytes, nat>, paths: set<Bytes>, limits: Limits) {
    (forall path :: path in paths ==> path in resources && resources[path] <= limits.resourceBytes) &&
    (paths == {} || Sum(Chosen(resources, paths)) <= limits.totalUncompressedBytes)
  }

  ghost function Chosen(resources: map<Bytes, nat>, paths: set<Bytes>): map<Bytes, nat> {
    map path | path in paths && path in resources :: resources[path]
  }

  ghost predicate HasRequiredFiles(book: OfflineBook, tree: Tree) {
    book.publication.Some? && book.revision.Some? && book.limits.Some? &&
    tree.original.Some? && tree.original.value == book.revision.value.size &&
    tree.manifest == book.publication &&
    AllSafe(Links(book.publication.value)) &&
    WithinLimits(tree.resources, Paths(Links(book.publication.value)), book.limits.value)
  }

  /** Limits come from 64-bit fields. */
  predicate Representable(limits: Limits) {
    limits.totalUncompressedBytes <= INT64_MAX
  }

  method CheckRequiredFiles(book: OfflineBook, tree: Tree) returns (complete: bool)
    requires book.limits.Some? ==> Representable(book.limits.value)
    ensures complete <==> HasRequiredFiles(book, tree)
  {
    if book.publication.None? || book.revision.None? || book.limits.None? { return false; }
    if tree.original.None? || tree.manifest.None? || tree.original.value != book.revision.value.size { return false; }
    if tree.manifest != book.publication { return false; }
    var links, limits := Links(book.publication.value), book.limits.value;
    if !AllSafe(links) { return false; }
    complete := CheckSizes(tree.resources, Paths(links), limits);
  }

  /**
   A tree is complete exactly when it holds the original of the right size, the row's manifest, and for each link of
   the reading order and of the resources a file at the link's safe path; no file may be over its limit, nor may the
   distinct paths in number and all files together.
   */
  lemma RequiredFilesMean(book: OfflineBook, tree: Tree)
    ensures HasRequiredFiles(book, tree) <==>
              book.publication.Some? && book.revision.Some? && book.limits.Some? &&
              tree.original.Some? && tree.original.value == book.revision.value.size &&
              tree.manifest == Some(book.publication.value) &&
              var manifest, limits := book.publication.value, book.limits.value;
              (forall link :: link in manifest.readingOrder || link in manifest.resources ==>
                SafePath(link.href).Some? && SafePath(link.href).value in tree.resources &&
                tree.resources[SafePath(link.href).value] <= limits.resourceBytes) &&
              var paths :=
                (set link | link in manifest.readingOrder && SafePath(link.href).Some? :: SafePath(link.href).value) +
                (set link | link in manifest.resources && SafePath(link.href).Some? :: SafePath(link.href).value);
              |paths| <= limits.entries &&
              (paths == {} ||
               Sum(map path | path in paths && path in tree.resources :: tree.resources[path])
               <= limits.totalUncompressedBytes)
  {
    hide SafePath, Sum;
    if book.publication.Some? { ListedLinks(book.publication.value); }
  }

  /** The links of the reading order and of the resources are all there is. */
  lemma ListedLinks(manifest: Manifest)
    ensures forall link :: link in Links(manifest) <==> link in manifest.readingOrder || link in manifest.resources
    ensures Paths(Links(manifest)) ==
              (set link | link in manifest.readingOrder && SafePath(link.href).Some? :: SafePath(link.href).value) +
              (set link | link in manifest.resources && SafePath(link.href).Some? :: SafePath(link.href).value)
    ensures forall link :: link in Links(manifest) && SafePath(link.href).Some? ==>
              SafePath(link.href).value in Paths(Links(manifest))
  {
    hide SafePath;
  }

  method CheckSizes(resources: map<Bytes, nat>, paths: set<Bytes>, limits: Limits) returns (fits: bool)
    requires Representable(limits)
    ensures fits <==> WithinLimits(resources, paths, limits)
  {
    if |paths| > limits.entries { return false; }
    fits := CheckFiles(resources, paths, limits);
  }

  /** One pass over the distinct paths, stopping at the first file that is missing, too big or one too many. */
  method CheckFiles(resources: map<Bytes, nat>, paths: set<Bytes>, limits: Limits) returns (fits: bool)
    requires Representable(limits)
    ensures fits <==> FilesFit(resources, paths, limits)
  {
    hide Sum, Chosen;
    var rest, total := paths, 0;
    ghost var done: set<Bytes> := {};
    NothingChosen(resources);
    while rest != {}
      invariant done == paths - rest && rest <= paths && total == Sum(Chosen(resources, done))
      invariant forall path :: path in done ==> path in resources && resources[path] <= limits.resourceBytes
      invariant done == {} || total <= limits.totalUncompressedBytes
      decreases rest
    {
      var path :| path in rest;
      if path !in resources || resources[path] > limits.resourceBytes { return false; }
      var bytes := resources[path];
      OneMoreChosen(resources, done, path);
      var next := BoundedAdd(total, bytes, limits.totalUncompressedBytes);
      if next.None? {
        ChosenGrows(resources, done + {path}, paths);
        return false;
      }
      rest, done := rest - {path}, done + {path};
      total := next.value;
    }
    assert done == paths;
    fits := true;
  }

  /** Adding files never lowers the total, so the running check is exact. */
  lemma ChosenGrows(resources: map<Bytes, nat>, some: set<Bytes>, all: set<Bytes>)
    requires some <= all
    ensures Sum(Chosen(resources, some)) <= Sum(Chosen(resources, all))
  {
    hide Sum;
    SumGrows(Chosen(resources, some), Chosen(resources, all));
  }

  lemma NothingChosen(resources: map<Bytes, nat>)
    ensures Sum(Chosen(resources, {})) == 0
  {
    assert Chosen(resources, {}) == map[];
  }

  lemma OneMoreChosen(resources: map<Bytes, nat>, done: set<Bytes>, path: Bytes)
    requires path !in done && path in resources
    ensures Sum(Chosen(resources, done + {path})) == Sum(Chosen(resources, done)) + resources[path]
  {
    hide Sum;
    assert Chosen(resources, done + {path}) == Chosen(resources, done)[path := resources[path]];
    SumUpdated(Chosen(resources, done), path, resources[path]);
  }
}
