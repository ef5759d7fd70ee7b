/** One staged book download, step by step, and what a launch makes of a crash between any two steps. */
module BookDownload {
  import opened Collections
  import opened Options
  import opened Text
  import opened Characters
  import opened PublicationPath
  import opened OfflineBookModels
  import opened OfflineBookFiles
  import opened OfflineBookCatalog

  /** What the server says about a publication when it is opened. */
  datatype Opened = Opened(revision: Revision, publication: Manifest, limits: Limits)

  datatype Phase =
    | NotStarted
    | Opening                                          // the intent row is durable
    | RowUpdated(first: Opened)                       // the row says downloading
    | Staged(first: Opened)
    | OriginalSaved(first: Opened)
    | Fetching(first: Opened, second: Opened, paths: seq<Bytes>, saved: nat, extracted: int)
    | ManifestSaved(first: Opened, second: Opened)
    | Published(first: Opened, second: Opened)      // renamed, the row still says downloading
    | Done(first: Opened, second: Opened)
    | Failing                                          // an error was thrown before publication
    | Discarded
    | MarkedFailed

  datatype World = World(books: Rows, files: Files, phase: Phase)

  datatype Action =
    | WriteIntent(book: OfflineBook)
    | Open(first: Opened)
    | MakeStaging
    | SaveOriginal(bytes: nat)
    | Reopen(second: Opened, paths: seq<Bytes>)
    | SaveResource(size: nat)
    | SaveManifest
    | SaveCover(size: nat)
    | Publish
    | MarkDownloaded
    | Throw(staged: Tree)
    | Discard
    | MarkFailed

  /** The distinct safe paths of the manifest, in string order; it fails when one is unsafe or there are too many. */
  ghost predicate PublicationResources(first: Opened, paths: seq<Bytes>) {
    AllSafe(Links(first.publication)) && AncestorsFirst(paths) &&
    Prefix(paths, |paths|) == Paths(Links(first.publication)) &&
        |Paths(Links(first.publication))| <= first.limits.entries
  }

  function Staging(layout: Layout, id: BookId, w: World): Tree {
    TreeAt(w.files, layout.StagingPlace(id))
  }

  ghost predicate Enabled(layout: Layout, id: BookId, w: World, action: Action) {
    match action
    case WriteIntent(book) =>
      w.phase.NotStarted? && book.state == Intent && book.localPath == None && book.limits == None &&
      book.publication == None && book.revision == None
    case Open(first) => w.phase.Opening? && Representable(first.limits)
    case MakeStaging => w.phase.RowUpdated?
    case SaveOriginal(bytes) => w.phase.Staged? && bytes == w.phase.first.revision.size
    case Reopen(second, paths) =>
      w.phase.OriginalSaved? && Representable(second.limits) && PublicationResources(second, paths) &&
      second.revision == w.phase.first.revision && second.publication == w.phase.first.publication
    case SaveResource(size) =>
      w.phase.Fetching? && w.phase.saved < |w.phase.paths| && size <= w.phase.second.limits.resourceBytes &&
      Saved(Staging(layout, id, w).resources, w.phase.paths[w.phase.saved], size).Some? &&
      BoundedAdd(w.phase.extracted, size, w.phase.second.limits.totalUncompressedBytes).Some?
    case SaveManifest => w.phase.Fetching? && w.phase.saved == |w.phase.paths|
    case SaveCover(size) => w.phase.ManifestSaved?
    case Publish => w.phase.ManifestSaved?
    case MarkDownloaded => w.phase.Published?
    case Throw(staged) => !(w.phase.NotStarted? || w.phase.Published? || w.phase.Done? || w.phase.Failing?
                            || w.phase.Discarded? || w.phase.MarkedFailed?)
    case Discard => w.phase.Failing?
    case MarkFailed => w.phase.Discarded?
  }

  function WithRow(id: BookId, w: World, book: OfflineBook, phase: Phase): World {
    w.(books := Upserted(w.books, id, book), phase := phase)
  }

  function WithStaging(layout: Layout, id: BookId, w: World, tree: Tree, phase: Phase): World {
    w.(files := w.files[layout.StagingPlace(id) := tree], phase := phase)
  }

  ghost function Next(layout: Layout, id: BookId, w: World, action: Action): World
    requires Enabled(layout, id, w, action) && (id in w.books || action.WriteIntent?)
  {
    var staging := Staging(layout, id, w);
    match action
    case WriteIntent(book) => WithRow(id, w, book, Opening)
    case Open(first) =>
      WithRow(id, w, w.books[id].(revision := Some(first.revision), publication := Some(first.publication),
                                  limits := Some(first.limits), state := Downloading), RowUpdated(first))
    case MakeStaging => w.(files := WithEmptyStaging(layout, w.files, id), phase := Staged(w.phase.first))
    case SaveOriginal(bytes) => WithStaging(layout, id, w, staging.(original := Some(bytes)),
        OriginalSaved(w.phase.first))
    case Reopen(second, paths) => w.(phase := Fetching(w.phase.first, second, paths, 0, 0))
    case SaveResource(size) =>
      WithStaging(layout, id, w,
        staging.(resources := Saved(staging.resources, w.phase.paths[w.phase.saved], size).value),
        w.phase.(saved := w.phase.saved + 1,
                 extracted := BoundedAdd(w.phase.extracted, size, w.phase.second.limits.totalUncompressedBytes).value))
    case SaveManifest =>
      WithStaging(layout, id, w, staging.(manifest := Some(w.phase.second.publication)),
                  ManifestSaved(w.phase.first, w.phase.second))
    case SaveCover(size) => WithStaging(layout, id, w, staging.(cover := Some(size)), w.phase)
    case Publish =>
      World(w.books, AfterPublish(layout, w.files, id),
            if layout.Relative(id).Some? then Published(w.phase.first, w.phase.second) else Failing)
    case MarkDownloaded =>
      WithRow(id, w, w.books[id].(state := Downloaded, localPath := layout.Relative(id), errorMessage := None,
                                  cover := if TreeAt(w.files, layout.Place(id)).cover.Some? && layout.Relative(id).Some?
                                           then Some(layout.Relative(id).value + ["cover"]) else None),
              Done(w.phase.first, w.phase.second))
    case Throw(staged) =>
      w.(files := if layout.StagingPlace(id) in w.files then w.files[layout.StagingPlace(id) := staged] else w.files,
         phase := Failing)
    case Discard => w.(files := WithoutStaging(layout, w.files, id), phase := Discarded)
    case MarkFailed => WithRow(id, w, w.books[id].(state := Failed), MarkedFailed)
  }

  // ---------------------------------------------------------------- the invariant of a download

  ghost predicate Published'(phase: Phase) { phase.Published? || phase.Done? }

  /** All resources of the manifest are there, within the limits of the second opening. */
  ghost predicate CompleteTree(tree: Tree, first: Opened, second: Opened) {
    tree.original.Some? && tree.original.value == first.revision.size && tree.manifest == Some(first.publication) &&
    AllSafe(Links(first.publication)) && tree.resources.Keys == Paths(Links(first.publication)) &&
    WithinLimits(tree.resources, Paths(Links(first.publication)), second.limits)
  }

  /** The resources saved so far, with their running total. */
  ghost predicate Partial(phase: Phase, tree: Tree)
    requires phase.Fetching?
  {
    phase.saved <= |phase.paths| && tree.original.Some? && tree.original.value == phase.first.revision.size &&
    phase.second.revision == phase.first.revision && phase.second.publication == phase.first.publication &&
    PublicationResources(phase.second, phase.paths) && tree.resources.Keys == Prefix(phase.paths, phase.saved) &&
    (forall path :: path in tree.resources ==> tree.resources[path] <= phase.second.limits.resourceBytes) &&
    phase.extracted == Sum(tree.resources) &&
    (phase.saved == 0 || phase.extracted <= phase.second.limits.totalUncompressedBytes)
  }

  ghost predicate RowSays(book: OfflineBook, first: Opened) {
    book.revision == Some(first.revision) && book.publication == Some(first.publication) &&
        book.limits == Some(first.limits)
  }

  ghost predicate PhaseHolds(layout: Layout, id: BookId, w: World)
    requires w.phase.NotStarted? || id in w.books
  {
    var staging, place := Staging(layout, id, w), TreeAt(w.files, layout.Place(id));
    match w.phase
    case NotStarted => id !in w.books
    case Opening => w.books[id].state == Intent
    case RowUpdated(first) => w.books[id].state == Downloading && RowSays(w.books[id], first)
    case Staged(first) =>
      w.books[id].state == Downloading && RowSays(w.books[id], first) && staging == EMPTY_TREE
    case OriginalSaved(first) =>
      w.books[id].state == Downloading && RowSays(w.books[id], first) &&
      staging == EMPTY_TREE.(original := staging.original) &&
      staging.original.Some? && staging.original.value == first.revision.size
    case Fetching(first, second, paths, saved, extracted) =>
      w.books[id].state == Downloading && RowSays(w.books[id], first) && Partial(w.phase, staging)
    case ManifestSaved(first, second) =>
      w.books[id].state == Downloading && RowSays(w.books[id], first) && CompleteTree(staging, first, second)
    case Published(first, second) =>
      w.books[id].state == Downloading && RowSays(w.books[id], first) && CompleteTree(place, first, second) &&
      layout.Relative(id).Some?
    case Done(first, second) =>
      w.books[id].state == Downloaded && w.books[id].localPath == layout.Relative(id) && layout.Relative(id).Some? &&
      RowSays(w.books[id], first) && CompleteTree(place, first, second) && w.books[id].errorMessage == None &&
      w.books[id].cover == (if place.cover.Some? then Some(layout.Relative(id).value + ["cover"]) else None)
    case Failing => InProgress(w.books[id])
    case Discarded => InProgress(w.books[id])
    case MarkedFailed => w.books[id].state == Failed
  }

  ghost predicate Inv(layout: Layout, id: BookId, w: World) {
    IsUuid(id) && Sane(layout, w.books) && (w.phase.NotStarted? || id in w.books) &&
    PhaseHolds(layout, id, w) &&
    (layout.Relative(id).Some? ==> (layout.Place(id) in w.files <==> Published'(w.phase)))
  }

  /** A new identifier: no row and no directory of its own yet. */
  ghost predicate Start(layout: Layout, id: BookId, w: World) {
    IsUuid(id) && Sane(layout, w.books) && w.phase == NotStarted && id !in w.books && layout.Place(id) !in w.files
  }

  lemma StepKeepsInv(layout: Layout, id: BookId, w: World, action: Action)
    requires Inv(layout, id, w) && Enabled(layout, id, w, action)
    ensures Inv(layout, id, Next(layout, id, w, action))
  {
    hide Next, Enabled, PhaseHolds, Sane;
    StepKeepsRows(layout, id, w, action);
    StepKeepsPlace(layout, id, w, action);
    StepKeepsPhase(layout, id, w, action);
  }

  predicate ChangesRow(action: Action) {
    action.WriteIntent? || action.Open? || action.MarkDownloaded? || action.MarkFailed?
  }

  lemma RowsUntouched(layout: Layout, id: BookId, w: World, action: Action)
    requires Enabled(layout, id, w, action) && id in w.books && !ChangesRow(action)
    ensures Next(layout, id, w, action).books == w.books
  {
    hide PublicationResources, Saved, BoundedAdd, AfterPublish, TreeAt, Layout.Place, Layout.StagingPlace,
         Layout.Relative;
  }

  lemma RowStepKeepsFiles(layout: Layout, id: BookId, w: World, action: Action)
    requires Enabled(layout, id, w, action) && (id in w.books || action.WriteIntent?) && ChangesRow(action)
    ensures Next(layout, id, w, action).files == w.files
  {
    hide PublicationResources, Saved, BoundedAdd, AfterPublish, TreeAt, Layout.Place, Layout.StagingPlace,
         Layout.Relative;
  }

  lemma StepKeepsRows(layout: Layout, id: BookId, w: World, action: Action)
    requires Inv(layout, id, w) && Enabled(layout, id, w, action)
    ensures id in Next(layout, id, w, action).books && Sane(layout, Next(layout, id, w, action).books)
  {
    hide PhaseHolds, PublicationResources, Saved, BoundedAdd, AfterPublish, TreeAt, Layout.Place, Layout.StagingPlace;
    if ChangesRow(action) {
      if id in w.books { assert SaneRow(layout, id, w.books[id]); }
      assert SaneRow(layout, id, Next(layout, id, w, action).books[id]);
    } else {
      hide Next;
      RowsUntouched(layout, id, w, action);
    }
  }

  lemma StepKeepsPlace(layout: Layout, id: BookId, w: World, action: Action)
    requires Inv(layout, id, w) && Enabled(layout, id, w, action)
    ensures layout.Relative(id).Some? ==>
              (layout.Place(id) in Next(layout, id, w, action).files <==> Published'(Next(layout, id, w, action).phase))
    ensures !Next(layout, id, w, action).phase.NotStarted?
  {
    hide PhaseHolds, Sane, PublicationResources, Saved, BoundedAdd, TreeAt;
    hide Layout.Place, Layout.StagingPlace, Layout.Relative;
    PlacesDiffer(layout, id, id);
  }

  lemma StepKeepsPhase(layout: Layout, id: BookId, w: World, action: Action)
    requires Inv(layout, id, w) && Enabled(layout, id, w, action)
    ensures id in Next(layout, id, w, action).books && PhaseHolds(layout, id, Next(layout, id, w, action))
  {
    hide Next, Enabled, PhaseHolds;
    if ChangesRow(action) {
      RowStepKeepsPhase(layout, id, w, action);
    } else {
      FileStepKeepsPhase(layout, id, w, action);
    }
  }

  lemma RowStepKeepsPhase(layout: Layout, id: BookId, w: World, action: Action)
    requires Inv(layout, id, w) && Enabled(layout, id, w, action) && ChangesRow(action)
    ensures id in Next(layout, id, w, action).books && PhaseHolds(layout, id, Next(layout, id, w, action))
  {
    hide Partial, CompleteTree, Sane, PublicationResources, Saved, BoundedAdd;
    hide Layout.Place, Layout.StagingPlace, Layout.Relative;
  }

  lemma FileStepKeepsPhase(layout: Layout, id: BookId, w: World, action: Action)
    requires Inv(layout, id, w) && Enabled(layout, id, w, action) && !ChangesRow(action)
    ensures id in Next(layout, id, w, action).books && PhaseHolds(layout, id, Next(layout, id, w, action))
  {
    hide Partial, CompleteTree, Sane, PublicationResources, Saved, Representable;
    hide Layout.Place, Layout.StagingPlace, Layout.Relative;
    PlacesDiffer(layout, id, id);
    match action
    case Reopen(second, paths) => NothingSaved(w.phase.first, second, paths, Staging(layout, id, w));
    case SaveResource(size) => ResourceSaved(w.phase, Staging(layout, id, w), size);
    case SaveManifest => ManifestCompletes(w.phase, Staging(layout, id, w));
    case SaveCover(size) => CoverKeeps(Staging(layout, id, w), size, w.phase.first, w.phase.second);
    case _ =>
  }

  lemma CoverKeeps(tree: Tree, size: nat, first: Opened, second: Opened)
    requires CompleteTree(tree, first, second)
    ensures CompleteTree(tree.(cover := Some(size)), first, second)
  {
  }

  lemma NothingSaved(first: Opened, second: Opened, paths: seq<Bytes>, tree: Tree)
    requires second.revision == first.revision && second.publication == first.publication
    requires PublicationResources(second, paths) && tree.resources == map[]
    requires tree.original.Some? && tree.original.value == first.revision.size
    ensures Partial(Fetching(first, second, paths, 0, 0), tree)
  {
  }

  lemma ResourceSaved(phase: Phase, tree: Tree, size: nat)
    requires phase.Fetching? && Partial(phase, tree) && phase.saved < |phase.paths|
    requires size <= phase.second.limits.resourceBytes && Saved(tree.resources, phase.paths[phase.saved], size).Some?
    requires BoundedAdd(phase.extracted, size, phase.second.limits.totalUncompressedBytes).Some?
    ensures Partial(phase.(saved := phase.saved + 1, extracted := phase.extracted + size),
                    tree.(resources := Saved(tree.resources, phase.paths[phase.saved], size).value))
  {
    hide Sum, PublicationResources;
    var path := phase.paths[phase.saved];
    assert AncestorsFirst(phase.paths) by { PathsInOrder(phase.second, phase.paths); }
    SavedInOrder(tree.resources, phase.paths, phase.saved, size);
    assert path !in tree.resources by { NotSavedYet(phase.paths, phase.saved); }
    SumUpdated(tree.resources, path, size);
  }

  lemma PathsInOrder(first: Opened, paths: seq<Bytes>)
    requires PublicationResources(first, paths)
    ensures AncestorsFirst(paths)
  {
  }

  lemma NotSavedYet(paths: seq<Bytes>, n: nat)
    requires AncestorsFirst(paths) && n < |paths|
    ensures paths[n] !in Prefix(paths, n)
  {
  }

  lemma ManifestCompletes(phase: Phase, tree: Tree)
    requires phase.Fetching? && Partial(phase, tree) && phase.saved == |phase.paths|
    ensures CompleteTree(tree.(manifest := Some(phase.second.publication)), phase.first, phase.second)
  {
    hide Sum, AllSafe, Paths;
    var paths := Paths(Links(phase.second.publication));
    assert Chosen(tree.resources, paths) == tree.resources;
  }

  // ---------------------------------------------------------------- every run, every crash

  ghost predicate Run(layout: Layout, id: BookId, worlds: seq<World>, actions: seq<Action>) {
    |worlds| == |actions| + 1 && Start(layout, id, worlds[0]) &&
    forall i :: 0 <= i < |actions| ==>
      Enabled(layout, id, worlds[i], actions[i]) && (id in worlds[i].books || actions[i].WriteIntent?) &&
      worlds[i + 1] == Next(layout, id, worlds[i], actions[i])
  }

  lemma {:induction false} RunsKeepInv(layout: Layout, id: BookId, worlds: seq<World>, actions: seq<Action>, n: nat)
    requires Run(layout, id, worlds, actions) && n < |worlds|
    ensures Inv(layout, id, worlds[n])
  {
    hide PhaseHolds, Next, Enabled;
    if n > 0 {
      RunsKeepInv(layout, id, worlds, actions, n - 1);
      var m := n - 1;
      assert worlds[m + 1] == Next(layout, id, worlds[m], actions[m]);
      StepKeepsInv(layout, id, worlds[m], actions[m]);
    } else {
      assert PhaseHolds(layout, id, worlds[0]) by { StartHolds(layout, id, worlds[0]); }
    }
  }

  lemma StartHolds(layout: Layout, id: BookId, w: World)
    requires Start(layout, id, w)
    ensures PhaseHolds(layout, id, w)
  {
  }

  /**
   No row is left in progress, and a row counts as downloaded exactly when its directory is complete and
   has a stored path, or could be given one.
   */
  lemma ReconciliationIsExact(layout: Layout, books: Rows, files: Files, id: BookId)
    requires Sane(layout, books) && id in books
    ensures !InProgress(ReconciledRows(layout, books, files)[id])
    ensures books[id].state in {Intent, Downloading, Downloaded} ==>
              (ReconciledRows(layout, books, files)[id].state == Downloaded <==>
                HasRequiredFiles(books[id], TreeAt(files, layout.Place(id))) &&
                if InProgress(books[id]) then layout.Relative(id).Some? else books[id].localPath.Some?)
    ensures books[id].state in {Failed, Missing} ==> ReconciledRows(layout, books, files)[id] == books[id]
  {
    hide HasRequiredFiles, ReconciledBook, InProgress;
    assert SaneRow(layout, id, books[id]);
    ReconciledRowIsExact(layout, files, id, books[id]);
  }

  lemma ReconciledRowIsExact(layout: Layout, files: Files, id: BookId, book: OfflineBook)
    requires SaneRow(layout, id, book)
    ensures !InProgress(ReconciledBook(layout, files, id, book))
    ensures book.state in {Intent, Downloading, Downloaded} ==>
              (ReconciledBook(layout, files, id, book).state == Downloaded <==>
                HasRequiredFiles(book, TreeAt(files, layout.Place(id))) &&
                if InProgress(book) then layout.Relative(id).Some? else book.localPath.Some?)
    ensures book.state in {Failed, Missing} ==> ReconciledBook(layout, files, id, book) == book
  {
    hide HasRequiredFiles, TreeAt;
    if book.localPath.Some? { ResolvedIsPlace(layout, id, book.localPath.value); }
  }

  /** Reconciliation changes nothing of a row but its state, path, cover and message. */
  lemma ReconciledRowKeeps(layout: Layout, books: Rows, files: Files, id: BookId)
    requires Sane(layout, books) && id in books
    ensures var book, after := books[id], ReconciledRows(layout, books, files)[id];
            after == book.(state := after.state, localPath := after.localPath, cover := after.cover,
                           errorMessage := after.errorMessage) &&
            (book.state in {Intent, Downloading} ==>
              if after.state == Downloaded then
                after.localPath.Some? && after.localPath == layout.Relative(id) && after.errorMessage == None &&
                after.cover == (if TreeAt(files, layout.Place(id)).cover.Some?
                                then Some(after.localPath.value + ["cover"]) else None)
              else after == book.(state := Failed, errorMessage := Some("Download interrupted — download again"))) &&
            (book.state == Downloaded ==>
              after == book ||
              after == book.(state := Missing, errorMessage := Some("Download missing — download again")))
  {
    hide HasRequiredFiles, TreeAt, Layout.Place, Layout.Relative, Layout.Resolved;
  }

  /** A second reconciliation changes neither rows nor files. */
  lemma ReconciliationIsStable(layout: Layout, books: Rows, files: Files)
    requires Sane(layout, books)
    ensures var books', files' := ReconciledRows(layout, books, files), files - Abandoned(layout, books, files);
            ReconciledRows(layout, books', files') == books' && files' - Abandoned(layout, books', files') == files'
  {
    hide TreeAt, Abandoned, Sane;
    var books', files' := ReconciledRows(layout, books, files), files - Abandoned(layout, books, files);
    forall id | id in books
      ensures ReconciledBook(layout, files', id, books'[id]) == books'[id]
      ensures !InProgress(books'[id])
    {
      StableRow(layout, books, files, id);
    }
    assert Abandoned(layout, books', files') == {} by { NothingAbandoned(layout, books', files'); }
  }

  lemma NothingAbandoned(layout: Layout, books: Rows, files: Files)
    requires forall id :: id in books ==> !InProgress(books[id])
    ensures Abandoned(layout, books, files) == {}
  {
  }

  lemma StableRow(layout: Layout, books: Rows, files: Files, id: BookId)
    requires Sane(layout, books) && id in books
    ensures var book', files' := ReconciledBook(layout, files, id, books[id]), files - Abandoned(layout, books, files);
            ReconciledBook(layout, files', id, book') == book' && !InProgress(book')
  {
    var book', files' := ReconciledBook(layout, files, id, books[id]), files - Abandoned(layout, books, files);
    PlaceUntouched(layout, books, books, files, id);
    hide TreeAt, Abandoned, WithinLimits, AllSafe, Paths, Links, Layout.Place, Layout.StagingPlace;
    if book'.localPath.Some? { ResolvedIsPlace(layout, id, book'.localPath.value); }
  }

  /** The book had been published, and its files also fit the limits of the first opening. */
  ghost predicate KeptAfterCrash(layout: Layout, id: BookId, w: World) {
    Published'(w.phase) &&
    WithinLimits(TreeAt(w.files, layout.Place(id)).resources, Paths(Links(w.phase.first.publication)),
                 w.phase.first.limits)
  }

  /**
   After a crash at any point of a download, the launch keeps the book exactly when it had been published
   and the files also fit the limits saved in the row.
   */
  lemma CrashRecovery(layout: Layout, id: BookId, worlds: seq<World>, actions: seq<Action>, n: nat)
    requires Run(layout, id, worlds, actions) && n < |worlds| && id in worlds[n].books
    ensures ReconciledRows(layout, worlds[n].books, worlds[n].files)[id].state == Downloaded <==>
              KeptAfterCrash(layout, id, worlds[n])
  {
    hide WithinLimits, HasRequiredFiles, CompleteTree, ReconciledRows, AllSafe, Paths, Next, Enabled, Run;
    RunsKeepInv(layout, id, worlds, actions, n);
    var w := worlds[n];
    ReconciliationIsExact(layout, w.books, w.files, id);
    if Published'(w.phase) {
      CompleteIsRequired(w.books[id], TreeAt(w.files, layout.Place(id)), w.phase.first, w.phase.second);
    } else {
      NothingRequired(w.books[id]);
    }
  }

  lemma CompleteIsRequired(book: OfflineBook, tree: Tree, first: Opened, second: Opened)
    requires RowSays(book, first) && CompleteTree(tree, first, second)
    ensures HasRequiredFiles(book, tree) <==>
              WithinLimits(tree.resources, Paths(Links(first.publication)), first.limits)
  {
    hide WithinLimits, AllSafe, Paths;
  }

  lemma NothingRequired(book: OfflineBook)
    ensures !HasRequiredFiles(book, EMPTY_TREE)
  {
    hide WithinLimits, AllSafe, Paths;
  }

  /**
   In every world of a run after publication, the book's directory holds the original, the manifest and exactly the
   files that the links of the reading order and of the resources name, and all of those links are safe. Once the row
   says downloaded, it leads there.
   */
  lemma PublishedHasEveryLink(layout: Layout, id: BookId, worlds: seq<World>, actions: seq<Action>, n: nat)
    requires Run(layout, id, worlds, actions) && n < |worlds|
    requires worlds[n].phase.Published? || worlds[n].phase.Done?
    ensures var tree, first := TreeAt(worlds[n].files, layout.Place(id)), worlds[n].phase.first;
            var manifest, limits := first.publication, worlds[n].phase.second.limits;
            tree.original.Some? && tree.original.value == first.revision.size && tree.manifest == Some(manifest) &&
            (forall link :: link in manifest.readingOrder || link in manifest.resources ==>
              SafePath(link.href).Some? && SafePath(link.href).value in tree.resources &&
              tree.resources[SafePath(link.href).value] <= limits.resourceBytes) &&
            tree.resources.Keys ==
              (set link | link in manifest.readingOrder && SafePath(link.href).Some? :: SafePath(link.href).value) +
              (set link | link in manifest.resources && SafePath(link.href).Some? :: SafePath(link.href).value) &&
            |tree.resources| <= limits.entries &&
            (tree.resources == map[] || Sum(tree.resources) <= limits.totalUncompressedBytes)
    ensures worlds[n].phase.Done? ==>
              id in worlds[n].books && layout.Relative(id).Some? &&
              var book, path := worlds[n].books[id], layout.Relative(id).value;
              book.state == Downloaded && book.localPath == Some(path) && book.errorMessage == None &&
              book.cover ==
                (if TreeAt(worlds[n].files, layout.Place(id)).cover.Some? then Some(path + ["cover"]) else None)
  {
    hide SafePath, Links, Paths, Sum, Next, Enabled, Run, Chosen, TreeAt, Layout.Place;
    RunsKeepInv(layout, id, worlds, actions, n);
    var tree, manifest := TreeAt(worlds[n].files, layout.Place(id)), worlds[n].phase.first.publication;
    ListedLinks(manifest);
    AllChosen(tree.resources);
    assert |tree.resources| == |tree.resources.Keys|;
  }

  lemma AllChosen(resources: map<Bytes, nat>)
    ensures Chosen(resources, resources.Keys) == resources
  {
  }

  /** In particular a download that reached publication survives when the two openings gave the same limits. */
  lemma PublishedIsKept(layout: Layout, id: BookId, worlds: seq<World>, actions: seq<Action>, n: nat)
    requires Run(layout, id, worlds, actions) && n < |worlds| && id in worlds[n].books
    requires Published'(worlds[n].phase) && worlds[n].phase.second.limits == worlds[n].phase.first.limits
    ensures ReconciledRows(layout, worlds[n].books, worlds[n].files)[id].state == Downloaded
  {
    hide WithinLimits, AllSafe, Paths, Next, Enabled, ReconciledRows;
    RunsKeepInv(layout, id, worlds, actions, n);
    CrashRecovery(layout, id, worlds, actions, n);
  }

  // ---------------------------------------------------------------- a published book that is lost

  const NAME: Bytes := [0x61]
  const MANIFEST := Manifest("", None, [Link(NAME, "text/html")], [])
  const STRICT := Opened(Revision(0, 0), MANIFEST, Limits(1, 10, 0))
  const GENEROUS := Opened(Revision(0, 0), MANIFEST, Limits(1, 10, 10))
  const INTENT := OfflineBook("", 0, 0, 0, None, None, None, Intent, None, None, None, 0.0, false, None, false, None)
  const SENT: Tree := EMPTY_TREE.(original := Some(0))
  const COMPLETE: Tree := SENT.(resources := map[NAME := 5], manifest := Some(MANIFEST))

  const LOSING_RUN: seq<Action> := [
    WriteIntent(INTENT), Open(STRICT), MakeStaging, SaveOriginal(0), Reopen(GENEROUS, [NAME]), SaveResource(5),
    SaveManifest, Publish]

  /** The worlds of that run: the second opening allows the five bytes that the first one did not. */
  function LosingWorlds(layout: Layout, id: BookId): seq<World> {
    var staging := layout.StagingPlace(id);
    var rows: Rows := map[id := INTENT.(revision := Some(STRICT.revision), publication := Some(MANIFEST),
                                        limits := Some(STRICT.limits), state := Downloading)];
    [World(map[], map[], NotStarted),
     World(map[id := INTENT], map[], Opening),
     World(rows, map[], RowUpdated(STRICT)),
     World(rows, map[staging := EMPTY_TREE], Staged(STRICT)),
     World(rows, map[staging := SENT], OriginalSaved(STRICT)),
     World(rows, map[staging := SENT], Fetching(STRICT, GENEROUS, [NAME], 0, 0)),
     World(rows, map[staging := SENT.(resources := map[NAME := 5])], Fetching(STRICT, GENEROUS, [NAME], 1, 5)),
     World(rows, map[staging := COMPLETE], ManifestSaved(STRICT, GENEROUS)),
     World(rows, map[layout.Place(id) := COMPLETE], Published(STRICT, GENEROUS))]
  }

  /** With two different sets of limits a crash can lose a book that had been published. */
  lemma PublishedCanBeLost(layout: Layout, id: BookId)
    requires IsUuid(id) && layout.Relative(id).Some?
    ensures var worlds := LosingWorlds(layout, id);
            Run(layout, id, worlds, LOSING_RUN) && Published'(worlds[8].phase) && id in worlds[8].books &&
            ReconciledRows(layout, worlds[8].books, worlds[8].files)[id].state != Downloaded
  {
    hide Next, Enabled, ReconciledRows, Start, WithinLimits;
    var worlds := LosingWorlds(layout, id);
    LosingRun(layout, id);
    CrashRecovery(layout, id, worlds, LOSING_RUN, 8);
    TooBig();
  }

  lemma TooBig()
    ensures !WithinLimits(COMPLETE.resources, Paths(Links(MANIFEST)), STRICT.limits)
  {
    hide Sum;
    OneLink();
    assert NAME in Paths(Links(MANIFEST));
  }

  lemma OneLink()
    ensures SafePath(NAME) == Some(NAME) && Links(MANIFEST) == [Link(NAME, "text/html")]
    ensures AllSafe(Links(MANIFEST)) && Paths(Links(MANIFEST)) == {NAME}
    ensures PublicationResources(GENEROUS, [NAME])
  {
    hide SafePath;
    PlainName();
    var links := Links(MANIFEST);
    assert links == [Link(NAME, "text/html")];
    assert links[0] in links;
    assert [NAME][0] in Prefix([NAME], 1) && Prefix([NAME], 1) == {NAME} && |{NAME}| == 1;
  }

  lemma PlainName()
    ensures SafePath(NAME) == Some(NAME)
  {
    assert PercentEncoded(NAME) == NAME && EncodedAll([NAME]) == [NAME];
    assert ValidUtf8(NAME[1..]) && AllValid([NAME]);
    WalkEncoded([NAME], []);
    EncodedRaws([NAME]);
    assert Join([NAME], SLASH) == NAME && [] + [NAME] == [NAME];
  }

  lemma LosingRun(layout: Layout, id: BookId)
    requires IsUuid(id) && layout.Relative(id).Some?
    ensures Run(layout, id, LosingWorlds(layout, id), LOSING_RUN)
  {
    hide Next, Enabled;
    var worlds, actions := LosingWorlds(layout, id), LOSING_RUN;
    assert Start(layout, id, worlds[0]);
    forall i | 0 <= i < 8
      ensures Enabled(layout, id, worlds[i], actions[i]) && (id in worlds[i].books || actions[i].WriteIntent?) &&
              worlds[i + 1] == Next(layout, id, worlds[i], actions[i])
    {
      assert Follows(layout, id, i) by {
        if i < 4 {
          PreparingSteps(layout, id, i);
        } else {
          SavingSteps(layout, id, i);
        }
      }
    }
  }

  ghost predicate Follows(layout: Layout, id: BookId, i: nat)
    requires i < 8
  {
    var worlds := LosingWorlds(layout, id);
    Enabled(layout, id, worlds[i], LOSING_RUN[i]) && (id in worlds[i].books || LOSING_RUN[i].WriteIntent?) &&
    worlds[i + 1] == Next(layout, id, worlds[i], LOSING_RUN[i])
  }

  lemma PreparingSteps(layout: Layout, id: BookId, i: nat)
    requires i < 4
    ensures Follows(layout, id, i)
  {
  }

  lemma SavingSteps(layout: Layout, id: BookId, i: nat)
    requires 4 <= i < 8 && IsUuid(id) && layout.Relative(id).Some?
    ensures Follows(layout, id, i)
  {
    hide Follows;
    if i == 4 { Reopens(layout, id); }
    if i == 5 { SavesResource(layout, id); }
    if i == 6 { SavesManifest(layout, id); }
    if i == 7 { Publishes(layout, id); }
  }

  lemma Reopens(layout: Layout, id: BookId)
    ensures Follows(layout, id, 4)
  {
    hide PublicationResources;
    OneLink();
  }

  lemma SavesResource(layout: Layout, id: BookId)
    ensures Follows(layout, id, 5)
  {
    hide PublicationResources;
    NothingBelow();
  }

  lemma NothingBelow()
    ensures Saved(map[], NAME, 5) == Some(map[NAME := 5])
  {
  }

  lemma SavesManifest(layout: Layout, id: BookId)
    ensures Follows(layout, id, 6)
  {
    hide PublicationResources, Saved;
  }

  lemma Publishes(layout: Layout, id: BookId)
    requires IsUuid(id) && layout.Relative(id).Some?
    ensures Follows(layout, id, 7)
  {
    hide PublicationResources, Saved;
    PlacesDiffer(layout, id, id);
  }
}
