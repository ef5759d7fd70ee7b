/** The book catalog's durable rows and directories, and the reconciliation that repairs them at launch. */
module OfflineBookCatalog {
  import opened Options
  import opened OfflineBookModels
  import opened LocalPath
  import opened OfflineBookFiles

  /** Where the catalog keeps its directories, inside the application's container. */
  datatype Layout = Layout(directory: Url, home: Url) {
    function Place(id: BookId): Url { Comparable(directory + [id]) }

    function StagingPlace(id: BookId): Url { Comparable(directory + [id + ".incoming"]) }

    function Relative(id: BookId): Option<Url> { RelativeLocalPath(directory + [id], home) }

    function Resolved(relative: Url): Url { Comparable(LocalUrl(relative, home)) }
  }

  type Rows = map<BookId, OfflineBook>

  /** Directories by location; the two spellings of a location are one. */
  type Files = map<Url, Tree>

  function TreeAt(files: Files, place: Url): Tree {
    if place in files then files[place] else EMPTY_TREE
  }

  /** A UUID string; in particular no identifier is another one with a suffix. */
  predicate IsUuid(id: BookId) { |id| == 36 }

  /** What `queue` and reconciliation keep: a stored path is the row's own directory. */
  ghost predicate Sane(layout: Layout, books: Rows) {
    forall id :: id in books ==> SaneRow(layout, id, books[id])
  }

  lemma PlacesDiffer(layout: Layout, id: BookId, other: BookId)
    requires IsUuid(id) && IsUuid(other)
    ensures layout.Place(id) != layout.StagingPlace(other)
    ensures id != other ==>
              layout.Place(id) != layout.Place(other) && layout.StagingPlace(id) != layout.StagingPlace(other)
  {
    if layout.Place(id) == layout.StagingPlace(other) { ChildrenDiffer(layout.directory, id, other + ".incoming"); }
    if layout.Place(id) == layout.Place(other) { ChildrenDiffer(layout.directory, id, other); }
    if layout.StagingPlace(id) == layout.StagingPlace(other) {
      ChildrenDiffer(layout.directory, id + ".incoming", other + ".incoming");
      assert (id + ".incoming")[..36] == id && (other + ".incoming")[..36] == other;
    }
  }

  predicate InProgress(book: OfflineBook) {
    book.state == Intent || book.state == Downloading
  }

  ghost predicate Recoverable(layout: Layout, files: Files, id: BookId, book: OfflineBook) {
    HasRequiredFiles(book, TreeAt(files, layout.Place(id))) && layout.Relative(id).Some?
  }

  function RecoveredBook(layout: Layout, files: Files, id: BookId, book: OfflineBook): OfflineBook
    requires layout.Relative(id).Some?
  {
    var relative := layout.Relative(id).value;
    book.(state := Downloaded, localPath := Some(relative), errorMessage := None,
          cover := if TreeAt(files, layout.Place(id)).cover.Some? then Some(relative + ["cover"]) else None)
  }

  const INTERRUPTED := "Download interrupted — download again"
  const GONE := "Download missing — download again"

  ghost function ReconciledBook(layout: Layout, files: Files, id: BookId, book: OfflineBook): OfflineBook {
    if InProgress(book) then
      if Recoverable(layout, files, id, book) then RecoveredBook(layout, files, id, book)
      else book.(state := Failed, errorMessage := Some(INTERRUPTED))
    else if book.state == Downloaded &&
            !(book.localPath.Some? && HasRequiredFiles(book, TreeAt(files, layout.Resolved(book.localPath.value))))
    then book.(state := Missing, errorMessage := Some(GONE))
    else book
  }

  ghost function ReconciledRows(layout: Layout, books: Rows, files: Files): Rows {
    map id | id in books :: ReconciledBook(layout, files, id, books[id])
  }

  /** The staging directories of downloads that cannot be recovered. */
  ghost function Abandoned(layout: Layout, books: Rows, files: Files): set<Url> {
    set id | id in books && InProgress(books[id]) && !Recoverable(layout, files, id, books[id])
        :: layout.StagingPlace(id)
  }

  // ---------------------------------------------------------------- what the operations do

  function Upserted(books: Rows, id: BookId, book: OfflineBook): Rows {
    books[id := book]
  }

  function WithEmptyStaging(layout: Layout, files: Files, id: BookId): Files {
    files[layout.StagingPlace(id) := EMPTY_TREE]
  }

  function WithoutStaging(layout: Layout, files: Files, id: BookId): Files {
    files - {layout.StagingPlace(id)}
  }

  /** One rename makes the whole staged tree visible. */
  function AfterPublish(layout: Layout, files: Files, id: BookId): Files {
    WithoutStaging(layout, files, id)[layout.Place(id) := TreeAt(files, layout.StagingPlace(id))]
  }

  class OfflineBookCatalog {
    const layout: Layout
    var books: Rows
    var files: Files

    constructor (layout: Layout, books: Rows, files: Files)
      ensures this.layout == layout && this.books == books && this.files == files
    {
      this.layout, this.books, this.files := layout, books, files;
    }

    method Upsert(id: BookId, book: OfflineBook)
      modifies this
      ensures books == Upserted(old(books), id, book) && files == old(files)
    {
      books := books[id := book];
    }

    method StagingDirectory(id: BookId)
      modifies this
      ensures files == WithEmptyStaging(layout, old(files), id) && books == old(books)
    {
      files := files[layout.StagingPlace(id) := EMPTY_TREE];
    }

    method Publish(id: BookId) returns (relative: Option<Url>)
      requires layout.StagingPlace(id) in files && IsUuid(id)
      modifies this
      ensures files == AfterPublish(layout, old(files), id)
      ensures relative == layout.Relative(id) && books == old(books)
    {
      PlacesDiffer(layout, id, id);
      var staged := files[layout.StagingPlace(id)];
      files := files - {layout.Place(id)};
      files := (files - {layout.StagingPlace(id)})[layout.Place(id) := staged];
      relative := layout.Relative(id);
      assert files == (old(files) - {layout.StagingPlace(id)})[layout.Place(id) := staged];
    }

    method DiscardStaging(id: BookId)
      modifies this
      ensures files == WithoutStaging(layout, old(files), id) && books == old(books)
    {
      files := files - {layout.StagingPlace(id)};
    }

    method ReconcileLocalPublications()
      requires Sane(layout, books)
      modifies this
      ensures books == ReconciledRows(layout, old(books), old(files))
      ensures files == old(files) - Abandoned(layout, old(books), old(files))
      ensures Sane(layout, books)
    {
      hide HasRequiredFiles, Recoverable, ReconciledRows, Abandoned, TreeAt;
      ghost var books0, files0 := books, files;
      NoneReconciled(layout, books, files);
      var rest := books.Keys;
      while rest != {}
        invariant rest <= books0.Keys
        invariant books == books0 + ReconciledRows(layout, books0 - rest, files0)
        invariant files == files0 - Abandoned(layout, books0 - rest, files0)
        decreases rest
      {
        var id :| id in rest;
        var book := books[id];
        PlaceUntouched(layout, books0, books0 - rest, files0, id);
        OneMoreReconciled(layout, books0, files0, rest, id);
        rest := rest - {id};
        if InProgress(book) {
          var complete := CheckRequiredFiles(book, TreeAt(files, layout.Place(id)));
          assert complete && layout.Relative(id).Some? <==> Recoverable(layout, files0, id, book) by {
            RecoverableMeaning(layout, files0, id, book);
          }
          if complete && layout.Relative(id).Some? {
            books := books[id := RecoveredBook(layout, files, id, book)];
          } else {
            books := books[id := book.(state := Failed, errorMessage := Some(INTERRUPTED))];
            files := files - {layout.StagingPlace(id)};
          }
          continue;
        }
        if book.state != Downloaded { continue; }
        var complete := false;
        if book.localPath.Some? {
          ResolvedIsPlace(layout, id, book.localPath.value);
          complete := CheckRequiredFiles(book, TreeAt(files, layout.Resolved(book.localPath.value)));
        }
        if !complete { books := books[id := book.(state := Missing, errorMessage := Some(GONE))]; }
      }
      AllReconciled(layout, books0, files0);
      ReconciledSane(layout, books0, files0);
    }
  }

  lemma RecoverableMeaning(layout: Layout, files: Files, id: BookId, book: OfflineBook)
    ensures Recoverable(layout, files, id, book)
        <==> HasRequiredFiles(book, TreeAt(files, layout.Place(id))) && layout.Relative(id).Some?
  {
  }

  /** A stored path leads to the row's own directory, in either spelling of the container. */
  lemma ResolvedIsPlace(layout: Layout, id: BookId, relative: Url)
    requires layout.Relative(id) == Some(relative)
    ensures layout.Resolved(relative) == layout.Place(id)
  {
    StoredPathResolves(layout.directory + [id], layout.home);
  }

  /** Removing abandoned staging directories touches no book's own directory. */
  lemma PlaceUntouched(layout: Layout, books: Rows, some: Rows, files: Files, id: BookId)
    requires Sane(layout, books) && some.Keys <= books.Keys && id in books
    ensures TreeAt(files - Abandoned(layout, some, files), layout.Place(id)) == TreeAt(files, layout.Place(id))
  {
    forall other | other in some
      ensures layout.Place(id) != layout.StagingPlace(other)
    {
      PlacesDiffer(layout, id, other);
    }
  }

  lemma NoneReconciled(layout: Layout, books: Rows, files: Files)
    ensures books == books + ReconciledRows(layout, books - books.Keys, files)
    ensures files == files - Abandoned(layout, books - books.Keys, files)
  {
    assert books - books.Keys == map[];
  }

  lemma AllReconciled(layout: Layout, books: Rows, files: Files)
    ensures books - {} == books
    ensures books + ReconciledRows(layout, books, files) == ReconciledRows(layout, books, files)
  {
  }

  ghost predicate SaneRow(layout: Layout, id: BookId, book: OfflineBook) {
    IsUuid(id) && (book.localPath.Some? ==> book.localPath == layout.Relative(id)) &&
    (book.limits.Some? ==> Representable(book.limits.value))
  }

  lemma ReconciledSane(layout: Layout, books: Rows, files: Files)
    requires Sane(layout, books)
    ensures Sane(layout, ReconciledRows(layout, books, files))
  {
    hide ReconciledBook, SaneRow;
    forall id | id in books
      ensures SaneRow(layout, id, ReconciledBook(layout, files, id, books[id]))
    {
      ReconciledRowSane(layout, files, id, books[id]);
    }
  }

  lemma ReconciledRowSane(layout: Layout, files: Files, id: BookId, book: OfflineBook)
    requires SaneRow(layout, id, book)
    ensures SaneRow(layout, id, ReconciledBook(layout, files, id, book))
  {
    hide HasRequiredFiles, TreeAt;
  }

  lemma OneMoreReconciled(layout: Layout, books: Rows, files: Files, rest: set<BookId>, id: BookId)
    requires rest <= books.Keys && id in rest
    ensures books + ReconciledRows(layout, books - (rest - {id}), files)
         == (books + ReconciledRows(layout, books - rest, files))[id := ReconciledBook(layout, files, id, books[id])]
    ensures files - Abandoned(layout, books - (rest - {id}), files)
         == (files - Abandoned(layout, books - rest, files))
            - (if InProgress(books[id]) && !Recoverable(layout, files, id, books[id]) then {layout.StagingPlace(id)}
                else {})
    ensures (books + ReconciledRows(layout, books - rest, files))[id] == books[id]
  {
    hide ReconciledBook, Recoverable, InProgress;
    var now, before := books - (rest - {id}), books - rest;
    assert now.Keys == before.Keys + {id};
    AbandonedOne(layout, books, files, now, before, id);
  }

  lemma AbandonedOne(layout: Layout, books: Rows, files: Files, now: Rows, before: Rows, id: BookId)
    requires id in books && now == before[id := books[id]] && id !in before
    ensures Abandoned(layout, now, files) == Abandoned(layout, before, files)
         + (if InProgress(books[id]) && !Recoverable(layout, files, id, books[id]) then {layout.StagingPlace(id)}
             else {})
  {
    hide Recoverable, InProgress;
  }
}
