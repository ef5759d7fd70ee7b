/** Offline reading positions: recording, choosing what to send, and acknowledging what was sent. */
module ReadingProgress {
  import opened Options
  import opened OfflineBookModels

  const INT_MIN := -0x8000_0000_0000_0000

  function Clamped(progression: real): real {
    if progression < 0.0 then 0.0 else if progression > 1.0 then 1.0 else progression
  }

  /** It is the nearest number from 0 to 1. */
  lemma ClampedIsNearest(progression: real, other: real)
    requires 0.0 <= other <= 1.0
    ensures 0.0 <= Clamped(progression) <= 1.0
    ensures Distance(Clamped(progression), progression) <= Distance(other, progression)
  {
  }

  function Distance(a: real, b: real): real {
    if a < b then b - a else a - b
  }

  /** One call of `record`. */
  datatype Call = Call(locator: Locator, progression: real, completed: bool, recordedAt: int)

  function Stamp(book: OfflineBook): int {
    match book.recordedAt
    case None => INT_MIN
    case Some(at) => at
  }

  predicate Accepts(book: OfflineBook, call: Call) {
    call.recordedAt >= Stamp(book)
  }

  function Recorded(book: OfflineBook, call: Call): OfflineBook {
    if Accepts(book, call) then
      book.(locator := Some(call.locator), progression := Clamped(call.progression), completed := call.completed,
            recordedAt := Some(call.recordedAt), pendingProgress := true)
    else book
  }

  predicate StillHolds(book: OfflineBook, recordedAt: int, locator: Locator) {
    book.recordedAt == Some(recordedAt) && book.locator == Some(locator)
  }

  /** What an acknowledged send does to the row as it is then. */
  function Acknowledged(book: OfflineBook, recordedAt: int, locator: Locator): OfflineBook {
    if StillHolds(book, recordedAt, locator) then book.(pendingProgress := false, errorMessage := None) else book
  }

  // ---------------------------------------------------------------- choosing what to send

  datatype Edition = Edition(itemId: int, fileId: int, revision: Option<Revision>)

  datatype Snapshot = Snapshot(id: BookId, book: OfflineBook)

  function EditionOf(book: OfflineBook): Edition {
    Edition(book.itemId, book.fileId, book.revision)
  }

  predicate IsPending(book: OfflineBook, server: string, user: int) {
    book.serverInstanceId == server && book.userId == user && book.pendingProgress
  }

  /** `book` has a position that can be chosen: any recorded stamp but the smallest integer. */
  predicate Candidate(book: OfflineBook, server: string, user: int) {
    IsPending(book, server, user) && Stamp(book) > INT_MIN
  }

  ghost predicate Ascending(chosen: seq<Snapshot>) {
    forall i, j :: 0 <= i < j < |chosen| ==> Stamp(chosen[i].book) <= Stamp(chosen[j].book)
  }

  ghost predicate OnePerEdition(chosen: seq<Snapshot>) {
    forall i, j :: 0 <= i < j < |chosen| ==> EditionOf(chosen[i].book) != EditionOf(chosen[j].book)
  }

  /** `best` maps each edition of the rows seen to a pending row with the greatest stamp. */
  ghost predicate Newest(best: map<Edition, Snapshot>, books: map<BookId, OfflineBook>, seen: set<BookId>,
      server: string, user: int) {
    (forall edition :: edition in best ==>
      best[edition].id in seen && best[edition].id in books && books[best[edition].id] == best[edition].book &&
      Candidate(best[edition].book, server, user) && EditionOf(best[edition].book) == edition) &&
    forall id :: id in seen && id in books && Candidate(books[id], server, user) ==>
      EditionOf(books[id]) in best && Stamp(books[id]) <= Stamp(best[EditionOf(books[id])].book)
  }

  /** A chosen row of the same edition with no smaller stamp. */
  ghost predicate Represented(chosen: seq<Snapshot>, book: OfflineBook) {
    exists s :: s in chosen && EditionOf(s.book) == EditionOf(book) && Stamp(book) <= Stamp(s.book)
  }

  /** For each edition with a pending position, exactly one row, of greatest stamp, in ascending order. */
  ghost predicate IsNewestPending(books: map<BookId, OfflineBook>, server: string, user: int, chosen: seq<Snapshot>) {
    (forall s :: s in chosen ==> s.id in books && books[s.id] == s.book && Candidate(s.book, server, user)) &&
    (forall id :: id in books && Candidate(books[id], server, user) ==> Represented(chosen, books[id])) &&
    OnePerEdition(chosen) && Ascending(chosen)
  }

  method NewestPending(books: map<BookId, OfflineBook>, server: string, user: int) returns (chosen: seq<Snapshot>)
    ensures IsNewestPending(books, server, user, chosen)
  {
    var best: map<Edition, Snapshot> := map[];
    var rest := books.Keys;
    while rest != {}
      invariant rest <= books.Keys && Newest(best, books, books.Keys - rest, server, user)
      decreases rest
    {
      var id :| id in rest;
      rest := rest - {id};
      var book := books[id];
      if IsPending(book, server, user) {
        var edition := EditionOf(book);
        if (if edition in best then Stamp(best[edition].book) else INT_MIN) < Stamp(book) {
          best := best[edition := Snapshot(id, book)];
        }
      }
    }
    chosen := SortedByStamp(best);
    forall id | id in books && Candidate(books[id], server, user)
      ensures Represented(chosen, books[id])
    {
      assert best[EditionOf(books[id])] in chosen;
    }
  }

  /** Some row of the edition can be chosen. */
  ghost predicate EditionHasCandidate(books: map<BookId, OfflineBook>, edition: Edition, server: string, user: int) {
    exists id :: id in books && Candidate(books[id], server, user) && EditionOf(books[id]) == edition
  }

  /** The editions sent are those with a candidate. */
  lemma EditionsSent(books: map<BookId, OfflineBook>, server: string, user: int, chosen: seq<Snapshot>,
      edition: Edition)
    requires IsNewestPending(books, server, user, chosen)
    ensures (exists s :: s in chosen && EditionOf(s.book) == edition)
        <==> EditionHasCandidate(books, edition, server, user)
  {
    hide EditionOf, Candidate, Stamp, OnePerEdition, Ascending;
    if id :| id in books && Candidate(books[id], server, user) && EditionOf(books[id]) == edition {
      assert Represented(chosen, books[id]);
    }
  }

  /**
   A pending row stamped with the smallest integer is never chosen, and does not make its edition be sent:
   the edition is sent exactly when another row of it has a greater stamp.
   */
  lemma SmallestStampIsSkipped(books: map<BookId, OfflineBook>, id: BookId, server: string, user: int,
      chosen: seq<Snapshot>)
    requires IsNewestPending(books, server, user, chosen)
    requires id in books && IsPending(books[id], server, user) && books[id].recordedAt == Some(INT_MIN)
    ensures forall s :: s in chosen ==> s.id != id
    ensures (exists s :: s in chosen && EditionOf(s.book) == EditionOf(books[id]))
        <==> EditionHasCandidate(books - {id}, EditionOf(books[id]), server, user)
  {
    hide EditionOf, OnePerEdition, Ascending, Represented;
    assert !Candidate(books[id], server, user);
    var edition := EditionOf(books[id]);
    EditionsSent(books, server, user, chosen, edition);
    if other :| other in books && Candidate(books[other], server, user) && EditionOf(books[other]) == edition {
      assert other in books - {id} && (books - {id})[other] == books[other];
    }
  }

  /**
   So the chosen rows are pending rows of the user on the server with stamps above the smallest integer, one for each
   item, file and revision that has such a row, none older than another one for the same, in ascending order.
   */
  lemma ChosenMeans(books: map<BookId, OfflineBook>, server: string, user: int, chosen: seq<Snapshot>)
    requires IsNewestPending(books, server, user, chosen)
    ensures forall s :: s in chosen ==>
              s.id in books && books[s.id] == s.book && s.book.serverInstanceId == server && s.book.userId == user &&
              s.book.pendingProgress && s.book.recordedAt.Some? && s.book.recordedAt.value > INT_MIN
    ensures forall id :: id in books && books[id].serverInstanceId == server && books[id].userId == user &&
                         books[id].pendingProgress && books[id].recordedAt.Some? &&
                         books[id].recordedAt.value > INT_MIN ==>
              exists s :: s in chosen && s.book.itemId == books[id].itemId && s.book.fileId == books[id].fileId &&
                          s.book.revision == books[id].revision && s.book.recordedAt.Some? &&
                          books[id].recordedAt.value <= s.book.recordedAt.value
    ensures forall i, j :: 0 <= i < j < |chosen| ==>
              chosen[i].book.recordedAt.Some? && chosen[j].book.recordedAt.Some? &&
              chosen[i].book.recordedAt.value <= chosen[j].book.recordedAt.value &&
              (chosen[i].book.itemId != chosen[j].book.itemId || chosen[i].book.fileId != chosen[j].book.fileId ||
               chosen[i].book.revision != chosen[j].book.revision)
  {
    forall s | s in chosen
      ensures s.book.recordedAt.Some?
    {
      assert Candidate(s.book, server, user);
    }
    forall id | id in books && Candidate(books[id], server, user)
      ensures Represented(chosen, books[id])
    {
    }
    assert forall i :: 0 <= i < |chosen| ==> chosen[i] in chosen;
  }

  method SortedByStamp(best: map<Edition, Snapshot>) returns (chosen: seq<Snapshot>)
    requires forall edition :: edition in best ==> EditionOf(best[edition].book) == edition
    ensures forall s :: s in chosen <==> EditionOf(s.book) in best && best[EditionOf(s.book)] == s
    ensures OnePerEdition(chosen) && Ascending(chosen)
  {
    chosen := [];
    var rest := best.Keys;
    while rest != {}
      invariant rest <= best.Keys && OnePerEdition(chosen) && Ascending(chosen)
      invariant forall s :: s in chosen <==> EditionOf(s.book) in best.Keys - rest && best[EditionOf(s.book)] == s
      decreases rest
    {
      var edition :| edition in rest;
      rest := rest - {edition};
      var snapshot := best[edition];
      var n := 0;
      while n < |chosen| && Stamp(chosen[n].book) <= Stamp(snapshot.book)
        invariant 0 <= n <= |chosen|
        invariant forall i :: 0 <= i < n ==> Stamp(chosen[i].book) <= Stamp(snapshot.book)
      {
        n := n + 1;
      }
      Inserted(chosen, snapshot, n);
      chosen := chosen[..n] + [snapshot] + chosen[n..];
    }
  }

  lemma Inserted(chosen: seq<Snapshot>, snapshot: Snapshot, n: nat)
    requires n <= |chosen| && Ascending(chosen) && OnePerEdition(chosen)
    requires forall i :: 0 <= i < n ==> Stamp(chosen[i].book) <= Stamp(snapshot.book)
    requires n < |chosen| ==> Stamp(snapshot.book) < Stamp(chosen[n].book)
    requires forall s :: s in chosen ==> EditionOf(s.book) != EditionOf(snapshot.book)
    ensures var inserted := chosen[..n] + [snapshot] + chosen[n..];
            Ascending(inserted) && OnePerEdition(inserted) &&
            forall s :: s in inserted <==> s == snapshot || s in chosen
  {
    hide Stamp, EditionOf, Ascending, OnePerEdition;
    assert chosen == chosen[..n] + chosen[n..];
    InsertedInOrder(chosen, snapshot, n);
    InsertedApart(chosen, snapshot, n);
  }

  lemma InsertedInOrder(chosen: seq<Snapshot>, snapshot: Snapshot, n: nat)
    requires n <= |chosen| && Ascending(chosen)
    requires forall i :: 0 <= i < n ==> Stamp(chosen[i].book) <= Stamp(snapshot.book)
    requires n < |chosen| ==> Stamp(snapshot.book) < Stamp(chosen[n].book)
    ensures Ascending(chosen[..n] + [snapshot] + chosen[n..])
  {
    hide Stamp;
    assert forall i :: n <= i < |chosen| ==> Stamp(chosen[n].book) <= Stamp(chosen[i].book);
  }

  lemma InsertedApart(chosen: seq<Snapshot>, snapshot: Snapshot, n: nat)
    requires n <= |chosen| && OnePerEdition(chosen)
    requires forall s :: s in chosen ==> EditionOf(s.book) != EditionOf(snapshot.book)
    ensures OnePerEdition(chosen[..n] + [snapshot] + chosen[n..])
  {
    hide EditionOf;
    assert forall i :: 0 <= i < |chosen| ==> chosen[i] in chosen;
  }

  // ---------------------------------------------------------------- recording while a send is under way

  /** The row after a list of `record` calls. */
  function AfterCalls(book: OfflineBook, calls: seq<Call>): OfflineBook {
    if calls == [] then book else Recorded(AfterCalls(book, calls[..|calls| - 1]), calls[|calls| - 1])
  }

  /** The last call that was accepted, if any. */
  function LastAccepted(book: OfflineBook, calls: seq<Call>): Option<Call> {
    if calls == [] then None
    else
      var before := calls[..|calls| - 1];
      if Accepts(AfterCalls(book, before), calls[|calls| - 1]) then Some(calls[|calls| - 1])
          else LastAccepted(book, before)
  }

  datatype Position = Position(locator: Option<Locator>, progression: real, completed: bool, recordedAt: Option<int>)

  function PositionOf(book: OfflineBook): Position {
    Position(book.locator, book.progression, book.completed, book.recordedAt)
  }

  lemma {:induction false} AfterCallsIsLast(book: OfflineBook, calls: seq<Call>)
    ensures LastAccepted(book, calls) == None ==> AfterCalls(book, calls) == book
    ensures LastAccepted(book, calls).Some? ==>
              var last := LastAccepted(book, calls).value;
              AfterCalls(book, calls)
                == book.(locator := Some(last.locator), progression := Clamped(last.progression),
                         completed := last.completed, recordedAt := Some(last.recordedAt), pendingProgress := true)
    ensures Stamp(AfterCalls(book, calls)) >= Stamp(book)
  {
    if calls != [] { AfterCallsIsLast(book, calls[..|calls| - 1]); }
  }

  /** A newer stamp or another locator recorded during the send keeps the row pending. */
  lemma NewerPositionStaysPending(book: OfflineBook, calls: seq<Call>, recordedAt: int, locator: Locator)
    requires StillHolds(book, recordedAt, locator) && book.pendingProgress
    ensures var now := AfterCalls(book, calls);
            Acknowledged(now, recordedAt, locator).pendingProgress <==>
              LastAccepted(book, calls).Some? &&
              (LastAccepted(book, calls).value.recordedAt != recordedAt ||
                  LastAccepted(book, calls).value.locator != locator)
  {
    AfterCallsIsLast(book, calls);
  }

  /** The row is marked as sent although its position differs from the one sent. */
  predicate LosesPosition(book: OfflineBook, calls: seq<Call>, recordedAt: int, locator: Locator) {
    var now := Acknowledged(AfterCalls(book, calls), recordedAt, locator);
    !now.pendingProgress && PositionOf(now) != PositionOf(book)
  }

  /**
   The acknowledgement compares stamp and locator only. So a position is lost exactly when the last accepted
   call repeated both and changed the progression or the completed flag.
   */
  lemma LossCondition(book: OfflineBook, calls: seq<Call>, recordedAt: int, locator: Locator)
    requires StillHolds(book, recordedAt, locator) && book.pendingProgress
    ensures LosesPosition(book, calls, recordedAt, locator) <==>
              LastAccepted(book, calls).Some? &&
              var last := LastAccepted(book, calls).value;
              last.recordedAt == recordedAt && last.locator == locator &&
              (Clamped(last.progression) != book.progression || last.completed != book.completed)
  {
    AfterCallsIsLast(book, calls);
  }

  /** Callers that never reuse a stamp lose nothing. */
  lemma FreshStampsLoseNothing(book: OfflineBook, calls: seq<Call>, recordedAt: int, locator: Locator)
    requires StillHolds(book, recordedAt, locator) && book.pendingProgress
    requires forall call :: call in calls ==> call.recordedAt != recordedAt
    ensures !LosesPosition(book, calls, recordedAt, locator)
  {
    AfterCallsIsLast(book, calls);
    LastAcceptedIsCall(book, calls);
  }

  lemma {:induction false} LastAcceptedIsCall(book: OfflineBook, calls: seq<Call>)
    ensures LastAccepted(book, calls).Some? ==> LastAccepted(book, calls).value in calls
  {
    if calls != [] { LastAcceptedIsCall(book, calls[..|calls| - 1]); }
  }

  /** Turning a page back to the same place within one stamp is such a case. */
  lemma RepeatedStampLoses(book: OfflineBook, locator: Locator)
    requires book.recordedAt == Some(5) && book.locator == Some(locator) && book.pendingProgress
    requires book.progression == 0.5 && !book.completed
    ensures LosesPosition(book, [Call(locator, 1.0, true, 5)], 5, locator)
  {
    var calls := [Call(locator, 1.0, true, 5)];
    assert calls[..0] == [];
    assert AfterCalls(book, []) == book;
    assert LastAccepted(book, calls) == Some(calls[0]);
    LossCondition(book, calls, 5, locator);
  }

  // ---------------------------------------------------------------- every interleaving of record and sync

  datatype Sent = Sent(id: BookId, position: Position)

  /** `sent` is everything the server has confirmed. */
  datatype World = World(books: map<BookId, OfflineBook>, sent: set<Sent>)

  datatype Step =
    | Record(id: BookId, call: Call)
    | Confirm(snapshot: Snapshot)                      // the server accepted a snapshot taken earlier
    | Acknowledge(snapshot: Snapshot)                  // the row is updated for a confirmed snapshot

  ghost predicate Enabled(w: World, step: Step) {
    match step
    case Record(id, call) => id in w.books
    case Confirm(snapshot) => snapshot.book.locator.Some? && snapshot.book.recordedAt.Some?
    case Acknowledge(snapshot) =>
      snapshot.id in w.books && snapshot.book.locator.Some? && snapshot.book.recordedAt.Some? &&
      Sent(snapshot.id, PositionOf(snapshot.book)) in w.sent
  }

  ghost function Next(w: World, step: Step): World
    requires Enabled(w, step)
  {
    match step
    case Record(id, call) => w.(books := w.books[id := Recorded(w.books[id], call)])
    case Confirm(snapshot) => w.(sent := w.sent + {Sent(snapshot.id, PositionOf(snapshot.book))})
    case Acknowledge(snapshot) =>
      w.(books := w.books[snapshot.id :=
        Acknowledged(w.books[snapshot.id], snapshot.book.recordedAt.value, snapshot.book.locator.value)])
  }

  /** Every recorded row that is not pending has had its stamp and locator confirmed by the server. */
  ghost predicate NothingUnsent(w: World) {
    forall id :: id in w.books && w.books[id].recordedAt.Some? && !w.books[id].pendingProgress ==>
      exists s :: s in w.sent && s.id == id && s.position.recordedAt == w.books[id].recordedAt
                  && s.position.locator == w.books[id].locator
  }

  /** No step lowers a stamp, and none clears a pending flag without a confirmation of the row's stamp and locator. */
  lemma StepKeepsPositions(w: World, step: Step, id: BookId)
    requires NothingUnsent(w) && Enabled(w, step) && id in w.books
    ensures NothingUnsent(Next(w, step))
    ensures id in Next(w, step).books && Stamp(Next(w, step).books[id]) >= Stamp(w.books[id])
  {
    forall other | other in Next(w, step).books && Next(w, step).books[other].recordedAt.Some?
                   && !Next(w, step).books[other].pendingProgress
      ensures exists s :: s in Next(w, step).sent && s.id == other
                && s.position.recordedAt == Next(w, step).books[other].recordedAt
                && s.position.locator == Next(w, step).books[other].locator
    {
      if step.Acknowledge? && step.snapshot.id == other
         && StillHolds(w.books[other], step.snapshot.book.recordedAt.value, step.snapshot.book.locator.value) {
        assert Sent(other, PositionOf(step.snapshot.book)) in Next(w, step).sent;
      } else {
        var s :| s in w.sent && s.id == other && s.position.recordedAt == w.books[other].recordedAt
                 && s.position.locator == w.books[other].locator;
        assert s in Next(w, step).sent;
      }
    }
  }

  /** A position that is sent while nothing is recorded is no longer pending, and nothing else of the book changes. */
  lemma SendClears(w: World, id: BookId)
    requires id in w.books && w.books[id].locator.Some? && w.books[id].recordedAt.Some?
    ensures var snapshot := Snapshot(id, w.books[id]);
            Enabled(w, Confirm(snapshot)) && Enabled(Next(w, Confirm(snapshot)), Acknowledge(snapshot)) &&
            Next(Next(w, Confirm(snapshot)), Acknowledge(snapshot)).books ==
              w.books[id := w.books[id].(pendingProgress := false, errorMessage := None)]
  {
  }

  ghost predicate Run(worlds: seq<World>, steps: seq<Step>) {
    |worlds| == |steps| + 1 && NothingUnsent(worlds[0]) &&
    forall i :: 0 <= i < |steps| ==> Enabled(worlds[i], steps[i]) && worlds[i + 1] == Next(worlds[i], steps[i])
  }

  /** Over every run, stamps only grow and a row leaves the pending state only with its position confirmed. */
  lemma {:induction false} RunsKeepPositions(worlds: seq<World>, steps: seq<Step>, n: nat, id: BookId)
    requires Run(worlds, steps) && n < |worlds| && id in worlds[0].books
    ensures NothingUnsent(worlds[n]) && id in worlds[n].books &&
            Stamp(worlds[n].books[id]) >= Stamp(worlds[0].books[id])
  {
    if n > 0 {
      RunsKeepPositions(worlds, steps, n - 1, id);
      var m := n - 1;
      assert worlds[m + 1] == Next(worlds[m], steps[m]);
      StepKeepsPositions(worlds[m], steps[m], id);
    }
  }
}
