/**
 Coalescing of simultaneous artwork requests: one flight per key, its waiters, and cancellation.
 Actor methods are atomic between awaits; the system is every interleaving of their steps.
 */
module DownloadCoordinator {

  type Key = string
  type Id = nat     // a fresh UUID of the source

  /** A shared download; its task is identified with the flight. */
  datatype Flight = Flight(id: Id, waiters: set<Id>)

  type InFlight = map<Key, Flight>

  // ---------------------------------------------------------------- what the actor's methods do

  predicate IsWaiting(inFlight: InFlight, key: Key, flight: Id, waiter: Id) {
    key in inFlight && inFlight[key].id == flight && waiter in inFlight[key].waiters
  }

  /** Join the flight for the key, or start one. */
  function Joined(inFlight: InFlight, key: Key, waiter: Id, unused: Id): InFlight {
    if key in inFlight then inFlight[key := inFlight[key].(waiters := inFlight[key].waiters + {waiter})]
    else inFlight[key := Flight(unused, {waiter})]
  }

  /** Remove one waiter from its flight, and the flight with its last waiter. */
  function WithoutWaiter(inFlight: InFlight, key: Key, flight: Id, waiter: Id): InFlight {
    if !IsWaiting(inFlight, key, flight, waiter) then inFlight
    else
      var rest := inFlight[key].waiters - {waiter};
      if rest == {} then inFlight - {key} else inFlight[key := Flight(flight, rest)]
  }

  predicate IsLast(inFlight: InFlight, key: Key, flight: Id, waiter: Id) {
    IsWaiting(inFlight, key, flight, waiter) && inFlight[key].waiters == {waiter}
  }

  function FlightIds(inFlight: InFlight): set<Id> {
    set key | key in inFlight :: inFlight[key].id
  }

  lemma FlightIdOf(inFlight: InFlight, key: Key)
    ensures key in inFlight ==> inFlight[key].id in FlightIds(inFlight)
  {
  }

  /** The actor; `cancelled` collects the flights whose task was told to cancel. */
  class AuthImageDownloadCoordinator {
    var inFlight: InFlight
    var cancelled: set<Id>

    constructor ()
      ensures inFlight == map[] && cancelled == {}
    {
      inFlight, cancelled := map[], {};
    }

    /** The synchronous part of `download`, before the first await. */
    method BeginDownload(key: Key, waiter: Id, unused: Id) returns (flight: Id, started: bool)
      modifies this
      ensures inFlight == Joined(old(inFlight), key, waiter, unused) && cancelled == old(cancelled)
      ensures key in inFlight && flight == inFlight[key].id && waiter in inFlight[key].waiters
      ensures started <==> key !in old(inFlight)
      ensures started ==> flight == unused
    {
      started := key !in inFlight;
      if !started {
        var joined := inFlight[key];
        joined := joined.(waiters := joined.waiters + {waiter});
        inFlight := inFlight[key := joined];
        flight := joined.id;
      } else {
        flight := unused;
        inFlight := inFlight[key := Flight(flight, {waiter})];
      }
    }

    method FinishWaiter(key: Key, flight: Id, waiter: Id, cancelTaskWhenLast: bool)
      modifies this
      ensures inFlight == WithoutWaiter(old(inFlight), key, flight, waiter)
      ensures cancelled == old(cancelled) +
                if cancelTaskWhenLast && IsLast(old(inFlight), key, flight, waiter) then {flight} else {}
    {
      if key !in inFlight || inFlight[key].id != flight || waiter !in inFlight[key].waiters { return; }
      var rest := inFlight[key].waiters - {waiter};
      assert rest == {} <==> inFlight[key].waiters == {waiter};
      if rest == {} {
        inFlight := inFlight - {key};
        if cancelTaskWhenLast { cancelled := cancelled + {flight}; }
      } else {
        inFlight := inFlight[key := Flight(flight, rest)];
      }
    }

    method CancelAll()
      modifies this
      ensures inFlight == map[] && cancelled == old(cancelled) + FlightIds(old(inFlight))
    {
      var flights := FlightIds(inFlight);
      inFlight := map[];
      cancelled := cancelled + flights;
    }

    method WaiterCount(key: Key) returns (count: nat)
      ensures count == if key in inFlight then |inFlight[key].waiters| else 0
      ensures (forall k :: k in inFlight ==> inFlight[k].waiters != {}) ==> (count == 0 <==> key !in inFlight)
    {
      count := if key in inFlight then |inFlight[key].waiters| else 0;
    }
  }

  // ---------------------------------------------------------------- the whole system

  datatype Task = Task(key: Key, finished: bool)

  /** A caller suspended in `download`; `resumed` and `cancelRan` say which of its clean-ups have run. */
  datatype Wait = Wait(key: Key, flight: Id, resumed: bool, cancelRequested: bool, cancelRan: bool)

  /** `removals` records every waiter that a clean-up actually removed. */
  datatype World = World(
    inFlight: InFlight, cancelled: set<Id>, tasks: map<Id, Task>, waits: map<Id, Wait>, removals: seq<Id>)

  const START := World(map[], {}, map[], map[], [])

  datatype Step =
    | Download(key: Key, waiter: Id, unused: Id)   // a caller enters `download`
    | TaskEnds(flight: Id)                        // the shared operation returns
    | Resume(waiter: Id)                          // a caller's await of its flight returns
    | Cancel(waiter: Id)                          // a caller is cancelled, which schedules its clean-up
    | RunCancel(waiter: Id)                       // the scheduled clean-up runs
    | CancelAll

  /** New identifiers are unused, and each event follows the one that causes it. */
  ghost predicate Enabled(w: World, step: Step) {
    match step
    case Download(key, waiter, unused) => waiter !in w.waits && unused !in w.tasks
    case TaskEnds(flight) => flight in w.tasks && !w.tasks[flight].finished
    case Resume(waiter) =>
      waiter in w.waits && !w.waits[waiter].resumed &&
      w.waits[waiter].flight in w.tasks && w.tasks[w.waits[waiter].flight].finished
    case Cancel(waiter) => waiter in w.waits && !w.waits[waiter].resumed
    case RunCancel(waiter) => waiter in w.waits && w.waits[waiter].cancelRequested && !w.waits[waiter].cancelRan
    case CancelAll => true
  }

  function CleanUp(w: World, waiter: Id, cancelTaskWhenLast: bool): World
    requires waiter in w.waits
  {
    var wait := w.waits[waiter];
    w.(inFlight := WithoutWaiter(w.inFlight, wait.key, wait.flight, waiter),
       cancelled := w.cancelled +
         (if cancelTaskWhenLast && IsLast(w.inFlight, wait.key, wait.flight, waiter) then {wait.flight} else {}),
       removals := w.removals + (if IsWaiting(w.inFlight, wait.key, wait.flight, waiter) then [waiter] else []))
  }

  ghost function Next(w: World, step: Step): World
    requires Enabled(w, step)
  {
    match step
    case Download(key, waiter, unused) =>
      var inFlight := Joined(w.inFlight, key, waiter, unused);
      w.(inFlight := inFlight,
         tasks := if key in w.inFlight then w.tasks else w.tasks[unused := Task(key, false)],
         waits := w.waits[waiter := Wait(key, inFlight[key].id, false, false, false)])
    case TaskEnds(flight) => w.(tasks := w.tasks[flight := w.tasks[flight].(finished := true)])
    case Resume(waiter) => CleanUp(w, waiter, false).(waits := w.waits[waiter := w.waits[waiter].(resumed := true)])
    case Cancel(waiter) => w.(waits := w.waits[waiter := w.waits[waiter].(cancelRequested := true)])
    case RunCancel(waiter) => CleanUp(w, waiter, true).(waits := w.waits[waiter := w.waits[waiter].(cancelRan := true)])
    case CancelAll => w.(inFlight := map[], cancelled := w.cancelled + FlightIds(w.inFlight))
  }

  ghost predicate Waiting(wait: Wait) {
    !wait.resumed && !wait.cancelRan
  }

  /** A task that has neither returned nor been told to cancel. */
  ghost predicate Live(w: World, flight: Id) {
    flight in w.tasks && !w.tasks[flight].finished && flight !in w.cancelled
  }

  /** A flight in the map has waiters, all of them suspended callers of that key, and was not cancelled. */
  ghost predicate FlightKept(w: World, key: Key)
    requires key in w.inFlight
  {
    var flight := w.inFlight[key];
    flight.waiters != {} && flight.id in w.tasks && w.tasks[flight.id].key == key && flight.id !in w.cancelled &&
    forall waiter :: waiter in flight.waiters ==> WaitsFor(w, waiter, key, flight.id)
  }

  ghost predicate WaitsFor(w: World, waiter: Id, key: Key, flight: Id) {
    waiter in w.waits && w.waits[waiter].key == key && w.waits[waiter].flight == flight && Waiting(w.waits[waiter])
  }

  ghost predicate IsInFlight(w: World, flight: Id)
    requires flight in w.tasks
  {
    w.tasks[flight].key in w.inFlight && w.inFlight[w.tasks[flight].key].id == flight
  }

  /** A suspended caller is registered with its flight, unless that flight was cancelled. */
  ghost predicate Registered(w: World, waiter: Id)
    requires waiter in w.waits
  {
    var wait := w.waits[waiter];
    wait.flight in w.tasks && w.tasks[wait.flight].key == wait.key &&
    (Waiting(wait) ==> IsWaiting(w.inFlight, wait.key, wait.flight, waiter) || wait.flight in w.cancelled)
  }

  /** No waiter is removed twice, and none stops waiting without being removed, unless its flight was cancelled. */
  ghost predicate RemovedOnce(w: World) {
    (forall i, j :: 0 <= i < j < |w.removals| ==> w.removals[i] != w.removals[j]) &&
    (forall waiter :: waiter in w.removals ==> waiter in w.waits && !Waiting(w.waits[waiter])) &&
    forall waiter :: waiter in w.waits && !Waiting(w.waits[waiter]) && w.waits[waiter].flight !in w.cancelled ==>
      waiter in w.removals
  }

  ghost predicate Inv(w: World) {
    (forall key :: key in w.inFlight ==> FlightKept(w, key)) &&
    (forall flight :: Live(w, flight) ==> IsInFlight(w, flight)) &&
    (forall waiter :: waiter in w.waits ==> Registered(w, waiter)) &&
    w.cancelled <= w.tasks.Keys && RemovedOnce(w)
  }

  lemma StepKeepsInv(w: World, step: Step)
    requires Inv(w) && Enabled(w, step)
    ensures Inv(Next(w, step))
  {
    match step
    case Download(key, waiter, unused) => DownloadKeepsInv(w, key, waiter, unused);
    case TaskEnds(flight) =>
      assert forall other :: Live(Next(w, step), other) ==> Live(w, other);
    case Resume(waiter) => CleanUpKeepsInv(w, waiter, false);
    case Cancel(waiter) =>
      assert forall other :: Live(Next(w, step), other) ==> Live(w, other);
    case RunCancel(waiter) => CleanUpKeepsInv(w, waiter, true);
    case CancelAll =>
      forall flight | Live(w, flight)
        ensures flight in FlightIds(w.inFlight)
      {
        assert IsInFlight(w, flight);
      }
      forall waiter | waiter in w.waits
        ensures Registered(Next(w, step), waiter)
      {
        assert Registered(w, waiter);
        FlightIdOf(w.inFlight, w.waits[waiter].key);
      }
  }

  lemma DownloadKeepsInv(w: World, key: Key, waiter: Id, unused: Id)
    requires Inv(w) && Enabled(w, Download(key, waiter, unused))
    ensures Inv(Next(w, Download(key, waiter, unused)))
  {
    var w' := Next(w, Download(key, waiter, unused));
    forall other | other in w'.inFlight
      ensures FlightKept(w', other)
    {
      if other in w.inFlight { assert FlightKept(w, other); }
    }
    forall flight | Live(w', flight)
      ensures IsInFlight(w', flight)
    {
      if Live(w, flight) { assert IsInFlight(w, flight); }
    }
    forall other | other in w'.waits
      ensures Registered(w', other)
    {
      if other in w.waits { assert Registered(w, other); }
    }
    assert RemovedOnce(w');
  }

  /** A clean-up, together with the mark that it ran. */
  function CleanedUp(w: World, waiter: Id, cancelTaskWhenLast: bool): World
    requires waiter in w.waits
  {
    var marked := if cancelTaskWhenLast then w.waits[waiter].(cancelRan := true) else w.waits[waiter].(resumed := true);
    CleanUp(w, waiter, cancelTaskWhenLast).(waits := w.waits[waiter := marked])
  }

  lemma CleanUpKeepsInv(w: World, waiter: Id, cancelTaskWhenLast: bool)
    requires Inv(w) && waiter in w.waits
    requires !cancelTaskWhenLast ==> w.waits[waiter].flight in w.tasks && w.tasks[w.waits[waiter].flight].finished
    ensures Inv(CleanedUp(w, waiter, cancelTaskWhenLast))
  {
    var w', wait := CleanedUp(w, waiter, cancelTaskWhenLast), w.waits[waiter];
    assert Registered(w, waiter);
    CleanUpFlights(w, waiter, cancelTaskWhenLast);
    forall flight | Live(w', flight)
      ensures IsInFlight(w', flight)
    {
      assert Live(w, flight) && IsInFlight(w, flight);
    }
    forall other | other in w'.waits
      ensures Registered(w', other)
    {
      assert Registered(w, other);
      if other != waiter && IsWaiting(w.inFlight, w.waits[other].key, w.waits[other].flight, other) {
        CleanUpKeepsOthers(w.inFlight, wait.key, wait.flight, waiter, w.waits[other].key, w.waits[other].flight, other);
      }
    }
    CleanUpRemovals(w, waiter, cancelTaskWhenLast);
  }

  lemma CleanUpFlights(w: World, waiter: Id, cancelTaskWhenLast: bool)
    requires Inv(w) && waiter in w.waits
    ensures var w' := CleanedUp(w, waiter, cancelTaskWhenLast);
            forall key :: key in w'.inFlight ==> FlightKept(w', key)
  {
    var w', wait := CleanedUp(w, waiter, cancelTaskWhenLast), w.waits[waiter];
    forall key | key in w'.inFlight
      ensures FlightKept(w', key)
    {
      assert FlightKept(w, key);
      var flight := w.inFlight[key].id;
      forall other | other in w'.inFlight[key].waiters
        ensures WaitsFor(w', other, key, flight)
      {
        assert WaitsFor(w, other, key, flight);
      }
    }
  }

  lemma CleanUpKeepsOthers(inFlight: InFlight, key: Key, flight: Id, waiter: Id, key': Key, flight': Id, other: Id)
    requires other != waiter && IsWaiting(inFlight, key', flight', other)
    ensures IsWaiting(WithoutWaiter(inFlight, key, flight, waiter), key', flight', other)
  {
    if IsWaiting(inFlight, key, flight, waiter) && key == key' { assert other in inFlight[key].waiters - {waiter}; }
  }

  lemma CleanUpRemovals(w: World, waiter: Id, cancelTaskWhenLast: bool)
    requires Inv(w) && waiter in w.waits
    ensures RemovedOnce(CleanedUp(w, waiter, cancelTaskWhenLast))
  {
    var wait := w.waits[waiter];
    if IsWaiting(w.inFlight, wait.key, wait.flight, waiter) {
      assert FlightKept(w, wait.key) && WaitsFor(w, waiter, wait.key, wait.flight);
      assert waiter !in w.removals;
    }
  }

  // ---------------------------------------------------------------- every run

  ghost predicate Run(worlds: seq<World>, steps: seq<Step>) {
    |worlds| == |steps| + 1 && worlds[0] == START &&
    forall i :: 0 <= i < |steps| ==> Enabled(worlds[i], steps[i]) && worlds[i + 1] == Next(worlds[i], steps[i])
  }

  lemma {:induction false} RunsKeepInv(worlds: seq<World>, steps: seq<Step>, n: nat)
    requires Run(worlds, steps) && n < |worlds|
    ensures Inv(worlds[n])
  {
    if n > 0 {
      RunsKeepInv(worlds, steps, n - 1);
      assert worlds[n - 1 + 1] == Next(worlds[n - 1], steps[n - 1]);
      StepKeepsInv(worlds[n - 1], steps[n - 1]);
    }
  }

  /**
   In every interleaving: at most one live task per key, and it is the flight in the map; a flight in
   the map has a waiter and an uncancelled task; a caller is removed once, when it stops waiting.
   */
  lemma OneLiveTaskPerKey(worlds: seq<World>, steps: seq<Step>, n: nat, a: Id, b: Id)
    requires Run(worlds, steps) && n < |worlds|
    ensures Live(worlds[n], a) && Live(worlds[n], b) && worlds[n].tasks[a].key == worlds[n].tasks[b].key ==> a == b
    ensures Live(worlds[n], a) <==>
              a in worlds[n].tasks && !worlds[n].tasks[a].finished && a in FlightIds(worlds[n].inFlight)
    ensures forall key :: key in worlds[n].inFlight ==> worlds[n].inFlight[key].waiters != {}
    ensures forall i, j :: 0 <= i < j < |worlds[n].removals| ==> worlds[n].removals[i] != worlds[n].removals[j]
    ensures forall waiter :: waiter in worlds[n].waits && worlds[n].waits[waiter].flight !in worlds[n].cancelled ==>
              (waiter in worlds[n].removals <==> !Waiting(worlds[n].waits[waiter]))
  {
    RunsKeepInv(worlds, steps, n);
    var w := worlds[n];
    if Live(w, a) { assert IsInFlight(w, a); }
    if Live(w, b) { assert IsInFlight(w, b); }
    forall key | key in w.inFlight
      ensures w.inFlight[key].waiters != {} && w.inFlight[key].id !in w.cancelled
    {
      assert FlightKept(w, key);
    }
  }

  /** A caller still suspended on a flight that was not cancelled keeps that flight, whatever others do. */
  lemma OthersCannotStrand(worlds: seq<World>, steps: seq<Step>, n: nat, waiter: Id)
    requires Run(worlds, steps) && n < |worlds| && waiter in worlds[n].waits && Waiting(worlds[n].waits[waiter])
    ensures var wait := worlds[n].waits[waiter];
            wait.flight in worlds[n].cancelled || IsWaiting(worlds[n].inFlight, wait.key, wait.flight, waiter)
  {
    RunsKeepInv(worlds, steps, n);
    assert Registered(worlds[n], waiter);
  }

  /** Only `cancelAll` cancels a flight that somebody still waits for. */
  lemma CancelNeedsLastWaiter(w: World, step: Step, waiter: Id)
    requires Inv(w) && Enabled(w, step) && !step.CancelAll?
    requires waiter in w.waits && Waiting(w.waits[waiter]) && waiter in Next(w, step).waits
    requires Waiting(Next(w, step).waits[waiter]) && w.waits[waiter].flight !in w.cancelled
    ensures w.waits[waiter].flight !in Next(w, step).cancelled
  {
    var wait := w.waits[waiter];
    assert Registered(w, waiter) && IsWaiting(w.inFlight, wait.key, wait.flight, waiter);
  }

  /** A flight is cancelled exactly by `cancelAll` or by the clean-up of a cancelled caller that was its only waiter. */
  lemma CancelledExactly(w: World, step: Step, flight: Id)
    requires Inv(w) && Enabled(w, step) && flight !in w.cancelled
    ensures flight in Next(w, step).cancelled <==>
              flight in FlightIds(w.inFlight) &&
              (step.CancelAll? ||
               (step.RunCancel? && w.waits[step.waiter].flight == flight &&
                forall key :: key in w.inFlight && w.inFlight[key].id == flight ==>
                  w.inFlight[key].waiters == {step.waiter}))
  {
    if step.RunCancel? && flight in FlightIds(w.inFlight) {
      var key :| key in w.inFlight && w.inFlight[key].id == flight;
      assert FlightKept(w, key);
      if w.inFlight[key].waiters == {step.waiter} {
        assert step.waiter in w.inFlight[key].waiters;
        assert WaitsFor(w, step.waiter, key, flight);
      }
      assert Registered(w, step.waiter);
    }
  }

  /** A late clean-up from a flight that is no longer current changes no flight. */
  lemma LateFinishIsHarmless(w: World, step: Step, key: Key)
    requires Inv(w) && Enabled(w, step) && (step.Resume? || step.RunCancel?)
    requires key in w.inFlight && w.inFlight[key].id != w.waits[step.waiter].flight
    ensures key in Next(w, step).inFlight && Next(w, step).inFlight[key] == w.inFlight[key]
    ensures w.inFlight[key].id !in Next(w, step).cancelled
  {
  }

  /** When no caller is suspended any more, nothing is left in flight. */
  lemma NothingLeaks(worlds: seq<World>, steps: seq<Step>, n: nat)
    requires Run(worlds, steps) && n < |worlds|
    requires forall waiter :: waiter in worlds[n].waits ==> !Waiting(worlds[n].waits[waiter])
    ensures worlds[n].inFlight == map[]
    ensures forall flight :: flight in worlds[n].tasks ==>
              worlds[n].tasks[flight].finished || flight in worlds[n].cancelled
  {
    RunsKeepInv(worlds, steps, n);
    var w := worlds[n];
    forall flight | Live(w, flight)
      ensures flight in FlightIds(w.inFlight)
    {
      assert IsInFlight(w, flight);
      FlightIdOf(w.inFlight, w.tasks[flight].key);
    }
    forall key
      ensures key !in w.inFlight
    {
      if key in w.inFlight { var _ := SomebodyWaits(w, key); }
    }
    assert FlightIds(w.inFlight) == {};
    forall flight | flight in w.tasks
      ensures w.tasks[flight].finished || flight in w.cancelled
    {
      assert !Live(w, flight);
    }
  }

  lemma SomebodyWaits(w: World, key: Key) returns (waiter: Id)
    requires Inv(w) && key in w.inFlight
    ensures waiter in w.waits && Waiting(w.waits[waiter])
  {
    assert FlightKept(w, key);
    waiter :| waiter in w.inFlight[key].waiters;
    assert WaitsFor(w, waiter, key, w.inFlight[key].id);
  }
}
