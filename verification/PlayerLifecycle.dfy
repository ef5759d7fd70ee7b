/**
 Leaving the player: cleanup once, completions in order on a later turn, under any reentrant calls.
 Closures are identifiers; the call stack is explicit, so a closure's body may call back at any point.
 */
module PlayerLifecycle {

  type Id = nat   // one completion closure

  // ---------------------------------------------------------------- the coordinator's own state

  datatype Coordinator = Coordinator(
    didTeardown: bool, didFinish: bool, isTearingDown: bool, pending: seq<Id>, drainScheduled: bool)

  function AfterTeardown(c: Coordinator): Coordinator {
    c.(didTeardown := true)
  }

  function AfterFinish(c: Coordinator, completion: Id): Coordinator {
    Coordinator(c.didTeardown || !c.didFinish, true, c.isTearingDown || !c.didFinish, c.pending + [completion], true)
  }

  function AfterDrain(c: Coordinator): Coordinator {
    c.(pending := [], drainScheduled := false)
  }

  class PlayerLifecycleCoordinator {
    var isTearingDown: bool
    var didTeardown: bool
    var didFinish: bool
    var pendingCompletions: seq<Id>
    var completionDrainScheduled: bool

    ghost function State(): Coordinator
      reads this
    {
      Coordinator(didTeardown, didFinish, isTearingDown, pendingCompletions, completionDrainScheduled)
    }

    constructor ()
      ensures State() == Coordinator(false, false, false, [], false)
    {
      isTearingDown, didTeardown, didFinish, pendingCompletions, completionDrainScheduled := false, false,
          false, [], false;
    }

    /** `runs` says that the caller's cleanup is now executed. */
    method Teardown() returns (runs: bool)
      modifies this
      ensures State() == AfterTeardown(old(State())) && runs == !old(didTeardown)
    {
      if didTeardown { return false; }
      didTeardown := true;
      runs := true;
    }

    method Finish(completion: Id) returns (runs: bool, schedules: bool)
      modifies this
      ensures State() == AfterFinish(old(State()), completion)
      ensures runs == (!old(didFinish) && !old(didTeardown)) && schedules == !old(completionDrainScheduled)
    {
      schedules := EnqueueCompletion(completion);
      if didFinish { return false, schedules; }
      didFinish := true;
      isTearingDown := true;
      runs := Teardown();
    }

    method EnqueueCompletion(completion: Id) returns (schedules: bool)
      modifies this
      ensures State() == old(State()).(pending := old(pendingCompletions) + [completion], drainScheduled := true)
      ensures schedules == !old(completionDrainScheduled)
    {
      pendingCompletions := pendingCompletions + [completion];
      schedules := !completionDrainScheduled;
      completionDrainScheduled := true;
    }

    /** The body of the scheduled task before it calls the completions. */
    method TakePending() returns (completions: seq<Id>)
      modifies this
      ensures State() == AfterDrain(old(State())) && completions == old(pendingCompletions)
    {
      completions := pendingCompletions;
      pendingCompletions := [];
      completionDrainScheduled := false;
    }
  }

  // ---------------------------------------------------------------- the main loop around it

  /** What is executing: a cleanup, a drain with completions still to call, or one completion. */
  datatype Frame = CleanupBody | Draining(rest: seq<Id>) | CompletionBody

  datatype Event = Enqueued(id: Id) | CleanupStarted | CleanupEnded | Delivered(id: Id)

  /** `drains` counts scheduled drain tasks that have not started; the last frame is the innermost. */
  datatype World = World(c: Coordinator, drains: nat, stack: seq<Frame>, log: seq<Event>)

  const START := World(Coordinator(false, false, false, [], false), 0, [], [])

  datatype Step = CallTeardown | CallFinish(id: Id) | Return | StartDrain | DeliverNext | EndDrain

  function Top(w: World): Frame
    requires w.stack != []
  {
    w.stack[|w.stack| - 1]
  }

  function Below(w: World): seq<Frame>
    requires w.stack != []
  {
    w.stack[..|w.stack| - 1]
  }

  /** Calls come from outside any closure or from inside one; a drain task starts on a later turn only. */
  predicate Enabled(w: World, step: Step) {
    match step
    case CallTeardown => w.stack == [] || !Top(w).Draining?
    case CallFinish(id) => w.stack == [] || !Top(w).Draining?
    case Return => w.stack != [] && !Top(w).Draining?
    case StartDrain => w.stack == [] && w.drains > 0
    case DeliverNext => w.stack != [] && Top(w).Draining? && Top(w).rest != []
    case EndDrain => w.stack != [] && Top(w).Draining? && Top(w).rest == []
  }

  function Next(w: World, step: Step): World
    requires Enabled(w, step)
  {
    match step
    case CallTeardown =>
      if w.c.didTeardown then w.(c := AfterTeardown(w.c))
      else w.(c := AfterTeardown(w.c), stack := w.stack + [CleanupBody], log := w.log + [CleanupStarted])
    case CallFinish(id) =>
      var runs := !w.c.didFinish && !w.c.didTeardown;
      World(AfterFinish(w.c, id), w.drains + (if w.c.drainScheduled then 0 else 1),
            w.stack + (if runs then [CleanupBody] else []),
            w.log + [Enqueued(id)] + (if runs then [CleanupStarted] else []))
    case Return =>
      w.(stack := Below(w), log := w.log + (if Top(w).CleanupBody? then [CleanupEnded] else []))
    case StartDrain => World(AfterDrain(w.c), w.drains - 1, [Draining(w.c.pending)], w.log)
    case DeliverNext =>
      w.(stack := Below(w) + [Draining(Top(w).rest[1..]), CompletionBody], log := w.log + [Delivered(Top(w).rest[0])])
    case EndDrain => w.(stack := Below(w))
  }

  // ---------------------------------------------------------------- the invariant

  function Count(log: seq<Event>, event: Event): nat {
    if log == [] then 0 else Count(log[..|log| - 1], event) + (if log[|log| - 1] == event then 1 else 0)
  }

  /** The completions enqueued so far, in order. */
  function EnqueuedIds(log: seq<Event>): seq<Id> {
    if log == [] then []
    else EnqueuedIds(log[..|log| - 1]) + (if log[|log| - 1].Enqueued? then [log[|log| - 1].id] else [])
  }

  /** The completions delivered so far, in order. */
  function DeliveredIds(log: seq<Event>): seq<Id> {
    if log == [] then []
    else DeliveredIds(log[..|log| - 1]) + (if log[|log| - 1].Delivered? then [log[|log| - 1].id] else [])
  }

  lemma LogAppend(log: seq<Event>, event: Event)
    ensures EnqueuedIds(log + [event]) == EnqueuedIds(log) + (if event.Enqueued? then [event.id] else [])
    ensures DeliveredIds(log + [event]) == DeliveredIds(log) + (if event.Delivered? then [event.id] else [])
    ensures forall e :: Count(log + [event], e) == Count(log, e) + (if event == e then 1 else 0)
  {
    assert (log + [event])[..|log|] == log;
  }

  /** A drain runs at the bottom of the stack only. */
  function BeingDelivered(stack: seq<Frame>): seq<Id> {
    if stack != [] && stack[0].Draining? then stack[0].rest else []
  }

  ghost predicate StackShape(w: World) {
    (forall i :: 0 < i < |w.stack| ==> !w.stack[i].Draining?) &&
    (forall i :: 0 <= i < |w.stack| && w.stack[i].CleanupBody? ==>
      w.c.didTeardown && Count(w.log, CleanupEnded) == 0) &&
    forall i, j :: 0 <= i < j < |w.stack| ==> !(w.stack[i].CleanupBody? && w.stack[j].CleanupBody?)
  }

  ghost predicate CleanupOnce(w: World) {
    Count(w.log, CleanupStarted) == (if w.c.didTeardown then 1 else 0) &&
    Count(w.log, CleanupEnded) <= Count(w.log, CleanupStarted) &&
    (w.c.didTeardown && Count(w.log, CleanupEnded) == 0 ==> CleanupBody in w.stack)
  }

  /** Each delivery in the log comes after the end of the cleanup. */
  ghost predicate DeliveredAfterCleanup(log: seq<Event>) {
    forall k :: 0 <= k < |log| && log[k].Delivered? ==> Count(log[..k], CleanupEnded) == 1
  }

  ghost predicate Inv(w: World) {
    StackShape(w) && CleanupOnce(w) && DeliveredAfterCleanup(w.log) &&
    (w.c.drainScheduled <==> w.c.pending != []) && w.drains == (if w.c.drainScheduled then 1 else 0) &&
    EnqueuedIds(w.log) == DeliveredIds(w.log) + BeingDelivered(w.stack) + w.c.pending &&
    (w.c.didFinish ==> w.c.didTeardown) && (w.c.pending != [] ==> w.c.didFinish) &&
        w.c.isTearingDown == w.c.didFinish &&
    (w.stack != [] && w.stack[0].Draining? ==> Count(w.log, CleanupEnded) == 1)
  }

  lemma AppendKeepsDelivered(log: seq<Event>, event: Event)
    requires DeliveredAfterCleanup(log) && (event.Delivered? ==> Count(log, CleanupEnded) == 1)
    ensures DeliveredAfterCleanup(log + [event])
  {
    var longer := log + [event];
    forall k | 0 <= k < |longer| && longer[k].Delivered?
      ensures Count(longer[..k], CleanupEnded) == 1
    {
      if k < |log| { assert longer[..k] == log[..k]; } else { assert longer[..k] == log; }
    }
  }

  lemma StepKeepsInv(w: World, step: Step)
    requires Inv(w) && Enabled(w, step)
    ensures Inv(Next(w, step))
  {
    hide *;
    match step
    case CallTeardown => TeardownKeepsInv(w);
    case CallFinish(id) => FinishKeepsInv(w, id);
    case Return => ReturnKeepsInv(w);
    case StartDrain => StartDrainKeepsInv(w);
    case DeliverNext => DeliveryKeepsInv(w);
    case EndDrain => EndDrainKeepsInv(w);
  }

  lemma TeardownKeepsInv(w: World)
    requires Inv(w) && Enabled(w, CallTeardown)
    ensures Inv(Next(w, CallTeardown))
  {
    hide DeliveredAfterCleanup, Count, EnqueuedIds, DeliveredIds;
    LogAppend(w.log, CleanupStarted);
    AppendKeepsDelivered(w.log, CleanupStarted);
  }

  lemma FinishKeepsInv(w: World, id: Id)
    requires Inv(w) && Enabled(w, CallFinish(id))
    ensures Inv(Next(w, CallFinish(id)))
  {
    hide Inv, Next;
    if w.c.didFinish || w.c.didTeardown { LaterFinishKeepsInv(w, id); } else { FirstFinishKeepsInv(w, id); }
  }

  lemma LaterFinishKeepsInv(w: World, id: Id)
    requires Inv(w) && Enabled(w, CallFinish(id)) && (w.c.didFinish || w.c.didTeardown)
    ensures Inv(Next(w, CallFinish(id)))
  {
    hide DeliveredAfterCleanup, Count, EnqueuedIds, DeliveredIds, StackShape;
    LogAppend(w.log, Enqueued(id));
    AppendKeepsDelivered(w.log, Enqueued(id));
    assert w.log + [Enqueued(id)] + [] == w.log + [Enqueued(id)] && w.stack + [] == w.stack;
    FinishKeepsShape(w, id);
  }

  lemma FirstFinishKeepsInv(w: World, id: Id)
    requires Inv(w) && Enabled(w, CallFinish(id)) && !w.c.didFinish && !w.c.didTeardown
    ensures Inv(Next(w, CallFinish(id)))
  {
    hide DeliveredAfterCleanup, Count, EnqueuedIds, DeliveredIds, StackShape;
    LogAppend(w.log, Enqueued(id));
    AppendKeepsDelivered(w.log, Enqueued(id));
    LogAppend(w.log + [Enqueued(id)], CleanupStarted);
    AppendKeepsDelivered(w.log + [Enqueued(id)], CleanupStarted);
    FinishKeepsShape(w, id);
  }

  lemma FinishKeepsShape(w: World, id: Id)
    requires Inv(w) && Enabled(w, CallFinish(id))
    ensures StackShape(Next(w, CallFinish(id)))
  {
    hide DeliveredAfterCleanup, Count, EnqueuedIds, DeliveredIds;
    LogAppend(w.log, Enqueued(id));
    LogAppend(w.log + [Enqueued(id)], CleanupStarted);
    assert w.log + [Enqueued(id)] + [] == w.log + [Enqueued(id)] && w.stack + [] == w.stack;
  }

  lemma ReturnKeepsInv(w: World)
    requires Inv(w) && Enabled(w, Return)
    ensures Inv(Next(w, Return))
  {
    hide DeliveredAfterCleanup, Count, EnqueuedIds, DeliveredIds, StackShape;
    LogAppend(w.log, CleanupEnded);
    AppendKeepsDelivered(w.log, CleanupEnded);
    assert w.log + [] == w.log;
    ReturnKeepsStack(w);
    assert forall frame :: frame in w.stack ==> frame in Below(w) || frame == Top(w);
  }

  lemma ReturnKeepsStack(w: World)
    requires StackShape(w) && w.stack != [] && !Top(w).Draining?
    ensures StackShape(Next(w, Return))
    ensures Below(w) != [] ==> Below(w)[0] == w.stack[0]
    ensures Top(w).CleanupBody? ==> w.c.didTeardown && Count(w.log, CleanupEnded) == 0
  {
    hide Count;
    var below, last := Below(w), |w.stack| - 1;
    assert w.log + [] == w.log;
    forall i | 0 <= i < |below|
      ensures below[i] == w.stack[i] && !(below[i].CleanupBody? && w.stack[last].CleanupBody?)
    {
    }
  }

  lemma StartDrainKeepsInv(w: World)
    requires Inv(w) && Enabled(w, StartDrain)
    ensures Inv(Next(w, StartDrain))
  {
    hide DeliveredAfterCleanup, Count, EnqueuedIds, DeliveredIds;
  }

  lemma DeliveryKeepsInv(w: World)
    requires Inv(w) && Enabled(w, DeliverNext)
    ensures Inv(Next(w, DeliverNext))
  {
    hide DeliveredAfterCleanup, Count, EnqueuedIds, DeliveredIds;
    assert |w.stack| == 1 && Below(w) == [];
    LogAppend(w.log, Delivered(Top(w).rest[0]));
    AppendKeepsDelivered(w.log, Delivered(Top(w).rest[0]));
  }

  lemma EndDrainKeepsInv(w: World)
    requires Inv(w) && Enabled(w, EndDrain)
    ensures Inv(Next(w, EndDrain))
  {
    hide DeliveredAfterCleanup, Count, EnqueuedIds, DeliveredIds;
  }

  // ---------------------------------------------------------------- every run

  ghost predicate Run(worlds: seq<World>, steps: seq<Step>) {
    |worlds| == |steps| + 1 && worlds[0] == START &&
    forall i :: 0 <= i < |steps| ==> Enabled(worlds[i], steps[i]) && worlds[i + 1] == Next(worlds[i], steps[i])
  }

  lemma {:induction false} RunsKeepInv(worlds: seq<World>, steps: seq<Step>, n: nat)
    requires Run(worlds, steps) && n < |worlds|
    ensures Inv(worlds[n])
  {
    hide Next, Enabled;
    if n > 0 {
      RunsKeepInv(worlds, steps, n - 1);
      var m := n - 1;
      assert worlds[m + 1] == Next(worlds[m], steps[m]);
      StepKeepsInv(worlds[m], steps[m]);
    }
  }

  /** For any reentrant sequence of calls, cleanup runs at most once and ends before any delivery. */
  lemma CleanupBeforeDelivery(worlds: seq<World>, steps: seq<Step>, n: nat, k: nat)
    requires Run(worlds, steps) && n < |worlds| && k < |worlds[n].log|
    ensures Count(worlds[n].log, CleanupStarted) <= 1
    ensures worlds[n].log[k].Delivered? ==> Count(worlds[n].log[..k], CleanupEnded) == 1
  {
    RunsKeepInv(worlds, steps, n);
  }

  /** A drain task is waiting exactly when completions are pending, and then just one. */
  lemma DrainIffPending(worlds: seq<World>, steps: seq<Step>, n: nat)
    requires Run(worlds, steps) && n < |worlds|
    ensures worlds[n].drains == (if worlds[n].c.pending != [] then 1 else 0)
  {
    RunsKeepInv(worlds, steps, n);
  }

  /**
   Deliveries are a prefix of the enqueued completions, in order; once nothing executes and no drain
   waits, every completion has been delivered exactly once.
   */
  lemma DeliveredInOrder(worlds: seq<World>, steps: seq<Step>, n: nat)
    requires Run(worlds, steps) && n < |worlds|
    ensures DeliveredIds(worlds[n].log) <= EnqueuedIds(worlds[n].log)
    ensures worlds[n].stack == [] && worlds[n].drains == 0 ==> DeliveredIds(worlds[n].log) == EnqueuedIds(worlds[n].log)
  {
    RunsKeepInv(worlds, steps, n);
  }
}
