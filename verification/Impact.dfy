/** Impact selection: the points a set of changed paths can break, with the reason for each. */
module Impact {
  import opened Collections
  import opened Catalog
  import opened Graph

  datatype Reason = ByPath(path: string) | Explicit | Consumer(provider: Id)

  /** Consumers of every known point, in catalog order. */
  method BuildConsumers(catalog: Catalog) returns (consumers: map<Id, seq<Id>>)
    requires LintClean(catalog)
    ensures consumers.Keys == KnownIds(catalog)
    ensures forall provider, consumer :: provider in consumers ==>
              (consumer in consumers[provider] <==> (consumer, provider) in Edges(catalog))
  {
    consumers := map id | id in KnownIds(catalog) :: [];
    for n := 0 to |catalog.points|
      invariant consumers.Keys == KnownIds(catalog)
      invariant forall provider, consumer :: provider in consumers ==>
        (consumer in consumers[provider] <==> Recorded(catalog, n, 0, consumer, provider))
    {
      var point := catalog.points[n];
      for k := 0 to |point.dependsOn|
        invariant consumers.Keys == KnownIds(catalog)
        invariant forall provider, consumer :: provider in consumers ==>
          (consumer in consumers[provider] <==> Recorded(catalog, n, k, consumer, provider))
      {
        var dependency := point.dependsOn[k];
        assert point in catalog.points && dependency in point.dependsOn && Known(catalog, dependency);
        var before := consumers;
        consumers := consumers[dependency := consumers[dependency] + [point.id]];
        forall provider, consumer | provider in consumers
          ensures consumer in consumers[provider] <==> Recorded(catalog, n, k + 1, consumer, provider)
        {
          RecordedStep(catalog, n, k, consumer, provider);
        }
      }
      forall provider, consumer
        ensures Recorded(catalog, n, |point.dependsOn|, consumer, provider)
            <==> Recorded(catalog, n + 1, 0, consumer, provider)
      {
        RecordedNext(catalog, n, consumer, provider);
      }
    }
    forall provider, consumer
      ensures Recorded(catalog, |catalog.points|, 0, consumer, provider) <==> (consumer, provider) in Edges(catalog)
    {
      if (consumer, provider) in Edges(catalog) {
        var point :| point in catalog.points && point.id == consumer && provider in point.dependsOn;
        var i :| 0 <= i < |catalog.points| && catalog.points[i] == point;
      }
    }
  }

  /** The dependency of `consumer` on `provider` is among the first `n` points and `k` entries of the next one. */
  ghost predicate Recorded(catalog: Catalog, n: nat, k: nat, consumer: Id, provider: Id)
    requires n <= |catalog.points| && (k == 0 || (n < |catalog.points| && k <= |catalog.points[n].dependsOn|))
  {
    (exists i :: 0 <= i < n && catalog.points[i].id == consumer && provider in catalog.points[i].dependsOn) ||
    (k > 0 && catalog.points[n].id == consumer && provider in catalog.points[n].dependsOn[..k])
  }

  lemma RecordedStep(catalog: Catalog, n: nat, k: nat, consumer: Id, provider: Id)
    requires n < |catalog.points| && k < |catalog.points[n].dependsOn|
    ensures Recorded(catalog, n, k + 1, consumer, provider)
        <==> Recorded(catalog, n, k, consumer, provider)
             || (catalog.points[n].id == consumer && catalog.points[n].dependsOn[k] == provider)
  {
    var listed := catalog.points[n].dependsOn;
    assert listed[..k + 1] == listed[..k] + [listed[k]];
  }

  lemma RecordedNext(catalog: Catalog, n: nat, consumer: Id, provider: Id)
    requires n < |catalog.points|
    ensures Recorded(catalog, n, |catalog.points[n].dependsOn|, consumer, provider)
        <==> Recorded(catalog, n + 1, 0, consumer, provider)
  {
    var listed := catalog.points[n].dependsOn;
    assert listed[..|listed|] == listed;
    if i :| 0 <= i < n + 1 && catalog.points[i].id == consumer && provider in catalog.points[i].dependsOn {
      assert i < n || i == n;
    }
  }

  /** The insertion-ordered dictionary from selected points to the reasons they were selected for. */
  class ImpactReasons {
    var order: seq<Id>
    var reasons: map<Id, seq<Reason>>

    ghost predicate Valid()
      reads this
    {
      NoDuplicates(order) && Elements(order) == reasons.Keys &&
      forall id :: id in reasons ==> NoDuplicates(reasons[id])
    }

    constructor ()
      ensures Valid() && reasons == map[] && order == []
    {
      order, reasons := [], map[];
    }

    method Insert(id: Id, initial: seq<Reason>)
      requires Valid() && id !in reasons && NoDuplicates(initial)
      modifies this
      ensures Valid() && reasons == old(reasons)[id := initial] && order == old(order) + [id]
    {
      reasons := reasons[id := initial];
      order := order + [id];
    }

    method Append(id: Id, reason: Reason)
      requires Valid() && id in reasons && reason !in reasons[id]
      modifies this
      ensures Valid() && order == old(order)
      ensures reasons == old(reasons)[id := old(reasons[id]) + [reason]]
    {
      reasons := reasons[id := reasons[id] + [reason]];
    }

    /**
     Follow consumer edges from the selected points until nothing new is selected: each selected
     point is taken once, and each of its consumers is selected for it.
     */
    method ExpandConsumers(catalog: Catalog)
      requires LintClean(catalog) && Valid() && reasons.Keys <= KnownIds(catalog)
      modifies this
      ensures Valid() && ImpactOf(Edges(catalog), old(reasons), reasons)
    {
      hide Progress, ConsumersSelected, LintClean, ImpactOf;
      var consumers := BuildConsumers(catalog);
      ghost var initial, edges := reasons, Edges(catalog);
      var queue := order;
      ghost var done: set<Id> := {};
      ProgressStarts(edges, initial);
      while queue != []
        invariant Valid() && reasons.Keys <= consumers.Keys
        invariant Pending(queue, done, reasons.Keys)
        invariant Progress(edges, initial, reasons, done)
        invariant ConsumersSelected(edges, reasons, done)
        decreases consumers.Keys - done
      {
        var provider := queue[0];
        PendingTail(queue, done, reasons.Keys);
        queue := queue[1..];
        var listed := consumers[provider];
        ProgressWidens(edges, initial, reasons, done, provider);
        for n := 0 to |listed|
          invariant Valid() && provider in reasons && reasons.Keys <= consumers.Keys
          invariant Pending(queue, done + {provider}, reasons.Keys)
          invariant Progress(edges, initial, reasons, done + {provider})
          invariant ConsumersSelected(edges, reasons, done)
          invariant AllHold(reasons, listed[..n], Consumer(provider))
        {
          var consumer := listed[n];
          assert consumer in listed && (consumer, provider) in edges && consumer in consumers.Keys;
          var reason := Consumer(provider);
          NotedSteps(edges, initial, reasons, done, provider, consumer);
          NotedAll(reasons, listed, n, reason);
          PendingInsert(queue, done + {provider}, reasons.Keys, consumer);
          if consumer !in reasons {
            Insert(consumer, [reason]);
            queue := queue + [consumer];
          } else if reason !in reasons[consumer] {
            Append(consumer, reason);
          }
        }
        SelectedFor(edges, reasons, done, provider, listed);
        done := done + {provider};
      }
      PendingEmpty(queue, done, reasons.Keys);
      ImpactReached(edges, initial, reasons);
    }
  }

  /** The queue holds, once each, the selected points that are not done. */
  ghost predicate Pending(queue: seq<Id>, done: set<Id>, selected: set<Id>) {
    NoDuplicates(queue) && done <= selected && forall id :: id in queue <==> id in selected && id !in done
  }

  lemma PendingTail(queue: seq<Id>, done: set<Id>, selected: set<Id>)
    requires Pending(queue, done, selected) && queue != []
    ensures queue[0] in selected && queue[0] !in done
    ensures Pending(queue[1..], done + {queue[0]}, selected)
  {
    assert queue[0] in queue && queue == [queue[0]] + queue[1..];
    assert forall i :: 0 <= i < |queue[1..]| ==> queue[1..][i] == queue[i + 1] != queue[0];
  }

  lemma PendingInsert(queue: seq<Id>, done: set<Id>, selected: set<Id>, id: Id)
    requires Pending(queue, done, selected)
    ensures id !in selected ==> Pending(queue + [id], done, selected + {id})
  {
    assert forall i :: 0 <= i < |queue| ==> queue[i] in queue;
  }

  lemma PendingEmpty(queue: seq<Id>, done: set<Id>, selected: set<Id>)
    requires Pending(queue, done, selected) && queue == []
    ensures done == selected
  {
    forall id | id in selected
      ensures id in done
    {
      assert id !in queue;
    }
  }

  ghost predicate Holds(reasons: map<Id, seq<Reason>>, id: Id, reason: Reason) {
    id in reasons && reason in reasons[id]
  }

  /** The reasons after noting one more, unless it is there already. */
  ghost function Noted(reasons: map<Id, seq<Reason>>, id: Id, reason: Reason): map<Id, seq<Reason>> {
    if id !in reasons then reasons[id := [reason]]
    else if reason !in reasons[id] then reasons[id := reasons[id] + [reason]]
    else reasons
  }

  lemma NotedHolds(reasons: map<Id, seq<Reason>>, id: Id, reason: Reason, id': Id, reason': Reason)
    ensures Holds(Noted(reasons, id, reason), id', reason')
        <==> Holds(reasons, id', reason') || (id' == id && reason' == reason)
  {
  }

  lemma NotedSteps(edges: set<(Id, Id)>, initial: map<Id, seq<Reason>>, reasons: map<Id, seq<Reason>>,
                   done: set<Id>, provider: Id, consumer: Id)
    requires Progress(edges, initial, reasons, done + {provider}) && ConsumersSelected(edges, reasons, done)
    requires (consumer, provider) in edges && provider in reasons
    ensures Progress(edges, initial, Noted(reasons, consumer, Consumer(provider)), done + {provider})
    ensures ConsumersSelected(edges, Noted(reasons, consumer, Consumer(provider)), done)
  {
    forall id, reason
      ensures Holds(Noted(reasons, consumer, Consumer(provider)), id, reason)
          <==> Holds(reasons, id, reason) || (id == consumer && reason == Consumer(provider))
    {
      NotedHolds(reasons, consumer, Consumer(provider), id, reason);
    }
    forall closed: set<Id> | initial.Keys <= closed && Closed(edges, closed)
      ensures Noted(reasons, consumer, Consumer(provider)).Keys <= closed
    {
      assert provider in closed;
    }
  }

  ghost predicate AllHold(reasons: map<Id, seq<Reason>>, ids: seq<Id>, reason: Reason) {
    forall id :: id in ids ==> Holds(reasons, id, reason)
  }

  lemma NotedAll(reasons: map<Id, seq<Reason>>, ids: seq<Id>, n: nat, reason: Reason)
    requires n < |ids| && AllHold(reasons, ids[..n], reason)
    ensures AllHold(Noted(reasons, ids[n], reason), ids[..n + 1], reason)
  {
    forall id | id in ids[..n + 1]
      ensures Holds(Noted(reasons, ids[n], reason), id, reason)
    {
      NotedHolds(reasons, ids[n], reason, id, reason);
      assert ids[..n + 1] == ids[..n] + [ids[n]];
    }
  }

  lemma SelectedFor(edges: set<(Id, Id)>, reasons: map<Id, seq<Reason>>, done: set<Id>, provider: Id, listed: seq<Id>)
    requires ConsumersSelected(edges, reasons, done) && AllHold(reasons, listed[..|listed|], Consumer(provider))
    requires forall consumer :: (consumer, provider) in edges ==> consumer in listed
    ensures ConsumersSelected(edges, reasons, done + {provider})
  {
    assert listed[..|listed|] == listed;
  }

  /** First reasons stay first, and consumer reasons are gained only from finished points along real edges. */
  ghost predicate Progress(edges: set<(Id, Id)>, initial: map<Id, seq<Reason>>, reasons: map<Id, seq<Reason>>,
                           done: set<Id>) {
    (forall id :: id in initial ==> id in reasons && initial[id] <= reasons[id]) &&
    (forall closed: set<Id> :: initial.Keys <= closed && Closed(edges, closed) ==> reasons.Keys <= closed) &&
    forall id, reason :: Holds(reasons, id, reason) ==> Justified(edges, initial, done, id, reason)
  }

  ghost predicate Justified(edges: set<(Id, Id)>, initial: map<Id, seq<Reason>>, done: set<Id>, id: Id,
      reason: Reason) {
    Holds(initial, id, reason) || (reason.Consumer? && reason.provider in done && (id, reason.provider) in edges)
  }

  /** Every consumer of a finished point is selected, for that reason. */
  ghost predicate ConsumersSelected(edges: set<(Id, Id)>, reasons: map<Id, seq<Reason>>, done: set<Id>) {
    forall provider, consumer :: provider in done && (consumer, provider) in edges ==>
      Holds(reasons, consumer, Consumer(provider))
  }

  lemma ProgressStarts(edges: set<(Id, Id)>, initial: map<Id, seq<Reason>>)
    ensures Progress(edges, initial, initial, {}) && ConsumersSelected(edges, initial, {})
  {
  }

  lemma ProgressWidens(edges: set<(Id, Id)>, initial: map<Id, seq<Reason>>, reasons: map<Id, seq<Reason>>,
                       done: set<Id>, provider: Id)
    requires Progress(edges, initial, reasons, done)
    ensures Progress(edges, initial, reasons, done + {provider})
  {
  }

  lemma ImpactReached(edges: set<(Id, Id)>, initial: map<Id, seq<Reason>>, reasons: map<Id, seq<Reason>>)
    requires Progress(edges, initial, reasons, reasons.Keys) && ConsumersSelected(edges, reasons, reasons.Keys)
    requires forall id :: id in reasons ==> NoDuplicates(reasons[id])
    ensures ImpactOf(edges, initial, reasons)
  {
    SelectedClosed(edges, reasons);
  }

  /**
   The result of impact expansion: the least set of points closed under consumers, that is exactly
   the affected points; old reasons first; and `consumer:p` recorded for c, once, exactly when p is
   selected and c depends on p.
   */
  ghost predicate ImpactOf(edges: set<(Id, Id)>, initial: map<Id, seq<Reason>>, reasons: map<Id, seq<Reason>>) {
    LeastClosed(edges, initial.Keys, reasons.Keys) &&
    (forall id :: id in initial ==> id in reasons && initial[id] <= reasons[id]) &&
    (forall id :: id in reasons ==> NoDuplicates(reasons[id])) &&
    (forall id, reason :: Holds(reasons, id, reason) <==> Justified(edges, initial, reasons.Keys, id, reason))
  }

  lemma SelectedClosed(edges: set<(Id, Id)>, reasons: map<Id, seq<Reason>>)
    requires ConsumersSelected(edges, reasons, reasons.Keys)
    ensures Closed(edges, reasons.Keys)
  {
    forall consumer, provider | (consumer, provider) in edges && provider in reasons.Keys
      ensures consumer in reasons.Keys
    {
      assert Holds(reasons, consumer, Consumer(provider));
    }
  }

  /** Impact reaches a point exactly when a chain of dependencies leads from it to a changed point. */
  lemma ImpactIsReachability(edges: set<(Id, Id)>, initial: map<Id, seq<Reason>>, reasons: map<Id, seq<Reason>>, id: Id)
    requires ImpactOf(edges, initial, reasons)
    ensures id in reasons <==> Affected(edges, initial.Keys, id)
  {
    LeastClosedIsAffected(edges, initial.Keys, reasons.Keys, id);
  }
}
