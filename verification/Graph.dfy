/** Chains and reachability in the dependency graph. */
module Graph {

  type Id = string

  /** Each element of the chain depends on the next one. */
  ghost predicate Chain(edges: set<(Id, Id)>, chain: seq<Id>) {
    forall i :: 0 <= i < |chain| - 1 ==> Link(edges, chain, i)
  }

  ghost predicate Link(edges: set<(Id, Id)>, chain: seq<Id>, i: nat)
    requires i < |chain| - 1
  {
    (chain[i], chain[i + 1]) in edges
  }

  /** `id` is one of `changed`, or depends on one of them directly or through others. */
  ghost predicate Affected(edges: set<(Id, Id)>, changed: set<Id>, id: Id) {
    exists chain: seq<Id> :: chain != [] && chain[0] == id && chain[|chain| - 1] in changed && Chain(edges, chain)
  }

  lemma AffectedStep(edges: set<(Id, Id)>, changed: set<Id>, consumer: Id, provider: Id)
    requires (consumer, provider) in edges && Affected(edges, changed, provider)
    ensures Affected(edges, changed, consumer)
  {
    var chain: seq<Id> :| chain != [] && chain[0] == provider && chain[|chain| - 1] in changed && Chain(edges, chain);
    var longer := [consumer] + chain;
    forall i | 0 <= i < |longer| - 1
      ensures Link(edges, longer, i)
    {
      if i > 0 { assert Link(edges, chain, i - 1); }
    }
    assert longer[|longer| - 1] in changed;
  }

  lemma SelfAffected(edges: set<(Id, Id)>, changed: set<Id>, id: Id)
    requires id in changed
    ensures Affected(edges, changed, id)
  {
    var chain := [id];
    assert Chain(edges, chain) && chain[|chain| - 1] in changed;
  }

  lemma AffectedHead(edges: set<(Id, Id)>, changed: set<Id>, id: Id)
    requires Affected(edges, changed, id)
    ensures id in changed || exists provider :: (id, provider) in edges
  {
    var chain: seq<Id> :| chain != [] && chain[0] == id && chain[|chain| - 1] in changed && Chain(edges, chain);
    if |chain| > 1 { assert Link(edges, chain, 0); }
  }

  /** With a provider, the set contains each of its consumers. */
  ghost predicate Closed(edges: set<(Id, Id)>, ids: set<Id>) {
    forall consumer, provider :: (consumer, provider) in edges && provider in ids ==> consumer in ids
  }

  /** The affected ids form the least closed set around the changed ones. */
  lemma AffectedInClosed(edges: set<(Id, Id)>, changed: set<Id>, closed: set<Id>, id: Id)
    requires Closed(edges, closed) && changed <= closed && Affected(edges, changed, id)
    ensures id in closed
  {
    var chain: seq<Id> :| chain != [] && chain[0] == id && chain[|chain| - 1] in changed && Chain(edges, chain);
    ChainInClosed(edges, closed, chain);
  }

  lemma {:induction false} ChainInClosed(edges: set<(Id, Id)>, closed: set<Id>, chain: seq<Id>)
    requires chain != [] && chain[|chain| - 1] in closed && Chain(edges, chain) && Closed(edges, closed)
    ensures chain[0] in closed
  {
    if |chain| > 1 {
      var tail := chain[1..];
      forall i | 0 <= i < |tail| - 1
        ensures Link(edges, tail, i)
      {
        assert Link(edges, chain, i + 1);
      }
      ChainInClosed(edges, closed, tail);
      assert Link(edges, chain, 0);
    }
  }

  ghost predicate LeastClosed(edges: set<(Id, Id)>, changed: set<Id>, ids: set<Id>) {
    changed <= ids && Closed(edges, ids) &&
    forall closed: set<Id> :: changed <= closed && Closed(edges, closed) ==> ids <= closed
  }

  lemma LeastClosedIsAffected(edges: set<(Id, Id)>, changed: set<Id>, ids: set<Id>, id: Id)
    requires LeastClosed(edges, changed, ids)
    ensures id in ids <==> Affected(edges, changed, id)
  {
    if Affected(edges, changed, id) { AffectedInClosed(edges, changed, ids, id); }
    var affected := set x | x in ids && Affected(edges, changed, x);
    forall x | x in changed
      ensures x in affected
    {
      SelfAffected(edges, changed, x);
    }
    forall consumer, provider | (consumer, provider) in edges && provider in affected
      ensures consumer in affected
    {
      AffectedStep(edges, changed, consumer, provider);
    }
    assert Closed(edges, affected) && changed <= affected;
  }

  lemma AffectedMonotone(edges: set<(Id, Id)>, changed: set<Id>, more: set<Id>, id: Id)
    requires changed <= more && Affected(edges, changed, id)
    ensures Affected(edges, more, id)
  {
    var chain: seq<Id> :| chain != [] && chain[0] == id && chain[|chain| - 1] in changed && Chain(edges, chain);
    assert chain[|chain| - 1] in more;
  }

  lemma AffectedUnion(edges: set<(Id, Id)>, left: set<Id>, right: set<Id>, both: set<Id>, id: Id)
    requires both <= left + right && Affected(edges, both, id)
    ensures Affected(edges, left, id) || Affected(edges, right, id)
  {
    var chain: seq<Id> :| chain != [] && chain[0] == id && chain[|chain| - 1] in both && Chain(edges, chain);
    assert chain[|chain| - 1] in left || chain[|chain| - 1] in right;
  }
}
