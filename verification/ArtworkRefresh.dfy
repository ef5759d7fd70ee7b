/** Refreshes racing sign-out: what the disk cache's generation counter guarantees over every interleaving. */
module ArtworkRefresh {
  import opened Collections
  import opened Options
  import opened DiskCache

  /** A refresh that has signed its request and built its cache key; `authorizedAt` is when. */
  datatype Request = Request(token: Token, authorizedAt: nat)

  /** It then read the generation, at `readAt`; its bytes come from its own request or from one it joined. */
  datatype Refresh = Refresh(token: Token, generation: nat, readAt: nat, bytesFrom: Option<nat>)

  /** `owner` records which refresh wrote an entry; `clearedAt` is the time of the last `removeAll`, or -1. */
  datatype World = World(
    cache: Cache, requests: map<nat, Request>, refreshes: map<nat, Refresh>, owner: map<Token, nat>,
    clock: nat, clearedAt: int)

  datatype Step =
    | Authorize(refresh: nat, token: Token)
    | Begin(refresh: nat)                           // the generation is read
    | Download(refresh: nat, from: nat)             // the shared download answers, to request `from`
    | Store(refresh: nat, data: Bytes, storedAt: Time, metadataSize: nat, written: bool, accepted: bool)
    | Remove(token: Token)
    | Look(token: Token, now: Time, readable: bool, entry: Option<Entry>)
    | Clear

  ghost predicate Next(w: World, step: Step, w': World, byteLimit: nat, staleAge: Time) {
    w'.clock == w.clock + 1 &&
    w'.clearedAt == (if step.Clear? then w.clock else w.clearedAt) &&
    (step.Authorize? || w'.requests == w.requests) &&
    (step.Begin? || step.Download? || w'.refreshes == w.refreshes) &&
    (step.Store? || w'.owner == w.owner) &&
    match step
    case Authorize(refresh, token) =>
      refresh !in w.requests && w'.cache == w.cache && w'.requests == w.requests[refresh := Request(token, w.clock)]
    case Begin(refresh) =>
      refresh in w.requests && refresh !in w.refreshes && w'.cache == w.cache &&
      w'.refreshes == w.refreshes[refresh := Refresh(w.requests[refresh].token, w.cache.generation, w.clock, None)]
    case Download(refresh, from) =>
      refresh in w.refreshes && w.refreshes[refresh].bytesFrom == None && w'.cache == w.cache &&
      from in w.refreshes && w.refreshes[from].token == w.refreshes[refresh].token &&
      w'.refreshes == w.refreshes[refresh := w.refreshes[refresh].(bytesFrom := Some(from))]
    case Store(refresh, data, storedAt, metadataSize, written, accepted) =>
      refresh in w.refreshes && w.refreshes[refresh].bytesFrom.Some? &&
      Stored(w.cache, w'.cache, byteLimit, w.refreshes[refresh].token, data, storedAt, metadataSize,
             Some(w.refreshes[refresh].generation), written, accepted) &&
      w'.owner == if accepted && written then w.owner[w.refreshes[refresh].token := refresh] else w.owner
    case Remove(token) => w'.cache == Without(w.cache, {token})
    case Look(token, now, readable, entry) => Looked(w.cache, w'.cache, staleAge, token, now, readable, entry)
    case Clear => w'.cache == Cleared(w.cache)
  }

  /** A launch: whatever the inventory kept, no refresh yet, nothing cleared yet. */
  ghost predicate Start(w: World, byteLimit: nat) {
    Valid(w.cache, byteLimit) && w.cache.generation == 0 && w.requests == map[] && w.refreshes == map[] &&
    w.owner == map[] && w.clock == 0 && w.clearedAt == -1
  }

  /** Every refresh has its own request, and its bytes come from the request of a refresh for the same image. */
  ghost predicate RequestsKnown(w: World) {
    forall refresh :: refresh in w.refreshes ==>
      refresh in w.requests && w.requests[refresh].token == w.refreshes[refresh].token &&
      (w.refreshes[refresh].bytesFrom.Some? ==>
        w.refreshes[refresh].bytesFrom.value in w.requests &&
        w.requests[w.refreshes[refresh].bytesFrom.value].token == w.refreshes[refresh].token)
  }

  /** A generation is current exactly when it was read after the last clear. */
  ghost predicate ReadsDated(w: World) {
    forall refresh :: refresh in w.refreshes ==>
      w.refreshes[refresh].readAt < w.clock && w.refreshes[refresh].generation <= w.cache.generation &&
      (w.refreshes[refresh].generation == w.cache.generation <==> w.refreshes[refresh].readAt > w.clearedAt)
  }

  /**
   Before any clear an entry may stem from the launch; every other one was written by a refresh that read
   after the last clear.
   */
  ghost predicate EntriesCurrent(w: World) {
    forall token :: token in w.cache.candidates ==>
      if token in w.owner then
        w.owner[token] in w.refreshes && w.refreshes[w.owner[token]].token == token &&
        w.refreshes[w.owner[token]].readAt > w.clearedAt
      else w.clearedAt == -1
  }

  ghost predicate Inv(w: World, byteLimit: nat) {
    Valid(w.cache, byteLimit) && w.clearedAt < w.clock && ReadsDated(w) && EntriesCurrent(w) && RequestsKnown(w)
  }

  /** No operation but a write adds an entry. */
  lemma PrunedKeys(cache: Cache, pruned: Cache, byteLimit: nat)
    requires Consistent(cache) && Pruned(cache, pruned, byteLimit)
    ensures Valid(pruned, byteLimit) && pruned.generation == cache.generation
    ensures pruned.candidates.Keys <= cache.candidates.Keys
  {
    var order, n :| ShortestPrefix(cache, pruned, byteLimit, order, n);
    WithoutConsistent(cache, Elements(order[..n]));
  }

  /** What a step can do to the cache. */
  ghost predicate CacheMoves(w: World, step: Step, w': World)
    requires step.Store? ==> step.refresh in w.refreshes
  {
    w'.cache.generation == w.cache.generation + (if step.Clear? then 1 else 0) &&
    (step.Clear? ==> w'.cache.candidates == map[]) &&
    (step.Store? && step.accepted ==> w.refreshes[step.refresh].generation == w.cache.generation) &&
    w'.cache.candidates.Keys <= w.cache.candidates.Keys +
      if step.Store? && step.accepted && step.written then {w.refreshes[step.refresh].token} else {}
  }

  lemma StepKeepsCache(w: World, step: Step, w': World, byteLimit: nat, staleAge: Time)
    requires Valid(w.cache, byteLimit) && Next(w, step, w', byteLimit, staleAge)
    ensures Valid(w'.cache, byteLimit) && (step.Store? ==> step.refresh in w.refreshes) && CacheMoves(w, step, w')
  {
    hide Pruned, Consistent, Without;
    match step
    case Authorize(refresh, token) =>
    case Begin(refresh) =>
    case Download(refresh, from) =>
    case Store(refresh, data, storedAt, metadataSize, written, accepted) =>
      var token := w.refreshes[refresh].token;
      if accepted {
        if written {
          WrittenConsistent(w.cache, token, data, storedAt, metadataSize);
          PrunedKeys(Written(w.cache, token, data, storedAt, metadataSize), w'.cache, byteLimit);
        } else {
          RemovalKeeps(w.cache, token, byteLimit);
        }
      }
    case Remove(token) => RemovalKeeps(w.cache, token, byteLimit);
    case Look(token, now, readable, entry) =>
      RemovalKeeps(w.cache, token, byteLimit);
      if token in w.cache.candidates { TouchKeeps(w.cache, token, now, byteLimit); }
    case Clear => ClearKeeps(w.cache, byteLimit);
  }

  lemma StepKeepsInv(w: World, step: Step, w': World, byteLimit: nat, staleAge: Time)
    requires Inv(w, byteLimit) && Next(w, step, w', byteLimit, staleAge)
    ensures Inv(w', byteLimit)
  {
    hide Valid, Next, EntriesCurrent, ReadsDated, RequestsKnown, CacheMoves;
    StepKeepsCache(w, step, w', byteLimit, staleAge);
    StepKeepsRequests(w, step, w', byteLimit, staleAge);
    StepKeepsReads(w, step, w', byteLimit, staleAge);
    StepKeepsEntries(w, step, w', byteLimit, staleAge);
  }

  lemma StepKeepsRequests(w: World, step: Step, w': World, byteLimit: nat, staleAge: Time)
    requires Inv(w, byteLimit) && Next(w, step, w', byteLimit, staleAge)
    ensures RequestsKnown(w') && w'.clearedAt < w'.clock
  {
    hide Valid, Stored, Looked, Without, Cleared, EntriesCurrent, ReadsDated;
  }

  lemma StepKeepsReads(w: World, step: Step, w': World, byteLimit: nat, staleAge: Time)
    requires Inv(w, byteLimit) && Next(w, step, w', byteLimit, staleAge)
    requires (step.Store? ==> step.refresh in w.refreshes) && CacheMoves(w, step, w')
    ensures ReadsDated(w')
  {
    hide Valid, Stored, Looked, Without, Cleared, EntriesCurrent, RequestsKnown;
  }

  lemma StepKeepsEntries(w: World, step: Step, w': World, byteLimit: nat, staleAge: Time)
    requires Inv(w, byteLimit) && Next(w, step, w', byteLimit, staleAge)
    requires (step.Store? ==> step.refresh in w.refreshes) && CacheMoves(w, step, w')
    ensures EntriesCurrent(w')
  {
    hide Valid, Stored, Looked, Without, Cleared, RequestsKnown;
  }

  lemma RemovalKeeps(cache: Cache, token: Token, byteLimit: nat)
    requires Valid(cache, byteLimit)
    ensures Valid(Without(cache, {token}), byteLimit)
    ensures Without(cache, {token}).candidates.Keys <= cache.candidates.Keys
    ensures Without(cache, {token}).generation == cache.generation
  {
    WithoutConsistent(cache, {token});
    if token in cache.candidates {
      BytesWithout(cache.candidates, token);
    } else {
      assert cache.candidates - {token} == cache.candidates;
    }
  }

  lemma TouchKeeps(cache: Cache, token: Token, now: Time, byteLimit: nat)
    requires Valid(cache, byteLimit) && token in cache.candidates
    ensures token in cache.images && Valid(Touched(cache, token, now), byteLimit)
    ensures Touched(cache, token, now).candidates.Keys == cache.candidates.Keys
  {
    TouchedConsistent(cache, token, now);
  }

  lemma ClearKeeps(cache: Cache, byteLimit: nat)
    ensures Valid(Cleared(cache), byteLimit) && Cleared(cache).candidates == map[]
  {
  }

  ghost predicate Run(worlds: seq<World>, steps: seq<Step>, byteLimit: nat, staleAge: Time) {
    |worlds| == |steps| + 1 && Start(worlds[0], byteLimit) &&
    forall i :: 0 <= i < |steps| ==> Next(worlds[i], steps[i], worlds[i + 1], byteLimit, staleAge)
  }

  lemma {:induction false} RunsKeepInv(worlds: seq<World>, steps: seq<Step>, n: nat, byteLimit: nat, staleAge: Time)
    requires Run(worlds, steps, byteLimit, staleAge) && n < |worlds|
    ensures Inv(worlds[n], byteLimit)
  {
    if n > 0 {
      RunsKeepInv(worlds, steps, n - 1, byteLimit, staleAge);
      var m := n - 1;
      assert Next(worlds[m], steps[m], worlds[m + 1], byteLimit, staleAge);
      StepKeepsInv(worlds[m], steps[m], worlds[n], byteLimit, staleAge);
    }
  }

  // ---------------------------------------------------------------- times are step numbers

  /** The steps a world has seen: its clock counts them, and `clearedAt` is the last clear among them. */
  ghost predicate Dated(w: World, steps: seq<Step>, n: nat)
    requires n <= |steps|
  {
    w.clock == n && -1 <= w.clearedAt < n && (w.clearedAt >= 0 ==> steps[w.clearedAt].Clear?) &&
    (forall c :: w.clearedAt < c < n ==> !steps[c].Clear?) &&
    (forall id :: id in w.requests ==>
      w.requests[id].authorizedAt < n && steps[w.requests[id].authorizedAt] == Authorize(id, w.requests[id].token)) &&
    forall refresh :: refresh in w.refreshes ==>
      w.refreshes[refresh].readAt < n && steps[w.refreshes[refresh].readAt] == Begin(refresh)
  }

  lemma {:induction false} RunsAreDated(worlds: seq<World>, steps: seq<Step>, n: nat, byteLimit: nat, staleAge: Time)
    requires Run(worlds, steps, byteLimit, staleAge) && n < |worlds|
    ensures Dated(worlds[n], steps, n)
  {
    hide Next, Dated, Start;
    if n > 0 {
      var m := n - 1;
      RunsAreDated(worlds, steps, m, byteLimit, staleAge);
      assert Next(worlds[m], steps[m], worlds[m + 1], byteLimit, staleAge);
      StepKeepsDated(worlds[m], worlds[n], steps, m, byteLimit, staleAge);
    } else {
      StartIsDated(worlds[0], steps, byteLimit);
    }
  }

  lemma StepKeepsDated(w: World, w': World, steps: seq<Step>, m: nat, byteLimit: nat, staleAge: Time)
    requires m < |steps| && Dated(w, steps, m) && Next(w, steps[m], w', byteLimit, staleAge)
    ensures Dated(w', steps, m + 1)
  {
    hide Stored, Looked, Without, Cleared;
  }

  lemma StartIsDated(w: World, steps: seq<Step>, byteLimit: nat)
    requires Start(w, byteLimit)
    ensures Dated(w, steps, 0)
  {
  }

  /** No clear among the steps from `first` up to `till`. */
  ghost predicate NoClear(steps: seq<Step>, first: nat, till: nat) {
    forall c :: first <= c < till && c < |steps| ==> !steps[c].Clear?
  }

  /** When a refresh read the generation. */
  ghost function ReadAt(w: World, refresh: nat): nat
    requires refresh in w.refreshes
  {
    w.refreshes[refresh].readAt
  }

  /** When the request was signed that the bytes of a refresh answer. */
  ghost function SignedAt(w: World, refresh: nat): nat
    requires RequestsKnown(w) && refresh in w.refreshes && w.refreshes[refresh].bytesFrom.Some?
  {
    w.requests[w.refreshes[refresh].bytesFrom.value].authorizedAt
  }

  // ---------------------------------------------------------------- what clears guarantee

  /**
   In every interleaving of refreshes, look-ups, removals and clears: the cache is consistent and within
   its budget, and after a clear every entry was written by a refresh that read the generation since.
   */
  lemma EntriesOutliveNoClear(worlds: seq<World>, steps: seq<Step>, n: nat, byteLimit: nat, staleAge: Time,
                              token: Token)
    requires Run(worlds, steps, byteLimit, staleAge) && n < |worlds|
    ensures Valid(worlds[n].cache, byteLimit)
    ensures token in worlds[n].cache.candidates && !NoClear(steps, 0, n) ==>
              token in worlds[n].owner && worlds[n].owner[token] in worlds[n].refreshes &&
              NoClear(steps, ReadAt(worlds[n], worlds[n].owner[token]), n)
  {
    hide Valid;
    RunsKeepInv(worlds, steps, n, byteLimit, staleAge);
    RunsAreDated(worlds, steps, n, byteLimit, staleAge);
  }

  /** A store is accepted exactly when no clear came after its refresh read the generation; else it changes nothing. */
  lemma StoreAcceptedIffNoClear(worlds: seq<World>, steps: seq<Step>, n: nat, byteLimit: nat, staleAge: Time)
    requires Run(worlds, steps, byteLimit, staleAge) && n < |steps| && steps[n].Store?
    ensures steps[n].refresh in worlds[n].refreshes
    ensures ReadAt(worlds[n], steps[n].refresh) < n
    ensures steps[ReadAt(worlds[n], steps[n].refresh)] == Begin(steps[n].refresh)
    ensures steps[n].accepted <==> NoClear(steps, ReadAt(worlds[n], steps[n].refresh), n)
    ensures !steps[n].accepted ==> worlds[n + 1].cache == worlds[n].cache
  {
    hide Valid, Pruned, Without, Written, EntriesCurrent, RequestsKnown;
    RunsKeepInv(worlds, steps, n, byteLimit, staleAge);
    RunsAreDated(worlds, steps, n, byteLimit, staleAge);
    assert Next(worlds[n], steps[n], worlds[n + 1], byteLimit, staleAge);
  }

  /**
   The generation is read after the request is signed. So the bytes of an accepted store answer a request
   signed after every clear exactly when no clear fell between signing that request and reading the generation.
   */
  lemma StoredBytesAreCurrentIff(worlds: seq<World>, steps: seq<Step>, n: nat, byteLimit: nat, staleAge: Time)
    requires Run(worlds, steps, byteLimit, staleAge) && n < |steps| && steps[n].Store? && steps[n].accepted
    ensures steps[n].refresh in worlds[n].refreshes && worlds[n].refreshes[steps[n].refresh].bytesFrom.Some?
    ensures RequestsKnown(worlds[n]) && SignedAt(worlds[n], steps[n].refresh) < n
    ensures steps[SignedAt(worlds[n], steps[n].refresh)].Authorize?
    ensures NoClear(steps, SignedAt(worlds[n], steps[n].refresh), n)
        <==> NoClear(steps, SignedAt(worlds[n], steps[n].refresh), ReadAt(worlds[n], steps[n].refresh))
  {
    hide Valid, Pruned, Without, Written, EntriesCurrent;
    RunsKeepInv(worlds, steps, n, byteLimit, staleAge);
    RunsAreDated(worlds, steps, n, byteLimit, staleAge);
    assert Next(worlds[n], steps[n], worlds[n + 1], byteLimit, staleAge);
    StoreAcceptedIffNoClear(worlds, steps, n, byteLimit, staleAge);
  }

  // ---------------------------------------------------------------- a clear in between

  const EMPTY := Cache(map[], map[], map[], 0, 0)
  const CLEARED := Cache(map[], map[], map[], 0, 1)

  /** A clear completes after a request is signed and before its refresh reads the generation. */
  function LateReader(token: Token): seq<Step> {
    [Authorize(0, token), Clear, Begin(0), Download(0, 0), Store(0, [], 0, 0, true, true)]
  }

  ghost function LateReaderWorlds(token: Token): seq<World> {
    var requests := map[0 := Request(token, 0)];
    var began, answered := map[0 := Refresh(token, 1, 2, None)], map[0 := Refresh(token, 1, 2, Some(0))];
    [World(EMPTY, map[], map[], map[], 0, -1),
     World(EMPTY, requests, map[], map[], 1, -1),
     World(CLEARED, requests, map[], map[], 2, 1),
     World(CLEARED, requests, began, map[], 3, 1),
     World(CLEARED, requests, answered, map[], 4, 1),
     World(Written(CLEARED, token, [], 0, 0), requests, answered, map[token := 0], 5, 1)]
  }

  /** Then bytes that answer a request signed before the clear are stored after it. */
  lemma LateReaderStoresOldBytes(token: Token, byteLimit: nat, staleAge: Time)
    ensures Run(LateReaderWorlds(token), LateReader(token), byteLimit, staleAge)
    ensures token in LateReaderWorlds(token)[5].cache.candidates
    ensures RequestsKnown(LateReaderWorlds(token)[4])
    ensures !NoClear(LateReader(token), SignedAt(LateReaderWorlds(token)[4], 0), 4)
  {
    var worlds, steps := LateReaderWorlds(token), LateReader(token);
    hide Next;
    assert Start(worlds[0], byteLimit) by { BytesOfNothing(); }
    forall i | 0 <= i < 5
      ensures Next(worlds[i], steps[i], worlds[i + 1], byteLimit, staleAge)
    {
      if i < 4 { BeforeStoring(token, i, byteLimit, staleAge); } else { Storing(token, byteLimit, staleAge); }
    }
    assert steps[1].Clear?;
  }

  lemma BeforeStoring(token: Token, i: nat, byteLimit: nat, staleAge: Time)
    requires i < 4
    ensures Next(LateReaderWorlds(token)[i], LateReader(token)[i], LateReaderWorlds(token)[i + 1], byteLimit, staleAge)
  {
    hide Written, Stored, Looked;
  }

  lemma Storing(token: Token, byteLimit: nat, staleAge: Time)
    ensures Next(LateReaderWorlds(token)[4], LateReader(token)[4], LateReaderWorlds(token)[5], byteLimit, staleAge)
  {
    hide Written, Pruned, Looked;
    EmptyWrite(token, byteLimit);
  }

  lemma BytesOfNothing()
    ensures IndexBytes(map[]) == 0
  {
    assert ByteCounts(map[]) == map[];
  }

  /** An entry of no bytes needs no pruning. */
  lemma EmptyWrite(token: Token, byteLimit: nat)
    ensures Pruned(Written(CLEARED, token, [], 0, 0), Written(CLEARED, token, [], 0, 0), byteLimit)
  {
    hide IndexBytes;
    var cache := Written(CLEARED, token, [], 0, 0);
    BytesOfNothing();
    assert Consistent(CLEARED) by { assert CLEARED.candidates == map[]; }
    WrittenConsistent(CLEARED, token, [], 0, 0);
    NonePruned(cache, [token]);
    assert ShortestPrefix(cache, cache, byteLimit, [token], 0);
  }
}
