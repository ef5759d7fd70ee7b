/** What the disk cache holds and what it evicts, told by the steps of a run: its last writes and last uses. */
module ArtworkRecency {
  import opened Options
  import opened DiskCache
  import opened ArtworkRefresh

  /** The step writes the token's entry. */
  ghost predicate Writes(w: World, step: Step, token: Token) {
    step.Store? && step.accepted && step.written && step.refresh in w.refreshes &&
    w.refreshes[step.refresh].token == token
  }

  /** The step returns the token's entry. */
  predicate Returns(step: Step, token: Token) {
    step.Look? && step.token == token && step.entry.Some?
  }

  /** The time of the last write or return of the token's entry; before any, the launch's time of its file. */
  ghost function LastUsed(worlds: seq<World>, steps: seq<Step>, n: nat, token: Token): Option<Time>
    requires n <= |steps| && |worlds| == |steps| + 1
  {
    if n == 0 then
      if token in worlds[0].cache.images then Some(worlds[0].cache.images[token].modified) else None
    else if Writes(worlds[n - 1], steps[n - 1], token) then Some(steps[n - 1].storedAt)
    else if Returns(steps[n - 1], token) then Some(steps[n - 1].now)
    else LastUsed(worlds, steps, n - 1, token)
  }

  /** What the last write of the token stored, and when; before any, what the launch found. */
  ghost function LastWritten(worlds: seq<World>, steps: seq<Step>, n: nat, token: Token): Option<Entry>
    requires n <= |steps| && |worlds| == |steps| + 1
  {
    if n == 0 then
      var cache := worlds[0].cache;
      if token in cache.images && token in cache.candidates
        then Some(Entry(cache.images[token].data, cache.candidates[token].storedAt)) else None
    else if Writes(worlds[n - 1], steps[n - 1], token) then Some(Entry(steps[n - 1].data, steps[n - 1].storedAt))
    else LastWritten(worlds, steps, n - 1, token)
  }

  /** Every entry holds what was last written and is dated by its last use. */
  ghost predicate Traced(worlds: seq<World>, steps: seq<Step>, n: nat)
    requires n <= |steps| && |worlds| == |steps| + 1
  {
    var cache := worlds[n].cache;
    forall token :: token in cache.candidates ==>
      token in cache.images &&
      LastUsed(worlds, steps, n, token) == Some(cache.candidates[token].lastAccessedAt) &&
      LastWritten(worlds, steps, n, token) == Some(Entry(cache.images[token].data, cache.candidates[token].storedAt))
  }

  /** Pruning changes no entry that it keeps. */
  lemma PrunedKeeps(cache: Cache, pruned: Cache, byteLimit: nat, token: Token)
    requires Consistent(cache) && Pruned(cache, pruned, byteLimit) && token in pruned.candidates
    ensures token in cache.candidates && pruned.candidates[token] == cache.candidates[token]
    ensures token in cache.images && token in pruned.images && pruned.images[token] == cache.images[token]
  {
    var order, n :| ShortestPrefix(cache, pruned, byteLimit, order, n);
  }

  lemma StartTraced(worlds: seq<World>, steps: seq<Step>, byteLimit: nat)
    requires |worlds| == |steps| + 1 && Start(worlds[0], byteLimit)
    ensures Traced(worlds, steps, 0)
  {
    var cache := worlds[0].cache;
    forall token | token in cache.candidates
      ensures Indexed(cache, token)
    {
    }
  }

  /** An entry after a step is the one written or returned by it, or the one from before. */
  lemma EntryMoves(w: World, step: Step, w': World, byteLimit: nat, staleAge: Time, token: Token)
    requires Valid(w.cache, byteLimit) && Next(w, step, w', byteLimit, staleAge) && token in w'.cache.candidates
    ensures token in w'.cache.images
    ensures Writes(w, step, token) ==>
              w'.cache.candidates[token].lastAccessedAt == step.storedAt &&
              w'.cache.candidates[token].storedAt == step.storedAt && w'.cache.images[token].data == step.data
    ensures !Writes(w, step, token) ==>
              token in w.cache.candidates && token in w.cache.images &&
              w'.cache.candidates[token].storedAt == w.cache.candidates[token].storedAt &&
              w'.cache.images[token].data == w.cache.images[token].data &&
              w'.cache.candidates[token].lastAccessedAt ==
                if Returns(step, token) then step.now else w.cache.candidates[token].lastAccessedAt
  {
    hide Pruned, IndexBytes, Consistent;
    if token in w.cache.candidates { FilesOfEntry(w.cache, token); }
    if step.Store? && step.accepted && step.written {
      var written := Written(w.cache, w.refreshes[step.refresh].token, step.data, step.storedAt, step.metadataSize);
      WrittenConsistent(w.cache, w.refreshes[step.refresh].token, step.data, step.storedAt, step.metadataSize);
      PrunedKeeps(written, w'.cache, byteLimit, token);
    }
  }

  lemma FilesOfEntry(cache: Cache, token: Token)
    requires Consistent(cache) && token in cache.candidates
    ensures Indexed(cache, token)
  {
  }

  lemma {:induction false} RunsAreTraced(worlds: seq<World>, steps: seq<Step>, n: nat, byteLimit: nat, staleAge: Time)
    requires Run(worlds, steps, byteLimit, staleAge) && n < |worlds|
    ensures Traced(worlds, steps, n)
  {
    hide Next, Valid, Start, Writes, Returns;
    if n == 0 {
      StartTraced(worlds, steps, byteLimit);
    } else {
      var m := n - 1;
      RunsAreTraced(worlds, steps, m, byteLimit, staleAge);
      RunsKeepInv(worlds, steps, m, byteLimit, staleAge);
      assert Next(worlds[m], steps[m], worlds[m + 1], byteLimit, staleAge);
      forall token | token in worlds[n].cache.candidates
        ensures token in worlds[n].cache.images
        ensures LastUsed(worlds, steps, n, token) == Some(worlds[n].cache.candidates[token].lastAccessedAt)
        ensures LastWritten(worlds, steps, n, token) ==
                  Some(Entry(worlds[n].cache.images[token].data, worlds[n].cache.candidates[token].storedAt))
      {
        EntryMoves(worlds[m], steps[m], worlds[n], byteLimit, staleAge, token);
      }
    }
  }

  // ---------------------------------------------------------------- what is returned

  /**
   A look-up returns an entry exactly when the image is in the cache, readable and written recently enough; and what it
   returns is what the last write of it in the run stored.
   */
  lemma ReturnsLastWritten(worlds: seq<World>, steps: seq<Step>, n: nat, byteLimit: nat, staleAge: Time)
    requires Run(worlds, steps, byteLimit, staleAge) && n < |steps| && steps[n].Look?
    ensures steps[n].entry.Some? ==> steps[n].entry == LastWritten(worlds, steps, n, steps[n].token)
    ensures steps[n].entry.Some? <==>
              steps[n].token in worlds[n].cache.candidates && steps[n].readable &&
              LastWritten(worlds, steps, n, steps[n].token).Some? &&
              steps[n].now - LastWritten(worlds, steps, n, steps[n].token).value.storedAt <= staleAge
    ensures steps[n].token in worlds[n + 1].cache.candidates <==> steps[n].entry.Some?
  {
    hide Valid;
    RunsAreTraced(worlds, steps, n, byteLimit, staleAge);
    assert Next(worlds[n], steps[n], worlds[n + 1], byteLimit, staleAge);
  }

  // ---------------------------------------------------------------- what is evicted

  /** Whatever a store evicts was last used no later than what it keeps. */
  lemma EvictedIsLeastRecentlyUsed(worlds: seq<World>, steps: seq<Step>, n: nat, byteLimit: nat, staleAge: Time,
                                   gone: Token, kept: Token)
    requires Run(worlds, steps, byteLimit, staleAge) && n < |steps|
    requires steps[n].Store? && steps[n].accepted && steps[n].written
    requires gone in worlds[n].cache.candidates || Writes(worlds[n], steps[n], gone)
    requires gone !in worlds[n + 1].cache.candidates && kept in worlds[n + 1].cache.candidates
    ensures LastUsed(worlds, steps, n + 1, gone).Some? && LastUsed(worlds, steps, n + 1, kept).Some?
    ensures LastUsed(worlds, steps, n + 1, gone).value <= LastUsed(worlds, steps, n + 1, kept).value
  {
    hide Next, Valid, Pruned, IndexBytes;
    var written := BeforePruning(worlds, steps, n, byteLimit, staleAge);
    PrunedIsLeastRecent(written, worlds[n + 1].cache, byteLimit, gone, kept);
  }

  /** An entry that fits on its own and was used strictly last survives a store. */
  lemma MostRecentlyUsedSurvives(worlds: seq<World>, steps: seq<Step>, n: nat, byteLimit: nat, staleAge: Time,
                                 token: Token)
    requires Run(worlds, steps, byteLimit, staleAge) && n < |steps|
    requires steps[n].Store? && steps[n].accepted && steps[n].written
    requires if Writes(worlds[n], steps[n], token) then |steps[n].data| + steps[n].metadataSize <= byteLimit
             else token in worlds[n].cache.candidates
    requires forall other :: other in worlds[n].cache.candidates || Writes(worlds[n], steps[n], other) ==>
               other == token || UsedBefore(worlds, steps, n + 1, other, token)
    ensures token in worlds[n + 1].cache.candidates
  {
    hide Next, Valid, Pruned, IndexBytes;
    RunsKeepInv(worlds, steps, n, byteLimit, staleAge);
    var written := BeforePruning(worlds, steps, n, byteLimit, staleAge);
    if !Writes(worlds[n], steps[n], token) { EntryFits(worlds[n].cache, byteLimit, token); }
    NewestSurvives(written, worlds[n + 1].cache, byteLimit, token);
  }

  ghost predicate UsedBefore(worlds: seq<World>, steps: seq<Step>, n: nat, other: Token, token: Token)
    requires n <= |steps| && |worlds| == |steps| + 1
  {
    LastUsed(worlds, steps, n, other).Some? && LastUsed(worlds, steps, n, token).Some? &&
    LastUsed(worlds, steps, n, other).value < LastUsed(worlds, steps, n, token).value
  }

  lemma EntryFits(cache: Cache, byteLimit: nat, token: Token)
    requires Valid(cache, byteLimit) && token in cache.candidates
    ensures cache.candidates[token].byteCount <= byteLimit
  {
    BytesWithout(cache.candidates, token);
    BytesNatural(cache.candidates - {token});
  }

  /** The cache that a store prunes: its entries are dated by their last use. */
  lemma BeforePruning(worlds: seq<World>, steps: seq<Step>, n: nat, byteLimit: nat, staleAge: Time)
    returns (written: Cache)
    requires Run(worlds, steps, byteLimit, staleAge) && n < |steps|
    requires steps[n].Store? && steps[n].accepted && steps[n].written
    ensures Consistent(written) && Pruned(written, worlds[n + 1].cache, byteLimit)
    ensures forall token :: token in written.candidates <==>
              token in worlds[n].cache.candidates || Writes(worlds[n], steps[n], token)
    ensures forall token :: token in written.candidates ==>
              LastUsed(worlds, steps, n + 1, token) == Some(written.candidates[token].lastAccessedAt) &&
              written.candidates[token].byteCount ==
                if Writes(worlds[n], steps[n], token) then |steps[n].data| + steps[n].metadataSize
                else if token in worlds[n].cache.candidates then worlds[n].cache.candidates[token].byteCount else 0
  {
    hide Pruned, IndexBytes, Consistent;
    RunsAreTraced(worlds, steps, n, byteLimit, staleAge);
    RunsKeepInv(worlds, steps, n, byteLimit, staleAge);
    var w, step := worlds[n], steps[n];
    assert Next(w, step, worlds[n + 1], byteLimit, staleAge);
    var token := w.refreshes[step.refresh].token;
    WrittenConsistent(w.cache, token, step.data, step.storedAt, step.metadataSize);
    written := Written(w.cache, token, step.data, step.storedAt, step.metadataSize);
  }
}
