/** The byte-budgeted LRU disk cache for artwork: index, files, running total and generation. */
module DiskCache {
  import opened Collections
  import opened Options

  type Token = string       // digest of the source key
  type Bytes = seq<bv8>
  type Time = int

  /** An image file; its modification time is the access clock. */
  datatype Image = Image(data: Bytes, modified: Time)

  /** A metadata file of `size` bytes; `Unreadable` if it does not decode. */
  datatype Metadata = Metadata(size: nat, storedAt: Time) | Unreadable(size: nat)

  datatype Candidate = Candidate(byteCount: nat, lastAccessedAt: Time, storedAt: Time)

  datatype Entry = Entry(data: Bytes, storedAt: Time)

  // ---------------------------------------------------------------- bytes in the index

  ghost function ByteCounts(candidates: map<Token, Candidate>): map<Token, int> {
    map token | token in candidates :: candidates[token].byteCount
  }

  ghost function IndexBytes(candidates: map<Token, Candidate>): int {
    Sum(ByteCounts(candidates))
  }

  lemma BytesWithout(candidates: map<Token, Candidate>, token: Token)
    requires token in candidates
    ensures IndexBytes(candidates) == candidates[token].byteCount + IndexBytes(candidates - {token})
  {
    SumWithout(ByteCounts(candidates), token);
    assert ByteCounts(candidates) - {token} == ByteCounts(candidates - {token});
  }

  lemma BytesNatural(candidates: map<Token, Candidate>)
    ensures IndexBytes(candidates) >= 0
  {
    SumGrows(map[], ByteCounts(candidates));
  }

  /** The incremental total after an entry is written is again the sum over the index. */
  lemma BytesUpdated(candidates: map<Token, Candidate>, token: Token, candidate: Candidate)
    ensures IndexBytes(candidates[token := candidate])
         == IndexBytes(candidates) - (if token in candidates then candidates[token].byteCount
             else 0) + candidate.byteCount
  {
    SumUpdated(ByteCounts(candidates), token, candidate.byteCount);
    assert ByteCounts(candidates)[token := candidate.byteCount] == ByteCounts(candidates[token := candidate]);
  }

  // ---------------------------------------------------------------- the state of the cache

  datatype Cache = Cache(
    images: map<Token, Image>, metadata: map<Token, Metadata>,
    candidates: map<Token, Candidate>, totalBytes: int, generation: nat)

  /** The index entry describes the pair of files for the token. */
  ghost predicate Indexed(cache: Cache, token: Token) {
    token in cache.images && token in cache.metadata && token in cache.candidates && cache.metadata[token].Metadata? &&
    cache.candidates[token] == Candidate(
      |cache.images[token].data| + cache.metadata[token].size, cache.images[token].modified,
          cache.metadata[token].storedAt)
  }

  /** Index and files agree, and the running total is the sum of the indexed sizes. */
  ghost predicate Consistent(cache: Cache) {
    cache.images.Keys == cache.candidates.Keys && cache.metadata.Keys == cache.candidates.Keys &&
    (forall token :: token in cache.candidates ==> Indexed(cache, token)) &&
    cache.totalBytes == IndexBytes(cache.candidates)
  }

  /** What holds between the actor's operations. */
  ghost predicate Valid(cache: Cache, byteLimit: nat) {
    Consistent(cache) && cache.totalBytes <= byteLimit
  }

  ghost function Without(cache: Cache, tokens: set<Token>): Cache {
    cache.(images := cache.images - tokens, metadata := cache.metadata - tokens,
           candidates := cache.candidates - tokens, totalBytes := IndexBytes(cache.candidates - tokens))
  }

  lemma WithoutConsistent(cache: Cache, tokens: set<Token>)
    requires Consistent(cache)
    ensures Consistent(Without(cache, tokens))
  {
    forall token | token in cache.candidates - tokens
      ensures Indexed(Without(cache, tokens), token)
    {
      assert Indexed(cache, token);
    }
  }

  lemma WithoutTwice(cache: Cache, some: set<Token>, more: set<Token>)
    ensures Without(Without(cache, some), more) == Without(cache, some + more)
  {
    assert cache.images - some - more == cache.images - (some + more);
    assert cache.metadata - some - more == cache.metadata - (some + more);
    assert cache.candidates - some - more == cache.candidates - (some + more);
  }

  lemma WithoutNothing(cache: Cache)
    requires Consistent(cache)
    ensures Without(cache, {}) == cache
  {
    assert cache.images - {} == cache.images && cache.metadata - {} == cache.metadata;
    assert cache.candidates - {} == cache.candidates;
  }

  /** All indexed tokens, once each, least recently accessed first. */
  ghost predicate AccessOrder(order: seq<Token>, candidates: map<Token, Candidate>) {
    (forall i, j :: 0 <= i < j < |order| ==> order[i] != order[j]) &&
    (forall token :: token in order <==> token in candidates) &&
    forall i, j :: 0 <= i < j < |order| ==>
      order[i] in candidates && order[j] in candidates &&
      candidates[order[i]].lastAccessedAt <= candidates[order[j]].lastAccessedAt
  }

  /** `pruned` drops the shortest prefix of `order` that brings the total within the limit. */
  ghost predicate ShortestPrefix(cache: Cache, pruned: Cache, byteLimit: nat, order: seq<Token>, n: nat) {
    AccessOrder(order, cache.candidates) && n <= |order| &&
    pruned == AfterPruning(cache, order, n) && pruned.totalBytes <= byteLimit &&
    forall k :: 0 <= k < n ==> AfterPruning(cache, order, k).totalBytes > byteLimit
  }

  ghost function AfterPruning(cache: Cache, order: seq<Token>, n: nat): Cache
    requires n <= |order|
  {
    Without(cache, Elements(order[..n]))
  }

  lemma NonePruned(cache: Cache, order: seq<Token>)
    requires Consistent(cache)
    ensures AfterPruning(cache, order, 0) == cache
  {
    assert Elements(order[..0]) == {};
    WithoutNothing(cache);
  }

  lemma OneMorePruned(cache: Cache, order: seq<Token>, n: nat)
    requires n < |order|
    ensures Without(AfterPruning(cache, order, n), {order[n]}) == AfterPruning(cache, order, n + 1)
  {
    assert order[..n + 1] == order[..n] + [order[n]];
    assert Elements(order[..n + 1]) == Elements(order[..n]) + {order[n]};
    WithoutTwice(cache, Elements(order[..n]), {order[n]});
  }

  lemma AllPruned(cache: Cache, order: seq<Token>)
    requires AccessOrder(order, cache.candidates)
    ensures AfterPruning(cache, order, |order|).totalBytes == 0
  {
    assert order[..|order|] == order;
    assert cache.candidates - Elements(order) == map[];
  }

  ghost predicate Pruned(cache: Cache, pruned: Cache, byteLimit: nat) {
    exists order: seq<Token>, n: nat :: ShortestPrefix(cache, pruned, byteLimit, order, n)
  }

  /** Pruning is by age: what goes was accessed no later than what stays, and nothing goes without need. */
  lemma PrunedIsLeastRecent(cache: Cache, pruned: Cache, byteLimit: nat, gone: Token, kept: Token)
    requires Consistent(cache) && Pruned(cache, pruned, byteLimit)
    ensures pruned.candidates.Keys <= cache.candidates.Keys
    ensures gone in cache.candidates && gone !in pruned.candidates && kept in pruned.candidates ==>
              cache.candidates[gone].lastAccessedAt <= cache.candidates[kept].lastAccessedAt
    ensures cache.totalBytes <= byteLimit ==> pruned == cache
  {
    hide IndexBytes, Consistent;
    var order, n :| ShortestPrefix(cache, pruned, byteLimit, order, n);
    NonePruned(cache, order);
    if gone in cache.candidates && gone !in pruned.candidates && kept in pruned.candidates {
      GoneIsEarlier(cache.candidates, order, n, gone, kept);
    }
  }

  lemma GoneIsEarlier(candidates: map<Token, Candidate>, order: seq<Token>, n: nat, gone: Token, kept: Token)
    requires AccessOrder(order, candidates) && n <= |order|
    requires gone in order[..n] && kept in candidates && kept !in order[..n]
    ensures gone in candidates && candidates[gone].lastAccessedAt <= candidates[kept].lastAccessedAt
  {
    var i :| 0 <= i < n && order[..n][i] == gone;
    assert kept in order;
    var j :| 0 <= j < |order| && order[j] == kept;
    assert j >= n;
  }

  /** An entry that fits on its own and is accessed strictly last survives pruning. */
  lemma NewestSurvives(cache: Cache, pruned: Cache, byteLimit: nat, token: Token)
    requires Consistent(cache) && Pruned(cache, pruned, byteLimit)
    requires token in cache.candidates && cache.candidates[token].byteCount <= byteLimit
    requires forall other :: other in cache.candidates && other != token ==>
               cache.candidates[other].lastAccessedAt < cache.candidates[token].lastAccessedAt
    ensures token in pruned.candidates && pruned.candidates[token] == cache.candidates[token]
  {
    var order, n := PruningOrder(cache, pruned, byteLimit);
    NewestIsLast(cache.candidates, order, token);
    OnlyLastLeft(cache, order);
    assert n <= |order| - 1;
    assert token !in order[..n];
  }

  lemma PruningOrder(cache: Cache, pruned: Cache, byteLimit: nat) returns (order: seq<Token>, n: nat)
    requires Pruned(cache, pruned, byteLimit)
    ensures ShortestPrefix(cache, pruned, byteLimit, order, n) && AccessOrder(order, cache.candidates)
  {
    order, n :| ShortestPrefix(cache, pruned, byteLimit, order, n);
  }

  lemma NewestIsLast(candidates: map<Token, Candidate>, order: seq<Token>, token: Token)
    requires AccessOrder(order, candidates) && token in candidates
    requires forall other :: other in candidates && other != token ==>
               candidates[other].lastAccessedAt < candidates[token].lastAccessedAt
    ensures order != [] && order[|order| - 1] == token
  {
    assert token in order;
    var i :| 0 <= i < |order| && order[i] == token;
    var last := |order| - 1;
    assert order[last] in order;
    if i < last { assert candidates[order[i]].lastAccessedAt <= candidates[order[last]].lastAccessedAt; }
  }

  lemma OnlyLastLeft(cache: Cache, order: seq<Token>)
    requires AccessOrder(order, cache.candidates) && order != []
    ensures AfterPruning(cache, order, |order| - 1).totalBytes == cache.candidates[order[|order| - 1]].byteCount
  {
    var last := order[|order| - 1];
    assert order == order[..|order| - 1] + [last];
    var left := cache.candidates - Elements(order[..|order| - 1]);
    assert left.Keys == {last};
    BytesWithout(left, last);
    assert left - {last} == map[];
  }

  /** The cache after one successful write, before pruning. */
  ghost function Written(cache: Cache, token: Token, data: Bytes, storedAt: Time, metadataSize: nat): Cache {
    var candidate := Candidate(|data| + metadataSize, storedAt, storedAt);
    var candidates := cache.candidates[token := candidate];
    cache.(images := cache.images[token := Image(data, storedAt)],
           metadata := cache.metadata[token := Metadata(metadataSize, storedAt)],
           candidates := candidates, totalBytes := IndexBytes(candidates))
  }

  lemma WrittenConsistent(cache: Cache, token: Token, data: Bytes, storedAt: Time, metadataSize: nat)
    requires Consistent(cache)
    ensures Consistent(Written(cache, token, data, storedAt, metadataSize))
    ensures Written(cache, token, data, storedAt, metadataSize).totalBytes
         == cache.totalBytes - (if token in cache.candidates then cache.candidates[token].byteCount
             else 0) + |data| + metadataSize
  {
    BytesUpdated(cache.candidates, token, Candidate(|data| + metadataSize, storedAt, storedAt));
    var written := Written(cache, token, data, storedAt, metadataSize);
    forall other | other in written.candidates
      ensures Indexed(written, other)
    {
      if other != token { assert Indexed(cache, other); }
    }
  }

  /** The cache after a hit: only the access clock of the entry moves. */
  ghost function Touched(cache: Cache, token: Token, now: Time): Cache
    requires token in cache.candidates && token in cache.images
  {
    cache.(images := cache.images[token := cache.images[token].(modified := now)],
           candidates := cache.candidates[token := cache.candidates[token].(lastAccessedAt := now)])
  }

  lemma TouchedConsistent(cache: Cache, token: Token, now: Time)
    requires Consistent(cache) && token in cache.candidates
    ensures token in cache.images && Consistent(Touched(cache, token, now))
  {
    BytesUpdated(cache.candidates, token, cache.candidates[token].(lastAccessedAt := now));
    assert Indexed(cache, token);
    var touched := Touched(cache, token, now);
    forall other | other in touched.candidates
      ensures Indexed(touched, other)
    {
      assert Indexed(cache, other);
    }
  }

  /** A refresh that read another generation is refused and changes nothing. */
  ghost predicate Stored(cache: Cache, cache': Cache, byteLimit: nat, token: Token, data: Bytes, storedAt: Time,
                         metadataSize: nat, expected: Option<nat>, written: bool, accepted: bool) {
    if expected.Some? && expected.value != cache.generation then !accepted && cache' == cache
    else if written then accepted && Pruned(Written(cache, token, data, storedAt, metadataSize), cache', byteLimit)
    else accepted && cache' == Without(cache, {token})
  }

  /** A fresh entry is returned and touched; a stale, missing or unreadable one is removed. */
  ghost predicate Looked(cache: Cache, cache': Cache, staleAge: Time, token: Token, now: Time, readable: bool,
                         entry: Option<Entry>) {
    if token in cache.candidates && token in cache.images && now - cache.candidates[token].storedAt <= staleAge &&
        readable
    then cache' == Touched(cache, token, now) &&
         entry == Some(Entry(cache.images[token].data, cache.candidates[token].storedAt))
    else cache' == Without(cache, {token}) && entry == None
  }

  ghost function Cleared(cache: Cache): Cache {
    Cache(map[], map[], map[], 0, cache.generation + 1)
  }

  // ---------------------------------------------------------------- the actor

  class AuthImageDiskCache {
    const byteLimit: nat
    const maximumStaleAge: Time
    var images: map<Token, Image>
    var metadata: map<Token, Metadata>
    var candidates: map<Token, Candidate>
    var totalBytes: int
    var cacheGeneration: nat

    ghost function State(): Cache
      reads this
    {
      Cache(images, metadata, candidates, totalBytes, cacheGeneration)
    }

    /** Take the inventory of whatever files an earlier launch left behind. */
    constructor (byteLimit: nat, maximumStaleAge: Time, images: map<Token, Image>, metadata: map<Token, Metadata>,
        now: Time)
      ensures this.byteLimit == byteLimit && this.maximumStaleAge == maximumStaleAge
      ensures Valid(State(), byteLimit) && State().generation == 0
      ensures Pruned(Inventory(images, metadata, maximumStaleAge, now), State(), byteLimit)
    {
      this.byteLimit, this.maximumStaleAge := byteLimit, maximumStaleAge;
      this.images, this.metadata := images, metadata;
      candidates, totalBytes, cacheGeneration := map[], 0, 0;
      new;
      ScanInventory(now);
      Prune();
    }

    /** Drop metadata without an image, and images without readable, recent metadata; index the rest. */
    method ScanInventory(now: Time)
      requires candidates == map[] && totalBytes == 0
      modifies this
      ensures State() == Inventory(old(images), old(metadata), maximumStaleAge,
              now).(generation := old(cacheGeneration))
      ensures Consistent(State())
    {
      hide IndexBytes;
      ghost var images0, metadata0 := images, metadata;
      var orphans := metadata.Keys - images.Keys;
      metadata := metadata - orphans;
      var rest := images.Keys;
      ScanStart(images0, metadata0, maximumStaleAge, now);
      while rest != {}
        invariant rest <= images0.Keys && cacheGeneration == old(cacheGeneration)
        invariant State() == Scanned(images0, metadata0, maximumStaleAge, now, rest).(generation := cacheGeneration)
        decreases rest
      {
        var token :| token in rest;
        ScanStep(images0, metadata0, maximumStaleAge, now, rest, token);
        rest := rest - {token};
        if token in metadata && metadata[token].Metadata? && now - metadata[token].storedAt <= maximumStaleAge {
          var found := Candidate(|images[token].data| + metadata[token].size, images[token].modified,
              metadata[token].storedAt);
          candidates := candidates[token := found];
          totalBytes := totalBytes + found.byteCount;
        } else {
          images := images - {token};
          metadata := metadata - {token};
        }
      }
      ScanEnd(images0, metadata0, maximumStaleAge, now);
    }

    method Lookup(token: Token, now: Time, readable: bool) returns (entry: Option<Entry>)
      requires Valid(State(), byteLimit)
      modifies this
      ensures Valid(State(), byteLimit) && cacheGeneration == old(cacheGeneration)
      ensures Looked(old(State()), State(), maximumStaleAge, token, now, readable, entry)
    {
      if token !in candidates || now - candidates[token].storedAt > maximumStaleAge || !readable {
        RemoveToken(token);
        return None;
      }
      TouchedConsistent(State(), token, now);
      var candidate := candidates[token];
      entry := Some(Entry(images[token].data, candidate.storedAt));
      images := images[token := images[token].(modified := now)];
      candidates := candidates[token := Candidate(candidate.byteCount, now, candidate.storedAt)];
    }

    /** `written` says whether the files could be written. */
    method Store(data: Bytes, token: Token, storedAt: Time, expected: Option<nat>, metadataSize: nat, written: bool)
      returns (accepted: bool)
      requires Valid(State(), byteLimit)
      modifies this
      ensures Valid(State(), byteLimit) && cacheGeneration == old(cacheGeneration)
      ensures Stored(old(State()), State(), byteLimit, token, data, storedAt, metadataSize, expected, written, accepted)
    {
      hide IndexBytes, Indexed;
      if expected.Some? && expected.value != cacheGeneration { return false; }
      if !written {
        RemoveToken(token);
        return true;
      }
      WrittenConsistent(State(), token, data, storedAt, metadataSize);
      images := images[token := Image(data, storedAt)];
      metadata := metadata[token := Metadata(metadataSize, storedAt)];
      if token in candidates { totalBytes := totalBytes - candidates[token].byteCount; }
      var candidate := Candidate(|data| + metadataSize, storedAt, storedAt);
      candidates := candidates[token := candidate];
      totalBytes := totalBytes + candidate.byteCount;
      assert State() == Written(old(State()), token, data, storedAt, metadataSize);
      Prune();
      accepted := true;
    }

    method Remove(token: Token)
      requires Valid(State(), byteLimit)
      modifies this
      ensures Valid(State(), byteLimit) && State() == Without(old(State()), {token})
    {
      RemoveToken(token);
    }

    method RemoveAll()
      modifies this
      ensures Valid(State(), byteLimit) && State() == Cleared(old(State()))
    {
      cacheGeneration := cacheGeneration + 1;
      images, metadata, candidates, totalBytes := map[], map[], map[], 0;
    }

    /** The subtraction never saturates: a candidate is never larger than the total. */
    method RemoveToken(token: Token)
      requires Consistent(State())
      modifies this
      ensures Consistent(State()) && State() == Without(old(State()), {token})
      ensures State().totalBytes <= old(State()).totalBytes
    {
      hide IndexBytes;
      WithoutConsistent(State(), {token});
      BytesNatural(candidates - {token});
      if token in candidates {
        BytesWithout(candidates, token);
        var byteCount := candidates[token].byteCount;
        candidates := candidates - {token};
        totalBytes := if totalBytes - byteCount > 0 then totalBytes - byteCount else 0;
      }
      images := images - {token};
      metadata := metadata - {token};
      assert candidates == old(candidates) - {token};
    }

    /** Remove least recently accessed entries until the total is within the limit. */
    method Prune()
      requires Consistent(State())
      modifies this
      ensures Valid(State(), byteLimit) && Pruned(old(State()), State(), byteLimit)
    {
      hide IndexBytes, Consistent, Without;
      ghost var cache := State();
      var order := SortedByAccess(candidates);
      NonePruned(cache, order);
      var n := 0;
      if totalBytes > byteLimit {
        while n < |order|
          invariant 0 <= n <= |order|
          invariant Consistent(State()) && State() == AfterPruning(cache, order, n)
          invariant forall k :: 0 <= k < n ==> AfterPruning(cache, order, k).totalBytes > byteLimit
          invariant totalBytes > byteLimit
        {
          OneMorePruned(cache, order, n);
          RemoveToken(order[n]);
          n := n + 1;
          if totalBytes <= byteLimit { break; }
        }
        AllPruned(cache, order);
      }
      assert ShortestPrefix(cache, State(), byteLimit, order, n);
    }
  }

  /** Selection sort of the index by access time. */
  method SortedByAccess(candidates: map<Token, Candidate>) returns (order: seq<Token>)
    ensures AccessOrder(order, candidates)
  {
    order := [];
    var rest := candidates.Keys;
    assert candidates - rest == map[];
    while rest != {}
      invariant rest <= candidates.Keys && Picked(order, rest, candidates)
      decreases rest
    {
      LeastExists(rest, candidates);
      var least :| least in rest && forall token :: token in rest ==>
        candidates[least].lastAccessedAt <= candidates[token].lastAccessedAt;
      PickedNext(order, rest, candidates, least);
      order := order + [least];
      rest := rest - {least};
    }
    assert candidates - rest == candidates;
  }

  /** `order` lists the tokens outside `rest` in access order, none accessed after one in `rest`. */
  ghost predicate Picked(order: seq<Token>, rest: set<Token>, candidates: map<Token, Candidate>)
    requires rest <= candidates.Keys
  {
    AccessOrder(order, candidates - rest) &&
    forall first, token :: first in order && token in rest ==>
      first in candidates && candidates[first].lastAccessedAt <= candidates[token].lastAccessedAt
  }

  lemma PickedNext(order: seq<Token>, rest: set<Token>, candidates: map<Token, Candidate>, least: Token)
    requires rest <= candidates.Keys && Picked(order, rest, candidates) && least in rest
    requires forall token :: token in rest ==> candidates[least].lastAccessedAt <= candidates[token].lastAccessedAt
    ensures Picked(order + [least], rest - {least}, candidates)
  {
    assert forall i :: 0 <= i < |order| ==> order[i] in order;
    assert forall token :: token in order + [least] <==> token in order || token == least;
  }

  lemma {:induction false} LeastExists(tokens: set<Token>, candidates: map<Token, Candidate>)
    requires tokens != {} && tokens <= candidates.Keys
    ensures exists least :: least in tokens && forall token :: token in tokens ==>
              candidates[least].lastAccessedAt <= candidates[token].lastAccessedAt
    decreases tokens
  {
    var one :| one in tokens;
    if tokens - {one} != {} {
      LeastExists(tokens - {one}, candidates);
      var least :| least in tokens - {one} && forall token :: token in tokens - {one} ==>
        candidates[least].lastAccessedAt <= candidates[token].lastAccessedAt;
      var winner := if candidates[one].lastAccessedAt <= candidates[least].lastAccessedAt then one else least;
      assert winner in tokens && forall token :: token in tokens ==> token == one || token in tokens - {one};
    } else {
      assert tokens == {one};
    }
  }

  /** Metadata that lets an image survive a relaunch. */
  predicate Keepable(metadata: map<Token, Metadata>, token: Token, staleAge: Time, now: Time) {
    token in metadata && metadata[token].Metadata? && now - metadata[token].storedAt <= staleAge
  }

  ghost function Found(images: map<Token, Image>, metadata: map<Token, Metadata>, token: Token): Candidate
    requires token in images && token in metadata && metadata[token].Metadata?
  {
    Candidate(|images[token].data| + metadata[token].size, images[token].modified, metadata[token].storedAt)
  }

  /** The files that survive a scan, with their index. */
  ghost function Inventory(images: map<Token, Image>, metadata: map<Token, Metadata>, staleAge: Time,
      now: Time): Cache {
    var candidates := map token | token in images && Keepable(metadata, token, staleAge, now)
        :: Found(images, metadata, token);
    Cache(map token | token in images && Keepable(metadata, token, staleAge, now) :: images[token],
          map token | token in metadata && token in images && Keepable(metadata, token, staleAge, now)
              :: metadata[token],
          candidates, IndexBytes(candidates), 0)
  }

  /** A launch keeps exactly the images that a look-up at that time would return, with the times of their files. */
  lemma InventoryIsFresh(images: map<Token, Image>, metadata: map<Token, Metadata>, staleAge: Time, now: Time,
                         token: Token)
    ensures var cache := Inventory(images, metadata, staleAge, now);
            (token in cache.candidates <==>
              token in images && token in metadata && metadata[token].Metadata? &&
              now <= metadata[token].storedAt + staleAge) &&
            (token in cache.candidates ==>
              cache.candidates[token].lastAccessedAt == images[token].modified && token in cache.images &&
              Looked(cache, Touched(cache, token, now), staleAge, token, now, true,
                     Some(Entry(images[token].data, metadata[token].storedAt))))
  {
    hide IndexBytes;
  }

  /** The state of the scan while the images in `rest` are still to be looked at. */
  ghost function Scanned(images: map<Token, Image>, metadata: map<Token, Metadata>, staleAge: Time, now: Time,
                         rest: set<Token>): Cache {
    var candidates := map token | token in images && token !in rest && Keepable(metadata, token, staleAge, now)
      :: Found(images, metadata, token);
    Cache(map token | token in images && (token in rest || Keepable(metadata, token, staleAge, now)) :: images[token],
          map token | token in metadata &&
              token in images && (token in rest || Keepable(metadata, token, staleAge, now))
            :: metadata[token],
          candidates, IndexBytes(candidates), 0)
  }

  lemma ScanStart(images: map<Token, Image>, metadata: map<Token, Metadata>, staleAge: Time, now: Time)
    ensures var scanned := Scanned(images, metadata, staleAge, now, images.Keys);
            scanned.images == images && scanned.metadata == metadata - (metadata.Keys - images.Keys) &&
            scanned.candidates == map[] && scanned.totalBytes == 0
  {
  }

  lemma ScanStep(images: map<Token, Image>, metadata: map<Token, Metadata>, staleAge: Time, now: Time,
                 rest: set<Token>, token: Token)
    requires rest <= images.Keys && token in rest
    ensures var before, after := Scanned(images, metadata, staleAge, now, rest),
                                 Scanned(images, metadata, staleAge, now, rest - {token});
            token in before.images && before.images[token] == images[token] &&
            (token in before.metadata <==> token in metadata) &&
            (token in metadata ==> before.metadata[token] == metadata[token]) &&
            if Keepable(metadata, token, staleAge, now)
            then after == before.(candidates := before.candidates[token := Found(images, metadata, token)],
                                  totalBytes := before.totalBytes + Found(images, metadata, token).byteCount)
            else after == before.(images := before.images - {token}, metadata := before.metadata - {token})
  {
    hide IndexBytes;
    var before, after := Scanned(images, metadata, staleAge, now, rest),
                         Scanned(images, metadata, staleAge, now, rest - {token});
    if Keepable(metadata, token, staleAge, now) {
      BytesUpdated(before.candidates, token, Found(images, metadata, token));
      assert after.candidates == before.candidates[token := Found(images, metadata, token)];
      assert after.images == before.images && after.metadata == before.metadata;
    } else {
      assert after.candidates == before.candidates;
      assert after.images == before.images - {token} && after.metadata == before.metadata - {token};
    }
  }

  lemma ScanEnd(images: map<Token, Image>, metadata: map<Token, Metadata>, staleAge: Time, now: Time)
    ensures Scanned(images, metadata, staleAge, now, {}) == Inventory(images, metadata, staleAge, now)
    ensures Consistent(Inventory(images, metadata, staleAge, now))
  {
    var scanned, inventory := Scanned(images, metadata, staleAge, now, {}), Inventory(images, metadata, staleAge, now);
    assert scanned.images == inventory.images && scanned.metadata == inventory.metadata;
    assert scanned.candidates == inventory.candidates;
    assert forall token :: token in inventory.candidates ==> Indexed(inventory, token);
  }
}
