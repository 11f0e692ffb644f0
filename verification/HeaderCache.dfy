/** The relayer's caches beside the Ethereum chain, relayer/chain/ethereum/header_cache_state.go. */
module HeaderCache {
  import opened Primitives

  // ----- blocks and receipt tries -----

  datatype Block = Block(hash: H256, number: U64, receiptHash: H256)
  datatype ReceiptTrie = ReceiptTrie(root: H256, receipts: seq<Bytes>)

  predicate NoRepeats(s: seq<H256>) {
    forall i, j :: 0 <= i < j < |s| ==> s[i] != s[j]
  }

  type HashesByNumber = map<nat, seq<H256>>
  type Blocks = map<H256, Block>
  type ReceiptTries = map<H256, ReceiptTrie>

  /** The hashes at a height are those of the cached blocks of that height. */
  ghost predicate BucketOk(blocks: Blocks, n: nat, bucket: seq<H256>) {
    && NoRepeats(bucket)
    && forall h :: h in bucket <==> h in blocks && blocks[h].number == n
  }

  /** The three maps agree, and each trie is its block's. */
  ghost predicate Agree(hashesByNumber: HashesByNumber, blocks: Blocks, receiptTries: ReceiptTries) {
    && blocks.Keys == receiptTries.Keys
    && (forall n :: n in hashesByNumber ==> n < TWO_64 && BucketOk(blocks, n, hashesByNumber[n]))
    && (forall h :: h in blocks ==>
          && blocks[h].hash == h && blocks[h].number in hashesByNumber
          && receiptTries[h].root == blocks[h].receiptHash)
  }

  /** The hashes of a height with one more. */
  function Listed(hashesByNumber: HashesByNumber, n: nat, h: H256): seq<H256> {
    if n in hashesByNumber then hashesByNumber[n] + [h] else [h]
  }

  lemma KeyAdded(hashesByNumber: HashesByNumber, n: nat, bucket: seq<H256>)
    ensures hashesByNumber[n := bucket].Keys == hashesByNumber.Keys + {n}
    ensures |hashesByNumber[n := bucket]| == |hashesByNumber| + if n in hashesByNumber then 0 else 1
  {
    assert hashesByNumber[n := bucket].Keys == hashesByNumber.Keys + {n};
    assert |hashesByNumber[n := bucket].Keys| == |hashesByNumber.Keys + {n}|;
    assert n in hashesByNumber ==> hashesByNumber.Keys + {n} == hashesByNumber.Keys;
  }

  lemma AddAgrees(
    hashesByNumber: HashesByNumber, blocks: Blocks, receiptTries: ReceiptTries, block: Block, trie: ReceiptTrie)
    requires Agree(hashesByNumber, blocks, receiptTries)
    requires block.hash !in blocks && trie.root == block.receiptHash
    ensures Agree(hashesByNumber[block.number := Listed(hashesByNumber, block.number, block.hash)],
                  blocks[block.hash := block], receiptTries[block.hash := trie])
  {
    var hashes' := hashesByNumber[block.number := Listed(hashesByNumber, block.number, block.hash)];
    forall n | n in hashes'
      ensures BucketOk(blocks[block.hash := block], n, hashes'[n])
    {
      assert n in hashesByNumber ==> BucketOk(blocks, n, hashesByNumber[n]);
    }
  }

  lemma RemoveAgrees(
    hashesByNumber: HashesByNumber, blocks: Blocks, receiptTries: ReceiptTries, n: nat, gone: set<H256>)
    requires Agree(hashesByNumber, blocks, receiptTries) && n in hashesByNumber
    requires forall h :: h in gone <==> h in hashesByNumber[n]
    ensures Agree(hashesByNumber - {n}, blocks - gone, receiptTries - gone)
    ensures forall h :: h in blocks - gone <==> h in blocks && blocks[h].number != n
  {
    assert BucketOk(blocks, n, hashesByNumber[n]);
    hide NoRepeats;
    forall m | m in hashesByNumber - {n}
      ensures BucketOk(blocks - gone, m, hashesByNumber[m])
    {
      assert BucketOk(blocks, m, hashesByNumber[m]);
    }
  }

  class BlockCache {
    const capacity: nat
    var hashesByNumber: HashesByNumber
    var blocks: Blocks
    var receiptTries: ReceiptTries

    /** The maps agree, and at most `capacity` heights are held. */
    ghost predicate Valid()
      reads this
    {
      capacity > 0 && |hashesByNumber| <= capacity && Agree(hashesByNumber, blocks, receiptTries)
    }

    constructor (capacity: nat)
      requires capacity > 0
      ensures Valid() && this.capacity == capacity && blocks == map[]
    {
      this.capacity := capacity;
      hashesByNumber, blocks, receiptTries := map[], map[], map[];
    }

    /** The least cached height. */
    method MinNumber() returns (minNumber: nat)
      requires Valid() && hashesByNumber != map[]
      ensures minNumber in hashesByNumber && forall n :: n in hashesByNumber ==> minNumber <= n
    {
      minNumber := TWO_64 - 1;
      var rest := hashesByNumber.Keys;
      while rest != {}
        invariant rest <= hashesByNumber.Keys && minNumber < TWO_64
        invariant forall n :: n in hashesByNumber && n !in rest ==> minNumber <= n
        invariant || minNumber in hashesByNumber
                  || (minNumber == TWO_64 - 1 && forall n :: n in hashesByNumber && n !in rest ==> n == minNumber)
        decreases rest
      {
        var n :| n in rest;
        if n < minNumber {
          minNumber := n;
        }
        rest := rest - {n};
      }
      assert exists n :: n in hashesByNumber by {
        assert hashesByNumber.Keys != {};
      }
    }

    /** Caches a block with its trie.  When a new height would exceed the capacity, the least height goes with all
        its blocks; nothing else is lost. */
    method Insert(block: Block, trie: ReceiptTrie)
      requires Valid() && trie.root == block.receiptHash
      modifies this
      ensures Valid()
      ensures block.hash in blocks
      ensures old(block.hash in blocks) ==> unchanged(this)
      ensures old(block.hash !in blocks) ==> blocks[block.hash] == block && receiptTries[block.hash] == trie
      ensures forall h :: h in blocks && h != block.hash ==>
                old(h in blocks) && blocks[h] == old(blocks[h]) && receiptTries[h] == old(receiptTries[h])
      ensures forall h :: old(h in blocks) && h !in blocks ==>
                && old(block.number !in hashesByNumber && |hashesByNumber| == capacity)
                && forall k :: old(k in blocks) ==> old(blocks[h].number <= blocks[k].number)
    {
      if block.hash in blocks {
        return;
      }
      if block.number !in hashesByNumber && |hashesByNumber| == capacity {
        assert hashesByNumber != map[];
        var minNumber := MinNumber();
        RemoveNumber(minNumber);
      }
      Add(block, trie);
    }

    /** The writes of `Insert` once there is room. */
    method Add(block: Block, trie: ReceiptTrie)
      requires Valid() && trie.root == block.receiptHash && block.hash !in blocks
      requires block.number in hashesByNumber || |hashesByNumber| < capacity
      modifies this
      ensures Valid()
      ensures blocks == old(blocks)[block.hash := block] && receiptTries == old(receiptTries)[block.hash := trie]
      ensures hashesByNumber.Keys == old(hashesByNumber.Keys) + {block.number}
    {
      AddAgrees(hashesByNumber, blocks, receiptTries, block, trie);
      hide Agree;
      var number := block.number;
      blocks := blocks[block.hash := block];
      receiptTries := receiptTries[block.hash := trie];
      if number in hashesByNumber {
        hashesByNumber := hashesByNumber[number := hashesByNumber[number] + [block.hash]];
      } else {
        hashesByNumber := hashesByNumber[number := [block.hash]];
      }
      KeyAdded(old(hashesByNumber), number, hashesByNumber[number]);
    }

    method RemoveNumber(n: nat)
      requires Valid() && n in hashesByNumber
      modifies this
      ensures Valid()
      ensures hashesByNumber == old(hashesByNumber) - {n} && |hashesByNumber| == old(|hashesByNumber|) - 1
      ensures forall h :: h in blocks <==> old(h in blocks && blocks[h].number != n)
      ensures forall h :: h in blocks ==> blocks[h] == old(blocks[h]) && receiptTries[h] == old(receiptTries[h])
    {
      var hashesToRemove := hashesByNumber[n];
      var gone := set h | h in hashesToRemove;
      RemoveAgrees(hashesByNumber, blocks, receiptTries, n, gone);
      hashesByNumber := hashesByNumber - {n};
      assert hashesByNumber.Keys == old(hashesByNumber).Keys - {n};
      blocks := blocks - gone;
      receiptTries := receiptTries - gone;
    }

    /** Finds the block with the hash exactly if it is cached, with a trie of that very block. */
    method Get(hash: H256) returns (found: Option<(Block, ReceiptTrie)>)
      requires Valid()
      ensures found.Some? <==> hash in blocks
      ensures found.Some? ==>
                && found.value.0.hash == hash && found.value.1.root == found.value.0.receiptHash
                && (hash, found.value.0) in blocks.Items && (hash, found.value.1) in receiptTries.Items
    {
      if hash in blocks {
        return Some((blocks[hash], receiptTries[hash]));
      }
      found := None;
    }

    /** `GetReceiptTrie`.  The loader's answers are parameters; None is its failure, and so is a trie that does not
        match the block.  A returned trie has the receipt root of the cached block or else of the loaded one, and if
        the loader returned the requested block, that is cached under its hash. */
    method GetReceiptTrie(hash: H256, loadedBlock: Option<Block>, loadedTrie: Option<ReceiptTrie>)
      returns (trie: Option<ReceiptTrie>)
      requires Valid()
      modifies this
      ensures Valid()
      ensures trie.None? <==> old(hash !in blocks) && (loadedBlock.None? || loadedTrie.None?
                                                       || loadedTrie.value.root != loadedBlock.value.receiptHash)
      ensures old(hash in blocks) || trie.None? ==> unchanged(this)
      ensures trie.Some? && old(hash in blocks) ==>
                trie.value == receiptTries[hash] && trie.value.root == blocks[hash].receiptHash
      ensures trie.Some? && old(hash !in blocks) ==>
                && trie == loadedTrie && trie.value.root == loadedBlock.value.receiptHash
                && loadedBlock.value.hash in blocks
                && (loadedBlock.value.hash == hash ==>
                      blocks[hash] == loadedBlock.value && receiptTries[hash] == trie.value)
    {
      var cached := Get(hash);
      if cached.Some? {
        return Some(cached.value.1);
      }
      if loadedBlock.None? || loadedTrie.None? {
        return None;
      }
      if loadedTrie.value.root != loadedBlock.value.receiptHash {
        return None;
      }
      Insert(loadedBlock.value, loadedTrie.value);
      trie := loadedTrie;
    }
  }

  // ----- the dataset caches of two epochs -----

  const EPOCH_LENGTH: nat := 30000

  /** A dataset cache; only its epoch matters here. */
  datatype EpochCache = EpochCache(epoch: U64)

  /** `pending` counts the background preparations that have been started and have not run yet. */
  datatype CacheState = CacheState(current: EpochCache, next: Option<EpochCache>, pending: nat)

  /** A call for block `number`, or a background preparation; `loads` says whether the loader succeeds. */
  datatype Event = Get(number: U64, loads: bool) | Prepare(loads: bool)

  datatype Answer = Cache(cache: EpochCache) | LoadFailed | NextNotNil | Prepared

  function Load(epoch: nat): EpochCache
    requires epoch < TWO_64
  {
    EpochCache(epoch)
  }

  function GetStep(s: CacheState, number: U64, loads: bool): (CacheState, Answer) {
    var epoch := number / EPOCH_LENGTH;
    if epoch == s.current.epoch then (s, Cache(s.current))
    else if epoch == (s.current.epoch + 1) % TWO_64 then
      if s.next.Some? then (CacheState(s.next.value, None, s.pending + 1), Cache(s.next.value))
      else if loads then (CacheState(Load(epoch), None, s.pending + 1), Cache(Load(epoch)))
      else (s, LoadFailed)
    else if !loads then (s, LoadFailed)
    else if epoch == (s.current.epoch - 1) % TWO_64 then
      (CacheState(Load(epoch), Some(s.current), s.pending), Cache(Load(epoch)))
    else (CacheState(Load(epoch), None, s.pending + 1), Cache(Load(epoch)))
  }

  function PrepareStep(s: CacheState, loads: bool): (CacheState, Answer)
    requires s.pending > 0
  {
    if s.next.Some? then (s.(pending := s.pending - 1), NextNotNil)
    else if !loads then (s.(pending := s.pending - 1), LoadFailed)
    else (s.(next := Some(Load((s.current.epoch + 1) % TWO_64)), pending := s.pending - 1), Prepared)
  }

  /** `GetEthashproofCache` and `prepareNextEthashproofCache`, each under the lock. */
  class EthashproofCacheState {
    var currentCache: EpochCache
    var nextCache: Option<EpochCache>
    ghost var pending: nat

    ghost function State(): CacheState
      reads this
    {
      CacheState(currentCache, nextCache, pending)
    }

    constructor (initBlockHeight: U64)
      ensures State() == Initial(initBlockHeight)
    {
      currentCache := Load(initBlockHeight / EPOCH_LENGTH);
      nextCache := None;
      pending := 1;
    }

    method GetEthashproofCache(number: U64, loads: bool) returns (answer: Answer)
      modifies this
      ensures (State(), answer) == GetStep(old(State()), number, loads)
    {
      var epoch := number / EPOCH_LENGTH;
      if epoch == currentCache.epoch {
        return Cache(currentCache);
      }
      if epoch == (currentCache.epoch + 1) % TWO_64 {
        if nextCache.Some? {
          currentCache := nextCache.value;
        } else {
          if !loads {
            return LoadFailed;
          }
          currentCache := Load(epoch);
        }
      } else {
        if !loads {
          return LoadFailed;
        }
        if epoch == (currentCache.epoch - 1) % TWO_64 {
          nextCache := Some(currentCache);
          currentCache := Load(epoch);
          return Cache(currentCache);
        }
        currentCache := Load(epoch);
      }
      nextCache := None;
      pending := pending + 1;
      answer := Cache(currentCache);
    }

    method PrepareNextEthashproofCache(loads: bool) returns (answer: Answer)
      requires pending > 0
      modifies this
      ensures (State(), answer) == PrepareStep(old(State()), loads)
    {
      pending := pending - 1;
      if nextCache.Some? {
        return NextNotNil;
      }
      if !loads {
        return LoadFailed;
      }
      nextCache := Some(Load((currentCache.epoch + 1) % TWO_64));
      answer := Prepared;
    }
  }

  function Initial(initBlockHeight: U64): CacheState {
    CacheState(Load(initBlockHeight / EPOCH_LENGTH), None, 1)
  }

  /** The next cache, if any, is that of the next epoch. */
  ghost predicate NextFollows(s: CacheState) {
    && s.current.epoch + 1 < TWO_64
    && (s.next.Some? ==> s.next.value.epoch == s.current.epoch + 1)
  }

  /** One event; a preparation that was not started does nothing. */
  function Step(s: CacheState, event: Event): (CacheState, Answer) {
    match event
    case Get(number, loads) => GetStep(s, number, loads)
    case Prepare(loads) => if s.pending > 0 then PrepareStep(s, loads) else (s, Prepared)
  }

  function RunEvents(s: CacheState, events: seq<Event>): CacheState
    decreases |events|
  {
    if events == [] then s else RunEvents(Step(s, events[0]).0, events[1..])
  }

  lemma StepFollows(s: CacheState, event: Event)
    requires NextFollows(s)
    ensures NextFollows(Step(s, event).0)
    ensures event.Get? && Step(s, event).1.Cache? ==> Step(s, event).1.cache.epoch == event.number / 30000
    ensures event.Get? && event.loads ==> Step(s, event).1.Cache?
  {
  }

  /** A call exactly: it gives the cache of the block's epoch, unless that is neither current nor the prepared next one
      and cannot be loaded, and then changes nothing.  Going one epoch back keeps the later cache as the next one; any
      other change of epoch drops it and starts a preparation. */
  lemma GetExact(s: CacheState, number: U64, loads: bool)
    requires NextFollows(s)
    ensures
      var epoch, (s', answer) := number / 30000, GetStep(s, number, loads);
      if loads || epoch == s.current.epoch || (s.next.Some? && s.next.value.epoch == epoch) then
        && answer == Cache(s'.current) && s'.current.epoch == epoch
        && s'.next == (if epoch == s.current.epoch then s.next
                       else if epoch + 1 == s.current.epoch then Some(s.current) else None)
        && s'.pending == s.pending + if epoch == s.current.epoch || epoch + 1 == s.current.epoch then 0 else 1
      else answer == LoadFailed && s' == s
  {
  }

  /** A preparation exactly: it adds the cache of the following epoch if there is none and it can be loaded. */
  lemma PrepareExact(s: CacheState, loads: bool)
    requires NextFollows(s) && s.pending > 0
    ensures
      var (s', answer) := PrepareStep(s, loads);
      && s'.current == s.current && s'.pending + 1 == s.pending
      && (answer == NextNotNil <==> s.next.Some?)
      && (answer == Prepared <==> s.next.None? && loads)
      && (answer == Prepared ==> s'.next.Some? && s'.next.value.epoch == s.current.epoch + 1)
      && (answer != Prepared ==> s'.next == s.next)
  {
  }

  /** Under every interleaving a returned cache is that of the block's epoch, and the next cache is nil or the
      following epoch's. */
  lemma {:induction false} CachesAgree(s: CacheState, events: seq<Event>, event: Event)
    requires NextFollows(s)
    ensures
      var s' := RunEvents(s, events);
      && NextFollows(s')
      && (event.Get? && Step(s', event).1.Cache? ==> Step(s', event).1.cache.epoch == event.number / 30000)
    decreases |events|
  {
    if events == [] {
      StepFollows(s, event);
    } else {
      StepFollows(s, events[0]);
      CachesAgree(Step(s, events[0]).0, events[1..], event);
    }
  }

  /** Preparation is meant to find no next cache, but it can: when an epoch change overtakes a preparation that
      was started before, the second of the two fails; and so does one overtaken by a step back. */
  lemma PreparationCanFail()
    ensures Step(RunEvents(Initial(0), [Get(30000, true), Prepare(true)]), Prepare(true)).1 == NextNotNil
    ensures Step(RunEvents(Initial(0), [Get(30000, true), Get(0, true)]), Prepare(true)).1 == NextNotNil
  {
  }

  /** At most one preparation is outstanding, and then there is no next cache. */
  predicate Safe(s: CacheState) {
    s.pending <= 1 && (s.pending == 1 ==> s.next.None?)
  }

  function Preparations(n: nat): seq<Event> {
    seq(n, _ => Prepare(true))
  }

  /** Some of the outstanding preparations, run one after the other, finds a next cache. */
  ghost predicate CanFail(s: CacheState) {
    exists n: nat :: Step(RunEvents(s, Preparations(n)), Prepare(true)).1 == NextNotNil
  }

  lemma {:induction false} SafeRunsOn(s: CacheState, n: nat)
    requires Safe(s)
    ensures Safe(RunEvents(s, Preparations(n)))
    decreases n
  {
    if n > 0 {
      assert Preparations(n)[1..] == Preparations(n - 1);
      SafeRunsOn(Step(s, Prepare(true)).0, n - 1);
    }
  }

  lemma SafeIsExact(s: CacheState)
    ensures CanFail(s) <==> !Safe(s)
  {
    if Safe(s) {
      forall n: nat
        ensures Step(RunEvents(s, Preparations(n)), Prepare(true)).1 != NextNotNil
      {
        SafeRunsOn(s, n);
      }
    } else if s.next.Some? {
      assert RunEvents(s, Preparations(0)) == s;
    } else {
      var s' := Step(s, Prepare(true)).0;
      assert Preparations(1)[1..] == Preparations(0);
      assert RunEvents(s, Preparations(1)) == RunEvents(s', Preparations(0)) == s';
      assert Step(RunEvents(s, Preparations(1)), Prepare(true)).1 == NextNotNil;
    }
  }

  /** A call makes a later preparation fail exactly when it asks for another epoch, and can load it, while one is
      outstanding. */
  lemma OvertakingIsExact(s: CacheState, number: U64, loads: bool)
    requires NextFollows(s) && Safe(s)
    ensures CanFail(GetStep(s, number, loads).0) <==>
            s.pending > 0 && loads && number / 30000 != s.current.epoch
  {
    SafeIsExact(GetStep(s, number, loads).0);
  }

  lemma StepSafe(s: CacheState, event: Event)
    requires NextFollows(s) && Safe(s)
    ensures NextFollows(Step(s, event).0)
    ensures Safe(Step(s, event).0) <==> !Overtakes(s, event)
  {
  }

  /** A call for another epoch, which can be loaded, while a preparation is outstanding. */
  predicate Overtakes(s: CacheState, event: Event) {
    event.Get? && event.loads && event.number / 30000 != s.current.epoch && s.pending > 0
  }

  /** No event of the run overtakes a preparation. */
  predicate Patient(s: CacheState, events: seq<Event>)
    decreases |events|
  {
    events == [] || (!Overtakes(s, events[0]) && Patient(Step(s, events[0]).0, events[1..]))
  }

  /** At no point of the run can a preparation find a next cache. */
  ghost predicate NeverFails(s: CacheState, events: seq<Event>) {
    forall n :: 0 <= n <= |events| ==> !CanFail(RunEvents(s, events[..n]))
  }

  lemma NeverFailsFirst(s: CacheState, events: seq<Event>)
    requires events != []
    ensures NeverFails(s, events) <==> !CanFail(s) && NeverFails(Step(s, events[0]).0, events[1..])
  {
    hide CanFail;
    hide Step;
    var s' := Step(s, events[0]).0;
    assert RunEvents(s, events[..0]) == s;
    forall n | 0 < n <= |events|
      ensures RunEvents(s, events[..n]) == RunEvents(s', events[1..][..n - 1])
    {
      assert events[..n][1..] == events[1..][..n - 1];
    }
    if !CanFail(s) && NeverFails(s', events[1..]) {
      forall n | 0 <= n <= |events|
        ensures !CanFail(RunEvents(s, events[..n]))
      {
        assert n > 0 ==> !CanFail(RunEvents(s', events[1..][..n - 1]));
      }
    }
    if NeverFails(s, events) {
      forall n | 0 <= n <= |events[1..]|
        ensures !CanFail(RunEvents(s', events[1..][..n]))
      {
        assert !CanFail(RunEvents(s, events[..n + 1]));
      }
    }
  }

  /** Over a run, no preparation can ever find a next cache if and only if no event overtakes one. */
  lemma {:induction false} PatientIsExact(s: CacheState, events: seq<Event>)
    requires NextFollows(s) && Safe(s)
    ensures NeverFails(s, events) <==> Patient(s, events)
    decreases |events|
  {
    SafeIsExact(s);
    if events == [] {
      assert forall n :: 0 <= n <= 0 ==> RunEvents(s, events[..n]) == s;
    } else {
      var s' := Step(s, events[0]).0;
      StepSafe(s, events[0]);
      NeverFailsFirst(s, events);
      SafeIsExact(s');
      if Safe(s') {
        PatientIsExact(s', events[1..]);
      } else {
        NeverStarts(s', events[1..]);
      }
    }
  }

  lemma NeverStarts(s: CacheState, events: seq<Event>)
    requires CanFail(s)
    ensures !NeverFails(s, events)
  {
    hide CanFail;
    assert RunEvents(s, events[..0]) == s;
  }

  /** The same from the start of the relayer. */
  lemma PatientFromStart(initBlockHeight: U64, events: seq<Event>)
    ensures NextFollows(Initial(initBlockHeight)) && Safe(Initial(initBlockHeight))
    ensures Initial(initBlockHeight) == CacheState(EpochCache(initBlockHeight / 30000), None, 1)
    ensures NeverFails(Initial(initBlockHeight), events) <==> Patient(Initial(initBlockHeight), events)
  {
    PatientIsExact(Initial(initBlockHeight), events);
  }
}
