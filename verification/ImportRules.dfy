/** An import exactly: which headers are accepted, and everything that is written for them.

  The rules are written out here with their own numbers, so that they stand beside the
  functions of `LightClient` as an independent account of them.
*/
module ImportRules {
  import opened Primitives
  import opened EthereumHeader
  import opened Ancestry
  import opened LightClient
  import opened LightClientInvariant
  import opened LightClientRuns
  import opened Verifier
  import Arithmetic
  import Difficulty
  import EthashProof

  // ----- the checks of a header against its parent -----

  /** The gas limit moves by less than a 1024th and stays at 5000 or more; the gas used is within it; the header is
      later, one above its parent, and its extra data is short. */
  predicate FollowsParent(h: Header, p: Header) {
    && h.gasUsed <= h.gasLimit
    && 1024 * (h.gasLimit + 1) <= 1025 * p.gasLimit
    && 1023 * p.gasLimit < 1024 * h.gasLimit
    && h.gasLimit >= 5000
    && h.timestamp > p.timestamp
    && h.number == (p.number + 1) % TWO_64
    && |h.extraData| <= 32
  }

  lemma BasicChecksExact(h: Header, p: Header)
    ensures BasicChecks(h, p) ==
            if h.gasUsed > h.gasLimit then Failure(InvalidHeader)
            else if 1025 * p.gasLimit >= TWO_256 then Failure(Panic)
            else if FollowsParent(h, p) then Success
            else Failure(InvalidHeader)
  {
    var up, down := p.gasLimit * 1025 / 1024, p.gasLimit * 1023 / 1024;
    assert 1024 * up <= 1025 * p.gasLimit < 1024 * (up + 1);
    assert 1024 * down <= 1023 * p.gasLimit < 1024 * (down + 1);
  }

  /** The difficulty that the formula of EIP-100 gives a header, with the bomb of `delay`. */
  function Expected(h: Header, p: Header, delay: nat): int
    requires h.timestamp >= p.timestamp
  {
    var y := if p.ommersHash == EMPTY_OMMERS_HASH then 1 else 2;
    var fake := if p.number + 1 < delay then 0 else p.number + 1 - delay;
    var bomb := if fake / 100000 >= 2 then Arithmetic.Pow2(fake / 100000 - 2) else 0;
    Max(131072, p.difficulty + p.difficulty / 2048 * Max(y - (h.timestamp - p.timestamp) / 9, -99)) + bomb
  }

  lemma DifficultyCheckExact(env: Env, h: Header, p: Header, delay: nat)
    ensures Difficulty.BeforeAllForks(env.difficultyConfig, (p.number + 1) % TWO_64) || h.timestamp < p.timestamp ==>
              DifficultyCheck(env, h, p) == Failure(InvalidHeader)
    ensures Difficulty.IsDelayAt(env.difficultyConfig, (p.number + 1) % TWO_64, delay) && h.timestamp >= p.timestamp ==>
              DifficultyCheck(env, h, p) ==
              if Expected(h, p, delay) >= TWO_256 then Failure(Panic)
              else if h.difficulty == Expected(h, p, delay) then Success
              else Failure(InvalidHeader)
  {
    Difficulty.CalcDifficultyExact(env.difficultyConfig, h.timestamp, p, delay);
    hide Difficulty.CalcDifficulty;
    hide Arithmetic.Pow2;
  }

  /** The header is a valid child of `p` by the rules of the chain, with the proof of its work over the dataset `t`. */
  ghost predicate ValidChild(
    env: Env, h: Header, p: Header, proof: seq<EthashProof.DoubleNode>, t: EthashProof.DagTree, depth: nat)
    requires IsDataset(env, h.number, t, depth)
  {
    && FollowsParent(h, p)
    && (exists delay :: Difficulty.IsDelayAt(env.difficultyConfig, h.number, delay)
                        && h.difficulty == Expected(h, p, delay))
    && Mined(env, h, t, depth) && ProvesWork(env, h, proof, t, depth)
  }

  /** A 256-bit operation overflows while the header is checked: the bound of its gas limit, or its difficulty. */
  ghost predicate Aborts(env: Env, h: Header, p: Header) {
    if 1025 * p.gasLimit >= TWO_256 then h.gasUsed <= h.gasLimit
    else
      && FollowsParent(h, p)
      && exists delay :: Difficulty.IsDelayAt(env.difficultyConfig, h.number, delay)
                         && Expected(h, p, delay) >= TWO_256
  }

  /** All checks pass exactly for a valid child, unless they abort. */
  lemma SealChecksExact(
    env: Env, h: Header, p: Header, proof: seq<EthashProof.DoubleNode>,
    t: EthashProof.DagTree, depth: nat, inputs: EthashProof.Hashed)
    requires IsDataset(env, h.number, t, depth) && NoCollision(env, h, proof, t, inputs)
    ensures SealChecks(env, h, p, proof) ==
            if Aborts(env, h, p) then Failure(Panic)
            else if ValidChild(env, h, p, proof, t, depth) then Success
            else Failure(InvalidHeader)
    ensures ValidChild(env, h, p, proof, t, depth) ==> (Aborts(env, h, p) <==> 1025 * p.gasLimit >= TWO_256)
  {
    hide Mined;
    hide ProvesWork;
    hide IsDataset;
    hide NoCollision;
    hide Expected;
    hide Difficulty.IsDelayAt;
    BasicChecksExact(h, p);
    hide BasicChecks;
    PowCheckExact(env, h, proof, t, depth, inputs);
    hide PowCheck;
    if FollowsParent(h, p) {
      DifficultyChecked(env, h, p);
    }
    hide DifficultyCheck;
  }

  lemma DifficultyChecked(env: Env, h: Header, p: Header)
    requires h.number == (p.number + 1) % TWO_64 && h.timestamp >= p.timestamp
    ensures
      var config := env.difficultyConfig;
      DifficultyCheck(env, h, p) ==
      if exists delay :: Difficulty.IsDelayAt(config, h.number, delay) && Expected(h, p, delay) >= TWO_256
      then Failure(Panic)
      else if exists delay :: Difficulty.IsDelayAt(config, h.number, delay) && h.difficulty == Expected(h, p, delay)
      then Success
      else Failure(InvalidHeader)
    ensures forall delay, other ::
              && Difficulty.IsDelayAt(env.difficultyConfig, h.number, delay)
              && Difficulty.IsDelayAt(env.difficultyConfig, h.number, other)
              ==> delay == other
  {
    hide DifficultyCheck;
    hide Expected;
    var config := env.difficultyConfig;
    if delay :| Difficulty.IsDelayAt(config, h.number, delay) {
      DifficultyCheckExact(env, h, p, delay);
      forall other | Difficulty.IsDelayAt(config, h.number, other)
        ensures other == delay
      {
        Difficulty.DelayIsUnique(config, h.number, delay);
        Difficulty.DelayIsUnique(config, h.number, other);
      }
    } else {
      DifficultyCheckExact(env, h, p, 0);
      assert Difficulty.BombDelay(config, h.number).None?;
    }
  }

  // ----- what an import writes -----

  function Bucket(byNumber: Index, n: nat): seq<H256> {
    if n in byNumber then byNumber[n] else []
  }

  /** The index lists at `m` what it listed before, and there is no entry where there was none. */
  ghost predicate SameAt(before: Index, after: Index, m: nat) {
    Bucket(after, m) == Bucket(before, m) && (m in after <==> m in before)
  }

  /** From `s` to `s'` the first 8 headers below `keep`, or all there are, went, oldest number and oldest entry first;
      the rest is still listed, in order, and nothing from `keep` on is touched. */
  ghost predicate Prunes(s: Storage, s': Storage, keep: nat) {
    var queue := Queue(s.byNumber, s.toPrune.oldestUnprunedBlock, keep);
    var count := Min(8, |queue|);
    && s'.headers.Keys == s.headers.Keys - SetOf(queue[..count])
    && Queue(s'.byNumber, s'.toPrune.oldestUnprunedBlock, keep) == queue[count..]
    && (s'.toPrune.oldestUnprunedBlock < keep ==> count == 8)
    && s'.toPrune.oldestBlockToKeep == keep
    && forall m {:trigger SameAt(s.byNumber, s'.byNumber, m)} :: m >= keep ==> SameAt(s.byNumber, s'.byNumber, m)
  }

  /** A stored header is as it was, but for the flag of the finalized block. */
  ghost predicate FlagsOnly(before: StoredHeader, after: StoredHeader, final: bool) {
    after == before.(finalized := before.finalized || final)
  }

  /** From `s` to `s'` only headers went, and the finalized block was flagged. */
  ghost predicate OnlyFlags(s: Storage, s': Storage) {
    && s'.bestDifficulty == s.bestDifficulty
    && forall k :: k in s'.headers ==>
         k in s.headers && FlagsOnly(s.headers[k], s'.headers[k], k == s'.finalized.hash)
  }

  /** Settling after a new best block prunes up to 50000 below the finalized block, once it is found. */
  lemma SettleWrites(env: Env, c: Chain)
    requires Inv(env, c)
    requires !(env.genesis.number + env.descendantsUntilFinalized <= c.store.best.number
               < c.store.finalized.number + env.descendantsUntilFinalized)
    ensures
      var s, s' := c.store, Settle(env, c.store).0;
      && Prunes(s, s', Max(env.genesis.number, SaturatingSub(s'.finalized.number, 50000)))
      && s'.best == s.best && OnlyFlags(s, s')
  {
    SettlesUpon(env, c);
    FinalizedIsStored(env, c);
    hide Inv;
    hide GetBestFinalized;
    var s := c.store;
    var id := GetBestFinalized(env, s.headers, s.best, s.finalized).value;
    var s1 := if id != s.finalized then SetFinalized(s, id) else s;
    PruneWrites(s1, SaturatingSub(id.number, 50000));
    FinalFlags(s, s1, id, Prune(s1, 8, SaturatingSub(id.number, 50000)));
    hide Prune;
    hide Prunes;
    hide OnlyFlags;
    PrunesFrom(s, s1, Prune(s1, 8, SaturatingSub(id.number, 50000)),
               Max(env.genesis.number, SaturatingSub(id.number, 50000)));
  }

  lemma PruneWrites(s: Storage, pruneEnd: nat)
    ensures
      var s' := Prune(s, 8, pruneEnd);
      && Prunes(s, s', Max(s.toPrune.oldestBlockToKeep, pruneEnd))
      && s'.best == s.best && s'.bestDifficulty == s.bestDifficulty && s'.finalized == s.finalized
      && (forall k :: k in s'.headers ==> k in s.headers && s'.headers[k] == s.headers[k])
  {
    PruneExact(s, 8, pruneEnd);
    hide Prune;
    hide Queue;
    hide SetOf;
  }

  lemma FinalFlags(s: Storage, s1: Storage, id: HeaderId, s': Storage)
    requires id != s.finalized ==> id.hash in s.headers
    requires s.finalized.hash in s.headers && s.headers[s.finalized.hash].finalized
    requires s1 == (if id != s.finalized then SetFinalized(s, id) else s)
    requires s'.finalized == s1.finalized && s'.bestDifficulty == s1.bestDifficulty
    requires forall k :: k in s'.headers ==> k in s1.headers && s'.headers[k] == s1.headers[k]
    ensures OnlyFlags(s, s')
  {
  }

  lemma PrunesFrom(s: Storage, s1: Storage, s': Storage, keep: nat)
    requires Prunes(s1, s', keep)
    requires s1.headers.Keys == s.headers.Keys && s1.byNumber == s.byNumber && s1.toPrune == s.toPrune
    ensures Prunes(s, s', keep)
  {
    hide Queue;
    hide SetOf;
  }

  lemma SettlesUpon(env: Env, c: Chain)
    requires Inv(env, c)
    requires !(env.genesis.number + env.descendantsUntilFinalized <= c.store.best.number
               < c.store.finalized.number + env.descendantsUntilFinalized)
    ensures
      var s := c.store;
      var id := GetBestFinalized(env, s.headers, s.best, s.finalized);
      && id.Ok? && id.value.number >= s.finalized.number && (id.value != s.finalized ==> id.value.hash in s.headers)
      && s.toPrune.oldestBlockToKeep == Max(env.genesis.number, SaturatingSub(s.finalized.number, 50000))
  {
    GetBestFinalizedExact(env, c);
    hide GetBestFinalized;
  }

  lemma FinalizedIsStored(env: Env, c: Chain)
    requires Inv(env, c)
    ensures c.store.finalized.hash in c.store.headers && c.store.headers[c.store.finalized.hash].finalized
  {
    var k := c.store.finalized.hash;
    assert RetainedAt(c, k) && StoredAt(env, c, k);
  }

  /** The header becomes the best block, and the finality search answers. */
  ghost predicate Settles(env: Env, c: Chain, header: Header)
    requires HistoryOk(env, c.history) && header.parentHash in c.history
  {
    var d := env.descendantsUntilFinalized;
    && TotalUpon(env, c, header) > c.store.bestDifficulty
    && !(env.genesis.number + d <= header.number < c.store.finalized.number + d)
  }

  /** `s'` is `s` with the header appended to the index and stored, flagged at once if it is final at once. */
  ghost predicate Stores(env: Env, s: Storage, s': Storage, who: Account, header: Header, total: nat) {
    var h, n := env.hash(header), header.number;
    && h in s'.headers
    && s'.headers[h].submitter == Some(who) && s'.headers[h].header == header
    && s'.headers[h].totalDifficulty == total && (s'.headers[h].finalized <==> h == s'.finalized.hash)
    && Bucket(s'.byNumber, n) == Bucket(s.byNumber, n) + [h]
    && forall k :: k in s'.headers && k != h ==>
         k in s.headers && FlagsOnly(s.headers[k], s'.headers[k], k == s'.finalized.hash)
  }

  /** Everything that the import of an accepted header writes: the best block, the finalized block and its flag, the
      header itself, and, when it settles, the pruning of 8 headers up to 50000 below the finalized block. */
  ghost predicate Writes(env: Env, c: Chain, c': Chain, who: Account, header: Header)
    requires HistoryOk(env, c.history) && header.parentHash in c.history && HistoryOk(env, c'.history)
  {
    var s, s', h, n, total := c.store, c'.store, env.hash(header), header.number, TotalUpon(env, c, header);
    var keep := Max(env.genesis.number, SaturatingSub(s'.finalized.number, 50000));
    var queue := Queue(s.byNumber, s.toPrune.oldestUnprunedBlock, keep);
    var count := if Settles(env, c, header) then Min(8, |queue|) else 0;
    && Moves(env, c, c', header)
    && s'.bestDifficulty == Max(s.bestDifficulty, total)
    && Stores(env, s, s', who, header, total)
    && s'.headers.Keys == s.headers.Keys + {h} - SetOf(queue[..count])
    && s'.toPrune.oldestBlockToKeep == keep
    && (forall m :: m >= keep && m != n ==> SameAt(s.byNumber, s'.byNumber, m))
    && if Settles(env, c, header) then
         && Queue(s'.byNumber, s'.toPrune.oldestUnprunedBlock, keep) == queue[count..]
         && (s'.toPrune.oldestUnprunedBlock < keep ==> count == 8)
       else
         && s'.toPrune == s.toPrune
         && (forall m :: m != n ==> SameAt(s.byNumber, s'.byNumber, m))
  }

  lemma RecordStores(env: Env, s: Storage, who: Account, header: Header, total: U256)
    requires env.hash(header) !in s.headers && env.hash(header) != s.finalized.hash
    requires s.finalized.hash in s.headers && s.headers[s.finalized.hash].finalized
    ensures
      var s', h := Record(env, s, who, header, total), env.hash(header);
      && Stores(env, s, s', who, header, total)
      && s'.headers.Keys == s.headers.Keys + {h}
      && s'.toPrune == s.toPrune && s'.finalized == s.finalized
      && s'.bestDifficulty == Max(s.bestDifficulty, total)
      && (forall m :: m != header.number ==> SameAt(s.byNumber, s'.byNumber, m))
  {
  }

  /** `s'` is `s`, whose finalized block is stored and flagged, with the header recorded. */
  ghost predicate Records(env: Env, s: Storage, s': Storage, who: Account, header: Header, total: nat) {
    var h := env.hash(header);
    && Stores(env, s, s', who, header, total)
    && s'.headers.Keys == s.headers.Keys + {h}
    && s'.toPrune == s.toPrune && s'.finalized == s.finalized
    && s'.bestDifficulty == Max(s.bestDifficulty, total)
    && (forall m :: m != header.number ==> SameAt(s.byNumber, s'.byNumber, m))
    && h != s.finalized.hash
    && s.finalized.hash in s.headers && s.headers[s.finalized.hash].finalized
  }

  lemma StoresSettled(
    env: Env, s: Storage, s2: Storage, s': Storage, who: Account, header: Header, total: nat, keep: nat)
    requires Records(env, s, s2, who, header, total)
    requires Prunes(s2, s', keep) && OnlyFlags(s2, s') && keep <= header.number && env.hash(header) in s'.headers
    ensures Stores(env, s, s', who, header, total)
    ensures s'.bestDifficulty == Max(s.bestDifficulty, total)
    ensures
      var queue := Queue(s.byNumber, s.toPrune.oldestUnprunedBlock, keep);
      var count := Min(8, |queue|);
      && s'.headers.Keys == s.headers.Keys + {env.hash(header)} - SetOf(queue[..count])
      && s'.toPrune.oldestBlockToKeep == keep
      && Queue(s'.byNumber, s'.toPrune.oldestUnprunedBlock, keep) == queue[count..]
      && (s'.toPrune.oldestUnprunedBlock < keep ==> count == 8)
      && (forall m :: m >= keep && m != header.number ==> SameAt(s.byNumber, s'.byNumber, m))
  {
    forall m | s.toPrune.oldestUnprunedBlock <= m < keep
      ensures (m in s.byNumber <==> m in s2.byNumber) && (m in s.byNumber ==> s.byNumber[m] == s2.byNumber[m])
    {
      assert SameAt(s.byNumber, s2.byNumber, m);
    }
    QueueFrame(s.byNumber, s2.byNumber, s.toPrune.oldestUnprunedBlock, keep);
    hide Queue;
    hide SetOf;
    assert SameAt(s2.byNumber, s'.byNumber, header.number);
    forall m | m >= keep && m != header.number
      ensures SameAt(s.byNumber, s'.byNumber, m)
    {
      assert SameAt(s.byNumber, s2.byNumber, m) && SameAt(s2.byNumber, s'.byNumber, m);
    }
  }

  lemma SettledWrites(env: Env, c: Chain, s2: Storage, c': Chain, who: Account, header: Header)
    requires HistoryOk(env, c.history) && header.parentHash in c.history && HistoryOk(env, c'.history)
    requires Settles(env, c, header) && Moves(env, c, c', header)
    requires Records(env, c.store, s2, who, header, TotalUpon(env, c, header))
    requires
      var keep := Max(env.genesis.number, SaturatingSub(c'.store.finalized.number, 50000));
      Prunes(s2, c'.store, keep) && keep <= header.number
    requires OnlyFlags(s2, c'.store) && env.hash(header) in c'.store.headers
    ensures Writes(env, c, c', who, header)
  {
    hide HistoryOk;
    hide Moves;
    hide Records;
    hide OnlyFlags;
    hide Prunes;
    hide Stores;
    hide Settles;
    hide SameAt;
    hide Queue;
    hide SetOf;
    StoresSettled(env, c.store, s2, c'.store, who, header, TotalUpon(env, c, header),
                  Max(env.genesis.number, SaturatingSub(c'.store.finalized.number, 50000)));
    hide TotalUpon;
  }

  lemma UnsettledWrites(env: Env, c: Chain, c': Chain, who: Account, header: Header)
    requires HistoryOk(env, c.history) && header.parentHash in c.history && HistoryOk(env, c'.history)
    requires !Settles(env, c, header) && Moves(env, c, c', header)
    requires Records(env, c.store, c'.store, who, header, TotalUpon(env, c, header))
    requires BoundOk(env, c)
    ensures Writes(env, c, c', who, header)
  {
    hide HistoryOk;
    hide Moves;
    hide Stores;
    hide Settles;
    hide SameAt;
    hide Queue;
    hide SetOf;
    hide TotalUpon;
    NothingGone(Queue(c.store.byNumber, c.store.toPrune.oldestUnprunedBlock, c.store.toPrune.oldestBlockToKeep));
  }

  lemma ImportedWrites(env: Env, c: Chain, who: Account, header: Header)
    requires Inv(env, c) && header.parentHash in c.history && TotalUpon(env, c, header) < TWO_256
    requires env.hash(header) !in c.history
    requires Inv(env, Recorded(env, c, who, header, TotalUpon(env, c, header)))
    ensures HistoryOk(env, Imported(env, c, who, header, TotalUpon(env, c, header)).history)
    ensures Writes(env, c, Imported(env, c, who, header, TotalUpon(env, c, header)), who, header)
  {
    var total := TotalUpon(env, c, header);
    var c2 := Recorded(env, c, who, header, total);
    var c' := Imported(env, c, who, header, total);
    ImportedMoves(env, c, who, header);
    RecordedRecords(env, c, who, header, total);
    RecordedIs(env, c, who, header, total);
    if total > c.store.bestDifficulty {
      SettleOutcome(env, c2);
    }
    if Settles(env, c, header) {
      SettledBound(env, c2);
      SettleWrites(env, c2);
      assert c'.store == Settle(env, c2.store).0;
      hide *;
      SettledWrites(env, c, c2.store, c', who, header);
    } else {
      assert c'.store == c2.store;
      hide *;
      UnsettledWrites(env, c, c', who, header);
    }
  }

  lemma RecordedRecords(env: Env, c: Chain, who: Account, header: Header, total: U256)
    requires Inv(env, c) && env.hash(header) !in c.history
    ensures Records(env, c.store, Recorded(env, c, who, header, total).store, who, header, total) && BoundOk(env, c)
  {
    FinalizedIsStored(env, c);
    HashUnstored(env, c, header);
    assert BoundOk(env, c);
    hide Inv;
    hide BoundOk;
    RecordStores(env, c.store, who, header, total);
    hide Stores;
    hide SameAt;
  }

  lemma NothingGone(queue: seq<H256>)
    ensures SetOf(queue[..0]) == {}
  {
  }

  lemma HashUnstored(env: Env, c: Chain, header: Header)
    requires Inv(env, c) && env.hash(header) !in c.history
    ensures env.hash(header) !in c.store.headers && env.hash(header) != c.store.finalized.hash
  {
    assert env.hash(header) in c.store.headers ==> StoredAt(env, c, env.hash(header));
  }

  /** The finalized block and the bound below it are at most as high as the best block. */
  lemma SettledBound(env: Env, c: Chain)
    requires Inv(env, c)
    ensures Max(env.genesis.number, SaturatingSub(Settled(env, c).store.finalized.number, 50000)) <= c.store.best.number
  {
    SettleKeepsInv(env, c);
    hide Settled;
  }

  /** The observer has seen the header stored, and the finalized block flagged. */
  ghost predicate Remembers(env: Env, c: Chain, c': Chain, header: Header) {
    && c'.history == c.history[env.hash(header) := header]
    && c'.flagged == c.flagged + {c'.store.finalized.hash}
  }

  lemma AcceptableWrites(env: Env, c: Chain, call: Call)
    requires Inv(env, c) && call.origin.Signed? && Acceptable(env, c, call.header, call.proof)
    ensures Descending(c.store.headers)
    ensures HistoryOk(env, Step(env, c, call).history)
    ensures Writes(env, c, Step(env, c, call), call.origin.who, call.header)
    ensures Remembers(env, c, Step(env, c, call), call.header)
  {
    AcceptableSteps(env, c, call);
    assert && HistoryOk(env, c.history) && call.header.parentHash in c.history
           && TotalUpon(env, c, call.header) < TWO_256 && env.hash(call.header) !in c.history by {
      hide SealChecks;
    }
    assert Remembers(env, c, Step(env, c, call), call.header) by {
      hide Step;
      hide Imported;
    }
    hide *;
    ImportedWrites(env, c, call.origin.who, call.header);
  }

  // ----- the answer to every call -----

  /** The header is new and above the finalized block, and its parent is a stored descendant of that block. */
  ghost predicate Extends(env: Env, c: Chain, header: Header)
    requires HistoryOk(env, c.history)
  {
    && env.hash(header) !in c.store.headers
    && header.parentHash in c.store.headers && header.parentHash in c.history
    && header.number > c.store.finalized.number
    && Above(env, c.history, c.store.finalized.hash, header.parentHash)
  }

  /** It is moreover a valid child of its parent, and the work of its chain fits into 256 bits. */
  ghost predicate Accepts(
    env: Env, c: Chain, header: Header, proof: seq<EthashProof.DoubleNode>, t: EthashProof.DagTree, depth: nat)
    requires HistoryOk(env, c.history) && IsDataset(env, header.number, t, depth)
  {
    && Extends(env, c, header)
    && 1025 * c.history[header.parentHash].gasLimit < TWO_256
    && ValidChild(env, header, c.history[header.parentHash], proof, t, depth)
    && TotalUpon(env, c, header) < TWO_256
  }

  lemma AcceptableExactly(
    env: Env, c: Chain, header: Header, proof: seq<EthashProof.DoubleNode>,
    t: EthashProof.DagTree, depth: nat, inputs: EthashProof.Hashed)
    requires Inv(env, c) && Offers(env, header, proof)
    requires IsDataset(env, header.number, t, depth) && NoCollision(env, header, proof, t, inputs)
    ensures Acceptable(env, c, header, proof) <==> Accepts(env, c, header, proof, t, depth)
    ensures Extends(env, c, header) ==> env.hash(header) !in c.history
  {
    hide SealChecks;
    hide ValidChild;
    hide Aborts;
    hide IsDataset;
    hide NoCollision;
    if env.hash(header) in c.store.headers {
      assert StoredAt(env, c, env.hash(header));
    } else if header.number > c.store.finalized.number {
      HashIsNew(env, c, header);
    }
    if header.parentHash in c.history {
      SealChecksExact(env, header, c.history[header.parentHash], proof, t, depth, inputs);
    }
  }

  /** An import exactly, in every state of every run.  A signed call with such a header stores it and writes all that
      follows; it answers `Success`, or `Unknown` if the header becomes the best block where finality cannot be found.
      Every other call changes nothing. */
  lemma ImportExact(
    env: Env, c: Chain, call: Call, t: EthashProof.DagTree, depth: nat, inputs: EthashProof.Hashed)
    requires Inv(env, c) && Offers(env, call.header, call.proof)
    requires IsDataset(env, call.header.number, t, depth) && NoCollision(env, call.header, call.proof, t, inputs)
    ensures Descending(c.store.headers)
    ensures
      var d, c', outcome := env.descendantsUntilFinalized, Step(env, c, call), ImportHeader(env, c.store, call).1;
      && c'.store == ImportHeader(env, c.store, call).0
      && if call.origin.Signed? && Accepts(env, c, call.header, call.proof, t, depth) then
           && HistoryOk(env, c'.history)
           && Writes(env, c, c', call.origin.who, call.header) && Remembers(env, c, c', call.header)
           && outcome == if TotalUpon(env, c, call.header) > c.store.bestDifficulty
                            && env.genesis.number + d <= call.header.number < c.store.finalized.number + d
                         then Failure(Unknown) else Success
         else c' == c
  {
    AcceptableExactly(env, c, call.header, call.proof, t, depth, inputs);
    StepEither(env, c, call);
    hide Acceptable;
    hide Accepts;
    hide Writes;
    hide Remembers;
    hide IsDataset;
    hide ImportHeader;
    hide TotalUpon;
    hide Offers;
    if call.origin.Signed? && Acceptable(env, c, call.header, call.proof) {
      AcceptableWrites(env, c, call);
      AcceptableReturns(env, c, call);
    }
  }

  /** Why a call is refused: the first condition that fails decides the error. */
  lemma RefusalExact(
    env: Env, c: Chain, call: Call, t: EthashProof.DagTree, depth: nat, inputs: EthashProof.Hashed)
    requires Inv(env, c) && Offers(env, call.header, call.proof)
    requires IsDataset(env, call.header.number, t, depth) && NoCollision(env, call.header, call.proof, t, inputs)
    ensures Descending(c.store.headers)
    ensures
      var s, h, error := c.store, call.header, ImportHeader(env, c.store, call).1;
      if call.origin.Unsigned? then error == Failure(BadOrigin)
      else if env.hash(h) in s.headers then error == Failure(DuplicateHeader)
      else if h.parentHash !in s.headers then error == Failure(MissingParentHeader)
      else if h.number <= s.finalized.number then error == Failure(AncientHeader)
      else if s.headers[h.parentHash].header.number < s.finalized.number then error == Failure(Unknown)
      else if !Extends(env, c, h) then error == Failure(HeaderOnStaleFork)
      else if Aborts(env, h, c.history[h.parentHash]) then error == Failure(Panic)
      else if !ValidChild(env, h, c.history[h.parentHash], call.proof, t, depth) then error == Failure(InvalidHeader)
      else TotalUpon(env, c, h) >= TWO_256 ==> error == Failure(TotalDifficultyOverflow)
  {
    hide SealChecks;
    hide ValidChild;
    hide Aborts;
    hide IsDataset;
    hide NoCollision;
    ValidateExact(env, c, call.header, call.proof);
    if call.header.parentHash in c.store.headers {
      assert StoredAt(env, c, call.header.parentHash);
      SealChecksExact(env, call.header, c.history[call.header.parentHash], call.proof, t, depth, inputs);
    }
    hide Validate;
    hide Core;
    hide BestOk;
  }
}
