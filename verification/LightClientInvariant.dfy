/** The invariant of the light client and its preservation by each write of an import. */
module LightClientInvariant {
  import opened Primitives
  import opened EthereumHeader
  import opened Ancestry
  import opened LightClient
  import EthashProof

  /** The storage together with what an observer remembers: every header that was ever stored and
      the hash of every header that was ever flagged finalized. */
  datatype Chain = Chain(store: Storage, history: History, flagged: set<H256>)

  /** What is assumed of the hash of a header: it fixes the block number among the offered headers (which
      `HeaderRlp.KeccakFixesNumbers` derives from Keccak), and the parent of the initial header, if it is offered, is
      lower.  Two offered headers may well share a hash. */
  ghost predicate SoundEnv(env: Env) {
    && HashFixesNumber(env)
    && env.genesis in env.universe
    && forall header :: header in env.universe && env.hash(header) == env.genesis.parentHash ==>
         header.number < env.genesis.number
  }

  ghost predicate HashFixesNumber(env: Env) {
    forall a, b :: a in env.universe && b in env.universe && env.hash(a) == env.hash(b) ==> a.number == b.number
  }

  function Root(env: Env): H256 { env.hash(env.genesis) }

  // ----- the invariant -----

  /** The header and the Ethash proof are among those ever offered. */
  ghost predicate Offers(env: Env, header: Header, proof: seq<EthashProof.DoubleNode>) {
    header in env.universe && proof in env.proofs
  }

  /** Passed all checks against its parent with some offered Ethash proof. */
  ghost predicate Validated(env: Env, header: Header, parent: Header) {
    exists proof :: proof in env.proofs && SealChecks(env, header, parent, proof) == Success
  }

  ghost predicate RecordedAt(env: Env, hist: History, k: H256)
    requires k in hist
  {
    && hist[k] in env.universe
    && env.hash(hist[k]) == k
    && (k != Root(env) && hist[k].parentHash in hist ==> Validated(env, hist[k], hist[hist[k].parentHash]))
  }

  ghost predicate HistoryOk(env: Env, hist: History) {
    && Rooted(hist, Root(env))
    && hist[Root(env)] == env.genesis
    && forall k {:trigger RecordedAt(env, hist, k)} :: k in hist ==> RecordedAt(env, hist, k)
  }

  ghost function Work(env: Env, hist: History, k: H256): nat
    requires HistoryOk(env, hist) && k in hist
  {
    TotalDifficulty(hist, Root(env), env.initialDifficulty, k)
  }

  ghost predicate Above(env: Env, hist: History, a: H256, k: H256)
    requires HistoryOk(env, hist)
  {
    IsAncestor(hist, Root(env), a, k)
  }

  ghost predicate StoredAt(env: Env, c: Chain, k: H256)
    requires HistoryOk(env, c.history) && k in c.store.headers
  {
    var stored := c.store.headers[k];
    && k in c.history
    && stored.header == c.history[k]
    && stored.totalDifficulty == Work(env, c.history, k)
    && (stored.finalized <==> k in c.flagged)
  }

  ghost predicate StoredOk(env: Env, c: Chain)
    requires HistoryOk(env, c.history)
  {
    forall k {:trigger StoredAt(env, c, k)} :: k in c.store.headers ==> StoredAt(env, c, k)
  }

  ghost predicate BucketOk(headers: Headers, n: nat, bucket: seq<H256>) {
    && bucket != []
    && (forall i :: 0 <= i < |bucket| ==> bucket[i] in headers && headers[bucket[i]].header.number == n)
    && (forall i, j :: 0 <= i < j < |bucket| ==> bucket[i] != bucket[j])
  }

  ghost predicate ListedAt(headers: Headers, byNumber: Index, k: H256)
    requires k in headers
  {
    headers[k].header.number in byNumber && k in byNumber[headers[k].header.number]
  }

  /** The index lists each stored hash once, at its own number, and nothing else. */
  ghost predicate Indexed(headers: Headers, byNumber: Index) {
    && (forall k {:trigger ListedAt(headers, byNumber, k)} :: k in headers ==> ListedAt(headers, byNumber, k))
    && (forall n :: n in byNumber ==> BucketOk(headers, n, byNumber[n]))
  }

  ghost predicate RetainedAt(c: Chain, k: H256)
    requires k in c.history
  {
    var n := c.history[k].number;
    && (n > c.store.toPrune.oldestUnprunedBlock || n >= c.store.toPrune.oldestBlockToKeep ==> k in c.store.headers)
    && (n < c.store.toPrune.oldestUnprunedBlock ==> k !in c.store.headers)
  }

  ghost predicate Retained(c: Chain) {
    forall k {:trigger RetainedAt(c, k)} :: k in c.history ==> RetainedAt(c, k)
  }

  ghost predicate RangeOk(env: Env, c: Chain) {
    var range := c.store.toPrune;
    && env.genesis.number <= range.oldestUnprunedBlock <= range.oldestBlockToKeep <= c.store.finalized.number
    && (range.oldestBlockToKeep == env.genesis.number
        || range.oldestBlockToKeep + FINALIZED_HEADERS_TO_KEEP <= c.store.finalized.number)
  }

  /** `b` witnesses that `k` has the descendants that finality asks for. */
  ghost predicate ConfirmedBy(env: Env, hist: History, k: H256, b: H256)
    requires HistoryOk(env, hist)
  {
    Above(env, hist, k, b) && hist[b].number == hist[k].number + env.descendantsUntilFinalized
  }

  ghost predicate Confirmed(env: Env, hist: History, k: H256)
    requires HistoryOk(env, hist)
  {
    exists b :: ConfirmedBy(env, hist, k, b)
  }

  ghost predicate FlaggedAt(env: Env, c: Chain, k: H256)
    requires HistoryOk(env, c.history)
  {
    && Above(env, c.history, k, c.store.finalized.hash)
    && (k != Root(env) ==> Confirmed(env, c.history, k))
  }

  ghost predicate IsIdOf(hist: History, id: HeaderId) {
    id.hash in hist && hist[id.hash].number == id.number
  }

  ghost predicate FinalOk(env: Env, c: Chain)
    requires HistoryOk(env, c.history)
  {
    && IsIdOf(c.history, c.store.finalized)
    && c.store.finalized.hash in c.flagged
    && Root(env) in c.flagged
    && forall k {:trigger FlaggedAt(env, c, k)} :: k in c.flagged ==> FlaggedAt(env, c, k)
  }

  /** Everything but the best block. */
  ghost predicate Core(env: Env, c: Chain) {
    && HistoryOk(env, c.history)
    && StoredOk(env, c)
    && Indexed(c.store.headers, c.store.byNumber)
    && RangeOk(env, c)
    && Retained(c)
    && FinalOk(env, c)
  }

  /** The best block is the heaviest ever imported and descends from the finalized one. */
  ghost predicate BestOk(env: Env, c: Chain)
    requires HistoryOk(env, c.history)
  {
    && IsIdOf(c.history, c.store.best)
    && c.store.bestDifficulty == Work(env, c.history, c.store.best.hash)
    && (forall k {:trigger Work(env, c.history, k)} :: k in c.history ==>
          Work(env, c.history, k) <= c.store.bestDifficulty)
    && Above(env, c.history, c.store.finalized.hash, c.store.best.hash)
  }

  /** Everything is kept from 50000 blocks below the finalized one on, or from genesis on. */
  ghost predicate BoundOk(env: Env, c: Chain) {
    c.store.toPrune.oldestBlockToKeep == Max(env.genesis.number, SaturatingSub(c.store.finalized.number, 50000))
  }

  ghost predicate Inv(env: Env, c: Chain) {
    SoundEnv(env) && Core(env, c) && BestOk(env, c) && BoundOk(env, c)
  }

  // ----- walks -----

  lemma CoreDescending(env: Env, c: Chain)
    requires Core(env, c)
    ensures Descending(c.store.headers)
  {
    forall k | k in c.store.headers
      ensures StepsDown(c.store.headers, k)
    {
      assert StoredAt(env, c, k);
      assert LinkedAt(c.history, Root(env), k);
      var parent := c.store.headers[k].header.parentHash;
      if parent in c.store.headers {
        assert StoredAt(env, c, parent);
      }
    }
  }

  /** Above the pruning boundary the walk along stored headers misses nothing. */
  lemma {:induction false} WalkFinds(env: Env, c: Chain, k: H256, n: nat)
    requires Core(env, c) && k in c.store.headers && n >= c.store.toPrune.oldestBlockToKeep
    requires Descending(c.store.headers)
    ensures k in c.history
    ensures FindAtNumber(c.store.headers, k, n) ==
            if n <= c.history[k].number then Some(Ancestor(c.history, Root(env), k, n)) else None
    decreases c.store.headers[k].header.number
  {
    assert StoredAt(env, c, k);
    if c.history[k].number != n {
      assert LinkedAt(c.history, Root(env), k);
      assert StepsDown(c.store.headers, k);
      var parent := c.history[k].parentHash;
      if n < c.history[k].number {
        assert RetainedAt(c, parent);
      }
      if parent in c.store.headers {
        WalkFinds(env, c, parent, n);
      }
    }
  }

  /** The d-th stored ancestor is the ancestor d blocks lower, and it is found unless pruned. */
  lemma {:induction false} WalkNth(env: Env, c: Chain, k: H256, d: nat)
    requires Core(env, c) && k in c.store.headers
    ensures k in c.history
    ensures
      var r := NthAncestor(c.store.headers, k, d);
      && (r.Some? ==>
            && env.genesis.number + d <= c.history[k].number
            && r.value == Ancestor(c.history, Root(env), k, c.history[k].number - d)
            && r.value in c.store.headers)
      && (c.store.toPrune.oldestBlockToKeep + d <= c.history[k].number ==> r.Some?)
    decreases d
  {
    assert StoredAt(env, c, k);
    if d > 0 {
      assert LinkedAt(c.history, Root(env), k);
      var parent := c.history[k].parentHash;
      if c.store.toPrune.oldestBlockToKeep + d <= c.history[k].number {
        assert RetainedAt(c, parent);
      }
      if parent in c.store.headers {
        assert StoredAt(env, c, parent);
        WalkNth(env, c, parent, d - 1);
      }
    }
  }

  // ----- inserting a header -----

  lemma InsertIndexed(s: Storage, submitter: Option<Account>, header: Header, h: H256, total: U256)
    requires Indexed(s.headers, s.byNumber) && h !in s.headers
    ensures Indexed(Insert(s, submitter, header, h, total).headers, Insert(s, submitter, header, h, total).byNumber)
  {
    var s' := Insert(s, submitter, header, h, total);
    forall k | k in s'.headers
      ensures ListedAt(s'.headers, s'.byNumber, k)
    {
      if k != h {
        assert ListedAt(s.headers, s.byNumber, k);
      } else {
        assert s'.byNumber[header.number][|s'.byNumber[header.number]| - 1] == h;
      }
    }
    forall n | n in s'.byNumber
      ensures BucketOk(s'.headers, n, s'.byNumber[n])
    {
      if n in s.byNumber {
        assert BucketOk(s.headers, n, s.byNumber[n]);
      }
    }
  }

  /** The history after `header` joined it. */
  ghost function Extended(env: Env, hist: History, header: Header): History {
    hist[env.hash(header) := header]
  }

  /** `header` may join: new, one above its parent, checked against it. */
  ghost predicate Joins(env: Env, hist: History, header: Header) {
    && header in env.universe
    && env.hash(header) !in hist
    && header.parentHash in hist
    && header.number == hist[header.parentHash].number + 1
    && Validated(env, header, hist[header.parentHash])
  }

  lemma HistoryGrows(env: Env, hist: History, header: Header)
    requires SoundEnv(env) && HistoryOk(env, hist) && Joins(env, hist, header)
    ensures HistoryOk(env, Extended(env, hist, header)) && Includes(Extended(env, hist, header), hist)
    ensures forall a {:trigger Above(env, Extended(env, hist, header), a, env.hash(header))} ::
              Above(env, hist, a, header.parentHash) ==> Above(env, Extended(env, hist, header), a, env.hash(header))
  {
    var h := env.hash(header);
    var later := Extended(env, hist, header);
    AddChild(hist, Root(env), h, header);
    forall k | k in later
      ensures RecordedAt(env, later, k)
    {
      if k != h {
        assert RecordedAt(env, hist, k);
        assert LinkedAt(hist, Root(env), k);
      }
    }
    forall a | Above(env, hist, a, header.parentHash)
      ensures Above(env, later, a, h)
    {
      assert a in hist && IsAncestor(hist, Root(env), a, header.parentHash);
    }
  }

  lemma WorkGrows(env: Env, hist: History, header: Header, k: H256)
    requires SoundEnv(env) && HistoryOk(env, hist) && Joins(env, hist, header)
    requires HistoryOk(env, Extended(env, hist, header)) && Includes(Extended(env, hist, header), hist)
    requires k in hist
    ensures Work(env, Extended(env, hist, header), k) == Work(env, hist, k)
    ensures Work(env, Extended(env, hist, header), env.hash(header)) ==
            Work(env, hist, header.parentHash) + header.difficulty
  {
    var later := Extended(env, hist, header);
    TotalDifficultyStable(hist, later, Root(env), env.initialDifficulty, k);
    TotalDifficultyStable(hist, later, Root(env), env.initialDifficulty, header.parentHash);
    assert LinkedAt(later, Root(env), env.hash(header));
  }

  lemma ConfirmedStable(env: Env, hist: History, later: History, k: H256)
    requires HistoryOk(env, hist) && HistoryOk(env, later) && Includes(later, hist)
    requires Confirmed(env, hist, k)
    ensures Confirmed(env, later, k)
  {
    var b :| ConfirmedBy(env, hist, k, b);
    IsAncestorStable(hist, later, Root(env), k, b);
    assert ConfirmedBy(env, later, k, b);
  }

  lemma FlaggedStable(env: Env, c: Chain, c': Chain)
    requires HistoryOk(env, c.history) && FinalOk(env, c)
    requires HistoryOk(env, c'.history) && Includes(c'.history, c.history)
    requires c'.flagged == c.flagged && c'.store.finalized == c.store.finalized
    ensures FinalOk(env, c')
  {
    forall k | k in c'.flagged
      ensures FlaggedAt(env, c', k)
    {
      assert FlaggedAt(env, c, k);
      IsAncestorStable(c.history, c'.history, Root(env), k, c.store.finalized.hash);
      if k != Root(env) {
        ConfirmedStable(env, c.history, c'.history, k);
      }
    }
  }

  /** Storing a header that joins the history, with the work of its chain, keeps the core invariant. */
  lemma InsertKeepsCore(env: Env, c: Chain, submitter: Option<Account>, header: Header, total: U256)
    requires SoundEnv(env) && Core(env, c) && Joins(env, c.history, header)
    requires header.number > c.store.finalized.number
    requires total == Work(env, c.history, header.parentHash) + header.difficulty
    ensures Core(env, Chain(Insert(c.store, submitter, header, env.hash(header), total),
                            Extended(env, c.history, header), c.flagged))
  {
    var h := env.hash(header);
    var c' := Chain(Insert(c.store, submitter, header, h, total), Extended(env, c.history, header), c.flagged);
    HistoryGrows(env, c.history, header);
    assert h in c.store.headers ==> StoredAt(env, c, h);
    InsertIndexed(c.store, submitter, header, h, total);
    assert h in c.flagged ==> FlaggedAt(env, c, h);
    FlaggedStable(env, c, c');
    forall k | k in c'.store.headers
      ensures StoredAt(env, c', k)
    {
      InsertStores(env, c, submitter, header, total, k);
    }
    forall k | k in c'.history
      ensures RetainedAt(c', k)
    {
      if k != h {
        assert RetainedAt(c, k);
      }
    }
  }

  lemma InsertStores(env: Env, c: Chain, submitter: Option<Account>, header: Header, total: U256, k: H256)
    requires SoundEnv(env) && Core(env, c) && Joins(env, c.history, header)
    requires HistoryOk(env, Extended(env, c.history, header)) && Includes(Extended(env, c.history, header), c.history)
    requires total == Work(env, c.history, header.parentHash) + header.difficulty
    requires k in c.store.headers || k == env.hash(header)
    ensures StoredAt(env, Chain(Insert(c.store, submitter, header, env.hash(header), total),
                                Extended(env, c.history, header), c.flagged), k)
  {
    var h := env.hash(header);
    assert h in c.flagged ==> FlaggedAt(env, c, h);
    if k == h {
      WorkGrows(env, c.history, header, header.parentHash);
    } else {
      assert StoredAt(env, c, k);
      WorkGrows(env, c.history, header, k);
    }
  }

  // ----- advancing finality -----

  lemma SetFinalizedIndexed(s: Storage, id: HeaderId)
    requires Indexed(s.headers, s.byNumber) && id.hash in s.headers
    ensures Indexed(SetFinalized(s, id).headers, SetFinalized(s, id).byNumber)
  {
    var s' := SetFinalized(s, id);
    forall k | k in s'.headers
      ensures ListedAt(s'.headers, s'.byNumber, k)
    {
      assert ListedAt(s.headers, s.byNumber, k);
    }
    forall n | n in s'.byNumber
      ensures BucketOk(s'.headers, n, s'.byNumber[n])
    {
      assert BucketOk(s.headers, n, s.byNumber[n]);
    }
  }

  /** Moving finality to a confirmed descendant keeps the core invariant. */
  lemma FinalizeKeepsCore(env: Env, c: Chain, id: HeaderId)
    requires Core(env, c) && IsIdOf(c.history, id) && id.hash in c.store.headers
    requires Above(env, c.history, c.store.finalized.hash, id.hash)
    requires Confirmed(env, c.history, id.hash)
    ensures Core(env, Chain(SetFinalized(c.store, id), c.history, c.flagged + {id.hash}))
  {
    var c' := Chain(SetFinalized(c.store, id), c.history, c.flagged + {id.hash});
    SetFinalizedIndexed(c.store, id);
    forall k | k in c'.store.headers
      ensures StoredAt(env, c', k)
    {
      assert StoredAt(env, c, k);
    }
    forall k | k in c'.history
      ensures RetainedAt(c', k)
    {
      assert RetainedAt(c, k);
    }
    forall k | k in c'.flagged
      ensures FlaggedAt(env, c', k)
    {
      if k in c.flagged {
        assert FlaggedAt(env, c, k);
        AncestorTransitive(c.history, Root(env), k, c.store.finalized.hash, id.hash);
      }
    }
  }

  // ----- pruning -----

  /** Removing a prefix of one bucket, and the bucket itself when it runs empty, keeps the index exact. */
  lemma DropIndexed(headers: Headers, byNumber: Index, n: nat, count: nat)
    requires Indexed(headers, byNumber) && n in byNumber && count <= |byNumber[n]|
    ensures
      var headers' := headers - SetOf(byNumber[n][..count]);
      if count == |byNumber[n]| then Indexed(headers', byNumber - {n})
      else Indexed(headers', byNumber[n := byNumber[n][count..]])
    ensures forall k :: k in headers && headers[k].header.number != n ==> k in headers - SetOf(byNumber[n][..count])
    ensures count == |byNumber[n]| ==>
              forall k :: k in headers - SetOf(byNumber[n]) ==> headers[k].header.number != n
  {
    var bucket := byNumber[n];
    var headers' := headers - SetOf(bucket[..count]);
    var byNumber' := if count == |bucket| then byNumber - {n} else byNumber[n := bucket[count..]];
    assert BucketOk(headers, n, bucket);
    assert bucket[..count] + bucket[count..] == bucket;
    assert count == |bucket| ==> bucket[..count] == bucket;
    forall k | k in headers'
      ensures ListedAt(headers', byNumber', k)
    {
      assert ListedAt(headers, byNumber, k);
      if headers[k].header.number == n {
        assert k in bucket[count..];
      }
    }
    forall m | m in byNumber'
      ensures BucketOk(headers', m, byNumber'[m])
    {
      assert BucketOk(headers, m, byNumber[m]);
    }
    forall k | k in headers && headers[k].header.number == n && count == |bucket|
      ensures k !in headers'
    {
      assert ListedAt(headers, byNumber, k);
    }
  }

  /** What pruning does to an exact index: it stays exact, nothing beyond `next` goes, nothing below it stays. */
  lemma {:induction false} PruneFromKeeps(headers: Headers, byNumber: Index, n: nat, end: nat, budget: nat)
    requires Indexed(headers, byNumber)
    requires forall k :: k in headers ==> headers[k].header.number >= n
    ensures
      var p := PruneFrom(headers, byNumber, n, end, budget);
      && Indexed(p.headers, p.byNumber)
      && (forall k :: k in p.headers ==>
            k in headers && p.headers[k] == headers[k] && headers[k].header.number >= p.next)
      && (forall k :: k in headers && (headers[k].header.number > p.next || headers[k].header.number >= end) ==>
            k in p.headers)
    decreases end - n
  {
    if n >= end || budget == 0 {
    } else if n !in byNumber {
      forall k | k in headers
        ensures headers[k].header.number >= n + 1
      {
        assert ListedAt(headers, byNumber, k);
      }
      PruneFromKeeps(headers, byNumber, n + 1, end, budget);
    } else if |byNumber[n]| <= budget {
      DropIndexed(headers, byNumber, n, |byNumber[n]|);
      assert byNumber[n][..|byNumber[n]|] == byNumber[n];
      PruneFromFrame(headers - SetOf(byNumber[n]), byNumber - {n}, n + 1, end, budget - |byNumber[n]|);
      PruneFromKeeps(headers - SetOf(byNumber[n]), byNumber - {n}, n + 1, end, budget - |byNumber[n]|);
    } else {
      DropIndexed(headers, byNumber, n, budget);
    }
  }

  /** Pruning below the finalized block keeps the core invariant. */
  lemma PruneKeepsCore(env: Env, c: Chain, budget: nat, pruneEnd: nat)
    requires Core(env, c)
    requires pruneEnd == 0 || pruneEnd + FINALIZED_HEADERS_TO_KEEP <= c.store.finalized.number
    ensures Core(env, c.(store := Prune(c.store, budget, pruneEnd)))
  {
    var s := c.store;
    var c' := c.(store := Prune(s, budget, pruneEnd));
    var end := Max(s.toPrune.oldestBlockToKeep, pruneEnd);
    forall k | k in s.headers
      ensures s.headers[k].header.number >= s.toPrune.oldestUnprunedBlock
    {
      assert StoredAt(env, c, k);
      assert RetainedAt(c, k);
    }
    PruneFromFrame(s.headers, s.byNumber, s.toPrune.oldestUnprunedBlock, end, budget);
    PruneFromKeeps(s.headers, s.byNumber, s.toPrune.oldestUnprunedBlock, end, budget);
    forall k | k in c'.store.headers
      ensures StoredAt(env, c', k)
    {
      assert StoredAt(env, c, k);
    }
    forall k | k in c'.history
      ensures RetainedAt(c', k)
    {
      assert RetainedAt(c, k);
      if k in s.headers {
        assert StoredAt(env, c, k);
      }
    }
    forall k | k in c'.flagged
      ensures FlaggedAt(env, c', k)
    {
      assert FlaggedAt(env, c, k);
    }
  }
}
