/** Whole runs of the light client: any sequence of import calls from genesis, whatever each returns. */
module LightClientRuns {
  import opened Primitives
  import opened EthereumHeader
  import opened Ancestry
  import opened LightClient
  import opened LightClientInvariant
  import Difficulty
  import EthashProof

  // ----- what validation and finality return -----

  /** Validation exactly: the walk ends in `Unknown` only for a parent below the finalized height, and
      in `HeaderOnStaleFork` exactly when the finalized block is not an ancestor-or-self of the parent. */
  lemma ValidateExact(env: Env, c: Chain, header: Header, proof: seq<EthashProof.DoubleNode>)
    requires Inv(env, c)
    ensures Descending(c.store.headers)
    ensures header.parentHash in c.store.headers ==> header.parentHash in c.history
    ensures Validate(env, c.store, header, proof) ==
            if env.hash(header) in c.store.headers then Failure(DuplicateHeader)
            else if header.parentHash !in c.store.headers then Failure(MissingParentHeader)
            else if header.number <= c.store.finalized.number then Failure(AncientHeader)
            else if c.history[header.parentHash].number < c.store.finalized.number then Failure(Unknown)
            else if !Above(env, c.history, c.store.finalized.hash, header.parentHash) then Failure(HeaderOnStaleFork)
            else SealChecks(env, header, c.history[header.parentHash], proof)
  {
    hide SealChecks;
    CoreDescending(env, c);
    if header.parentHash in c.store.headers {
      assert StoredAt(env, c, header.parentHash);
      WalkFinds(env, c, header.parentHash, c.store.finalized.number);
    }
  }

  /** A header that continues its parent is never answered with `Unknown` by validation. */
  lemma ValidateNeverUnknown(env: Env, c: Chain, header: Header, proof: seq<EthashProof.DoubleNode>)
    requires Inv(env, c)
    requires header.parentHash in c.history ==> header.number == c.history[header.parentHash].number + 1
    ensures Descending(c.store.headers)
    ensures Validate(env, c.store, header, proof) != Failure(Unknown)
  {
    ValidateExact(env, c, header, proof);
  }

  /** When the finality search fails: the new best is below finalized + D, yet D above genesis. */
  lemma GetBestFinalizedExact(env: Env, c: Chain)
    requires Inv(env, c)
    ensures
      var d := env.descendantsUntilFinalized;
      var s := c.store;
      var r := GetBestFinalized(env, s.headers, s.best, s.finalized);
      if s.best.number < env.genesis.number + d then r == Ok(s.finalized)
      else if s.best.number < s.finalized.number + d then r == Err(Unknown)
      else
        var hash := Ancestor(c.history, Root(env), s.best.hash, s.best.number - d);
        && hash in s.headers
        && r == Ok(HeaderId(s.best.number - d, hash))
        && Above(env, c.history, s.finalized.hash, hash)
        && (hash != s.finalized.hash ==> ConfirmedBy(env, c.history, hash, s.best.hash))
  {
    var d := env.descendantsUntilFinalized;
    var s := c.store;
    assert RetainedAt(c, s.best.hash);
    WalkNth(env, c, s.best.hash, d);
    if s.best.number >= env.genesis.number + d {
      var hash := Ancestor(c.history, Root(env), s.best.hash, s.best.number - d);
      assert StoredAt(env, c, hash);
      AncestorSelf(env, c.history, s.best.hash, s.best.number - d);
      if s.best.number >= s.finalized.number + d {
        AncestorsComparable(c.history, Root(env), s.finalized.hash, hash, s.best.hash);
      }
    }
  }

  /** The same of any storage whatever: an ancestor above the finalized block is taken, the finalized block itself is
      kept, and any other is an error. */
  lemma FinalityFailsExactly(env: Env, headers: Headers, best: HeaderId, finalized: HeaderId, k: H256)
    requires NthAncestor(headers, best.hash, env.descendantsUntilFinalized) == Some(k)
    ensures k in headers
    ensures
      var n, r := headers[k].header.number, GetBestFinalized(env, headers, best, finalized);
      && (r == Ok(HeaderId(n, k)) <== n > finalized.number)
      && (r == Ok(finalized) <==> n <= finalized.number && k == finalized.hash)
      && (r == Err(Unknown) <==> n <= finalized.number && k != finalized.hash)
  {
    NthIsStored(headers, best.hash, env.descendantsUntilFinalized);
    hide NthAncestor;
  }

  lemma {:induction false} NthIsStored(headers: Headers, k: H256, d: nat)
    ensures NthAncestor(headers, k, d).Some? ==> NthAncestor(headers, k, d).value in headers
    decreases d
  {
    if k in headers && d > 0 {
      NthIsStored(headers, headers[k].header.parentHash, d - 1);
    }
  }

  lemma AncestorSelf(env: Env, hist: History, k: H256, n: nat)
    requires HistoryOk(env, hist) && k in hist && env.genesis.number <= n <= hist[k].number
    ensures Above(env, hist, Ancestor(hist, Root(env), k, n), k)
  {
  }

  // ----- one call -----

  /** What the observer knows after seeing the storage `s`. */
  ghost function Observe(c: Chain, s: Storage): Chain {
    Chain(s,
          c.history + (map k | k in s.headers && k !in c.history :: s.headers[k].header),
          c.flagged + (set k | k in s.headers && s.headers[k].finalized))
  }

  ghost function Step(env: Env, c: Chain, call: Call): Chain
    requires Descending(c.store.headers)
  {
    Observe(c, ImportHeader(env, c.store, call).0)
  }

  lemma ObserveSame(env: Env, c: Chain)
    requires Core(env, c)
    ensures Observe(c, c.store) == c
  {
    forall k | k in c.store.headers
      ensures k in c.history && (c.store.headers[k].finalized ==> k in c.flagged)
    {
      assert StoredAt(env, c, k);
    }
  }

  /** If the core invariant holds with the expected history and flags, those are what is observed. */
  lemma ObserveExpected(env: Env, c: Chain, c': Chain)
    requires Core(env, c')
    requires Includes(c'.history, c.history)
    requires forall k :: k in c'.history && k !in c.history ==> k in c'.store.headers
    requires c'.flagged == c.flagged + {c'.store.finalized.hash}
    ensures Observe(c, c'.store) == c'
  {
    forall k | k in c'.store.headers
      ensures && k in c'.history && c'.store.headers[k].header == c'.history[k]
              && (c'.store.headers[k].finalized <==> k in c'.flagged)
    {
      assert StoredAt(env, c', k);
    }
    assert RetainedAt(c', c'.store.finalized.hash) && c'.store.finalized.hash in c'.store.headers;
    hide Core;
    assert Observe(c, c'.store).history == c'.history;
    assert Observe(c, c'.store).flagged == c'.flagged;
  }

  /** What an accepted header brings along. */
  lemma AcceptedJoins(env: Env, c: Chain, header: Header, proof: seq<EthashProof.DoubleNode>)
    requires Inv(env, c) && Offers(env, header, proof)
    requires Descending(c.store.headers) && Validate(env, c.store, header, proof) == Success
    ensures Joins(env, c.history, header)
    ensures header.number > c.store.finalized.number
    ensures Above(env, c.history, c.store.finalized.hash, header.parentHash)
  {
    hide Validate;
    hide SealChecks;
    ValidateExact(env, c, header, proof);
    SealImplies(env, header, c.history[header.parentHash], proof);
    HashIsNew(env, c, header);
  }

  /** Headers that share a hash share the number, and a pruned one is too old to be accepted again. */
  lemma HashIsNew(env: Env, c: Chain, header: Header)
    requires Inv(env, c) && header in env.universe
    requires header.number > c.store.finalized.number && env.hash(header) !in c.store.headers
    ensures env.hash(header) !in c.history
  {
    var h := env.hash(header);
    assert h in c.history ==> RetainedAt(c, h);
    assert h in c.history ==> RecordedAt(env, c.history, h);
  }

  lemma SealImplies(env: Env, header: Header, parent: Header, proof: seq<EthashProof.DoubleNode>)
    requires proof in env.proofs && SealChecks(env, header, parent, proof) == Success
    ensures header.number == (parent.number + 1) % TWO_64 && Validated(env, header, parent)
  {
    assert BasicChecks(header, parent) == Success;
  }

  /** The expected state after `Settle`. */
  ghost function Settled(env: Env, c: Chain): Chain {
    var s := Settle(env, c.store).0;
    Chain(s, c.history, c.flagged + {s.finalized.hash})
  }

  lemma SettleKeepsInv(env: Env, c: Chain)
    requires Inv(env, c)
    ensures Inv(env, Settled(env, c))
    ensures Above(env, c.history, c.store.finalized.hash, Settled(env, c).store.finalized.hash)
    ensures Settled(env, c).store.best == c.store.best && Settled(env, c).store.bestDifficulty == c.store.bestDifficulty
    ensures c.store.toPrune.oldestUnprunedBlock <= Settled(env, c).store.toPrune.oldestUnprunedBlock
    ensures c.store.toPrune.oldestBlockToKeep <= Settled(env, c).store.toPrune.oldestBlockToKeep
    ensures Settle(env, c.store).1 == Success <==>
            !(env.genesis.number + env.descendantsUntilFinalized <= c.store.best.number
              < c.store.finalized.number + env.descendantsUntilFinalized)
  {
    GetBestFinalizedExact(env, c);
    var s := c.store;
    match GetBestFinalized(env, s.headers, s.best, s.finalized)
    case Err(e) =>
      assert c.flagged + {s.finalized.hash} == c.flagged;
    case Ok(id) =>
      var c1 := if id != s.finalized then Chain(SetFinalized(s, id), c.history, c.flagged + {id.hash}) else c;
      if id != s.finalized {
        assert ConfirmedBy(env, c.history, id.hash, s.best.hash);
        FinalizeKeepsCore(env, c, id);
      }
      var end := SaturatingSub(id.number, FINALIZED_HEADERS_TO_KEEP);
      PruneKeepsCore(env, c1, HEADERS_TO_PRUNE_IN_SINGLE_IMPORT, end);
      PruneFromFrame(c1.store.headers, c1.store.byNumber, c1.store.toPrune.oldestUnprunedBlock,
                     Max(c1.store.toPrune.oldestBlockToKeep, end), HEADERS_TO_PRUNE_IN_SINGLE_IMPORT);
      assert c1.flagged == c.flagged + {id.hash};
  }

  /** `c'` continues `c`: nothing is forgotten, finality and the best work only move up. */
  ghost predicate Continues(env: Env, c: Chain, c': Chain) {
    && HistoryOk(env, c'.history)
    && Includes(c'.history, c.history)
    && c.flagged <= c'.flagged
    && Above(env, c'.history, c.store.finalized.hash, c'.store.finalized.hash)
    && c.store.bestDifficulty <= c'.store.bestDifficulty
    && c.store.toPrune.oldestUnprunedBlock <= c'.store.toPrune.oldestUnprunedBlock
    && c.store.toPrune.oldestBlockToKeep <= c'.store.toPrune.oldestBlockToKeep
  }

  /** The state between storing the header and settling finality. */
  ghost function Recorded(env: Env, c: Chain, sender: Account, header: Header, total: U256): Chain {
    Chain(Record(env, c.store, sender, header, total), Extended(env, c.history, header), c.flagged)
  }

  lemma RecordKeepsInv(env: Env, c: Chain, sender: Account, header: Header, total: U256)
    requires Inv(env, c) && Joins(env, c.history, header)
    requires header.number > c.store.finalized.number
    requires Above(env, c.history, c.store.finalized.hash, header.parentHash)
    requires total == Work(env, c.history, header.parentHash) + header.difficulty
    ensures Inv(env, Recorded(env, c, sender, header, total))
    ensures Includes(Recorded(env, c, sender, header, total).history, c.history)
  {
    var c1 := Chain(
      Insert(c.store, Some(sender), header, env.hash(header), total), Extended(env, c.history, header), c.flagged);
    var c2 := Recorded(env, c, sender, header, total);
    InsertKeepsCore(env, c, Some(sender), header, total);
    HistoryGrows(env, c.history, header);
    CoreIgnoresBest(env, c1, c2);
    RecordKeepsBest(env, c, sender, header, total);
  }

  lemma RecordKeepsBest(env: Env, c: Chain, sender: Account, header: Header, total: U256)
    requires SoundEnv(env) && HistoryOk(env, c.history) && BestOk(env, c) && Joins(env, c.history, header)
    requires Above(env, c.history, c.store.finalized.hash, header.parentHash)
    requires total == Work(env, c.history, header.parentHash) + header.difficulty
    ensures HistoryOk(env, Extended(env, c.history, header)) && BestOk(env, Recorded(env, c, sender, header, total))
  {
    var h := env.hash(header);
    var c2 := Recorded(env, c, sender, header, total);
    HistoryGrows(env, c.history, header);
    forall k | k in c2.history
      ensures Work(env, c2.history, k) <= c2.store.bestDifficulty
    {
      WorkGrows(env, c.history, header, if k == h then header.parentHash else k);
    }
    WorkGrows(env, c.history, header, c.store.best.hash);
    IsAncestorStable(c.history, c2.history, Root(env), c.store.finalized.hash, c.store.best.hash);
  }

  lemma CoreIgnoresBest(env: Env, c: Chain, c': Chain)
    requires Core(env, c)
    requires c' == c.(store := c.store.(best := c'.store.best, bestDifficulty := c'.store.bestDifficulty))
    ensures Core(env, c')
  {
    forall k | k in c'.store.headers ensures StoredAt(env, c', k) { assert StoredAt(env, c, k); }
    forall k | k in c'.history ensures RetainedAt(c', k) { assert RetainedAt(c, k); }
    forall k | k in c'.flagged ensures FlaggedAt(env, c', k) { assert FlaggedAt(env, c, k); }
  }

  /** Settling after a new best block continues from before the block was recorded. */
  lemma SettleContinues(env: Env, c: Chain, c2: Chain, h: H256)
    requires Inv(env, c2) && Includes(c2.history, c.history)
    requires c2.store.best.hash == h
    requires c2.store.finalized == c.store.finalized && c2.store.toPrune == c.store.toPrune && c2.flagged == c.flagged
    requires c.store.bestDifficulty <= c2.store.bestDifficulty
    ensures Inv(env, Settled(env, c2)) && Continues(env, c, Settled(env, c2))
    ensures h in Settled(env, c2).store.headers
  {
    SettleKeepsInv(env, c2);
    assert RetainedAt(Settled(env, c2), h);
  }

  lemma RecordContinues(env: Env, c: Chain, c1: Chain)
    requires HistoryOk(env, c1.history) && FinalOk(env, c1) && Includes(c1.history, c.history)
    requires c1.store.finalized == c.store.finalized && c1.store.toPrune == c.store.toPrune && c1.flagged == c.flagged
    requires c.store.bestDifficulty <= c1.store.bestDifficulty
    ensures Continues(env, c, c1) && c1.flagged == c.flagged + {c1.store.finalized.hash}
  {
    AncestorSelf(env, c1.history, c.store.finalized.hash, c.store.finalized.number);
  }

  /** The state after importing an accepted header. */
  ghost function Imported(env: Env, c: Chain, sender: Account, header: Header, total: U256): Chain {
    var c2 := Recorded(env, c, sender, header, total);
    if total > c.store.bestDifficulty then Settled(env, c2) else c2
  }

  lemma ImportKeepsInv(env: Env, c: Chain, sender: Account, header: Header, total: U256)
    requires Inv(env, c) && Joins(env, c.history, header)
    requires header.number > c.store.finalized.number
    requires Above(env, c.history, c.store.finalized.hash, header.parentHash)
    requires total == Work(env, c.history, header.parentHash) + header.difficulty
    ensures
      var c' := Imported(env, c, sender, header, total);
      && Inv(env, c') && Continues(env, c, c')
      && c'.history == Extended(env, c.history, header)
      && env.hash(header) in c'.store.headers
      && c'.flagged == c.flagged + {c'.store.finalized.hash}
  {
    hide Settle;
    var c2 := Recorded(env, c, sender, header, total);
    RecordKeepsInv(env, c, sender, header, total);
    if total > c.store.bestDifficulty {
      SettleContinues(env, c, c2, env.hash(header));
    } else {
      RecordContinues(env, c, c2);
    }
  }

  /** Every call keeps the invariant, also when it fails after some of its writes. */
  lemma StepKeepsInv(env: Env, c: Chain, call: Call)
    requires Inv(env, c) && Offers(env, call.header, call.proof)
    ensures Descending(c.store.headers)
    ensures Inv(env, Step(env, c, call)) && Continues(env, c, Step(env, c, call))
  {
    CoreDescending(env, c);
    if call.origin.Unsigned? || Validate(env, c.store, call.header, call.proof) != Success
       || TotalWith(c.store, call.header).None? {
      ObserveSame(env, c);
      RecordContinues(env, c, c);
    } else {
      AcceptedJoins(env, c, call.header, call.proof);
      assert StoredAt(env, c, call.header.parentHash);
      StepAccepted(env, c, call, TotalWith(c.store, call.header).value);
    }
  }

  lemma StepAccepted(env: Env, c: Chain, call: Call, total: U256)
    requires Inv(env, c) && Joins(env, c.history, call.header)
    requires call.header.number > c.store.finalized.number
    requires Above(env, c.history, c.store.finalized.hash, call.header.parentHash)
    requires total == Work(env, c.history, call.header.parentHash) + call.header.difficulty
    requires Descending(c.store.headers) && call.origin.Signed?
    requires ImportHeader(env, c.store, call) == ImportValidated(env, c.store, call.origin.who, call.header)
    requires call.header.parentHash in c.store.headers && TotalWith(c.store, call.header) == Some(total)
    ensures Inv(env, Step(env, c, call)) && Continues(env, c, Step(env, c, call))
    ensures Step(env, c, call) == Imported(env, c, call.origin.who, call.header, total)
  {
    hide Settle;
    hide Validate;
    var c' := Imported(env, c, call.origin.who, call.header, total);
    ImportKeepsInv(env, c, call.origin.who, call.header, total);
    ObserveExpected(env, c, c');
    assert Step(env, c, call) == c';
  }

  /** What an accepted header leads to.  Beside an overflow of the total difficulty there is one failure: the header
      becomes the best block less than D above the finalized block, though D above genesis.  The header is then
      stored and the best block moved all the same, while finality and pruning stay. */
  lemma AcceptedOutcome(env: Env, c: Chain, sender: Account, header: Header, proof: seq<EthashProof.DoubleNode>)
    requires Inv(env, c) && Offers(env, header, proof)
    requires Descending(c.store.headers) && Validate(env, c.store, header, proof) == Success
    ensures header.parentHash in c.store.headers
    ensures
      var s := c.store;
      var (s', outcome) := ImportValidated(env, s, sender, header);
      var total := TotalWith(s, header);
      if total.None? then s' == s && outcome == Failure(TotalDifficultyOverflow)
      else
        var d := env.descendantsUntilFinalized;
        && env.hash(header) in s'.headers
        && outcome == (if total.value > s.bestDifficulty
                          && env.genesis.number + d <= header.number < s.finalized.number + d
                       then Failure(Unknown) else Success)
        && (outcome == Failure(Unknown) ==>
              s'.best.hash == env.hash(header) && s'.finalized == s.finalized && s'.toPrune == s.toPrune)
  {
    hide SealChecks;
    ValidateExact(env, c, header, proof);
    AcceptedJoins(env, c, header, proof);
    assert StoredAt(env, c, header.parentHash);
    var total := TotalWith(c.store, header);
    if total.Some? {
      RecordedOutcome(env, c, sender, header, total.value);
    }
  }

  lemma RecordedOutcome(env: Env, c: Chain, sender: Account, header: Header, total: U256)
    requires Inv(env, c) && Joins(env, c.history, header)
    requires header.number > c.store.finalized.number
    requires Above(env, c.history, c.store.finalized.hash, header.parentHash)
    requires total == Work(env, c.history, header.parentHash) + header.difficulty
    ensures
      var d := env.descendantsUntilFinalized;
      var s2 := Record(env, c.store, sender, header, total);
      && env.hash(header) in s2.headers
      && (total > c.store.bestDifficulty ==>
            && env.hash(header) in Settle(env, s2).0.headers
            && Settle(env, s2).1 == (if env.genesis.number + d <= header.number < c.store.finalized.number + d
                                     then Failure(Unknown) else Success)
            && (Settle(env, s2).1 == Failure(Unknown) ==> Settle(env, s2).0 == s2))
  {
    hide Settle;
    hide Core;
    hide BestOk;
    RecordKeepsInv(env, c, sender, header, total);
    SettleOutcome(env, Recorded(env, c, sender, header, total));
  }

  /** When settling fails, and that it keeps the best block. */
  lemma SettleOutcome(env: Env, c: Chain)
    requires Inv(env, c)
    ensures
      var s, d := c.store, env.descendantsUntilFinalized;
      && s.best.hash in Settle(env, s).0.headers
      && Settle(env, s).1 == (if env.genesis.number + d <= s.best.number < s.finalized.number + d
                              then Failure(Unknown) else Success)
      && (Settle(env, s).1 == Failure(Unknown) ==> Settle(env, s).0 == s)
  {
    GetBestFinalizedExact(env, c);
    SettleKeepsInv(env, c);
    BestStored(env, Settled(env, c));
    hide Inv;
    hide Prune;
  }

  lemma BestStored(env: Env, c: Chain)
    requires Inv(env, c)
    ensures c.store.best.hash in c.store.headers
  {
    assert RetainedAt(c, c.store.best.hash);
  }

  /** A new header upon a stored block at or above the finalized one that passes the checks against it. */
  ghost predicate Acceptable(env: Env, c: Chain, header: Header, proof: seq<EthashProof.DoubleNode>)
    requires HistoryOk(env, c.history)
  {
    && Offers(env, header, proof) && env.hash(header) !in c.history
    && header.parentHash in c.history && header.parentHash in c.store.headers
    && header.number > c.store.finalized.number
    && Above(env, c.history, c.store.finalized.hash, header.parentHash)
    && SealChecks(env, header, c.history[header.parentHash], proof) == Success
    && Work(env, c.history, header.parentHash) + header.difficulty < TWO_256
  }

  ghost function TotalUpon(env: Env, c: Chain, header: Header): nat
    requires HistoryOk(env, c.history) && header.parentHash in c.history
  {
    Work(env, c.history, header.parentHash) + header.difficulty
  }

  lemma AcceptableIsValid(env: Env, c: Chain, header: Header, proof: seq<EthashProof.DoubleNode>)
    requires Inv(env, c) && Acceptable(env, c, header, proof)
    ensures Descending(c.store.headers) && Validate(env, c.store, header, proof) == Success
    ensures TotalWith(c.store, header) == Some(TotalUpon(env, c, header))
  {
    hide SealChecks;
    assert env.hash(header) in c.store.headers ==> StoredAt(env, c, env.hash(header));
    assert StoredAt(env, c, header.parentHash);
    ValidateExact(env, c, header, proof);
  }

  /** Completeness of an import: every such header is imported with this outcome. */
  lemma AcceptableReturns(env: Env, c: Chain, call: Call)
    requires Inv(env, c) && call.origin.Signed? && Acceptable(env, c, call.header, call.proof)
    ensures Descending(c.store.headers)
    ensures
      var d := env.descendantsUntilFinalized;
      ImportHeader(env, c.store, call).1 ==
      if TotalUpon(env, c, call.header) > c.store.bestDifficulty
         && env.genesis.number + d <= call.header.number < c.store.finalized.number + d
      then Failure(Unknown) else Success
  {
    hide SealChecks;
    AcceptableIsValid(env, c, call.header, call.proof);
    AcceptedOutcome(env, c, call.origin.who, call.header, call.proof);
    hide Validate;
    hide ImportValidated;
    hide TotalUpon;
    hide Inv;
  }

  /** And this is what becomes of the state. */
  lemma AcceptableSteps(env: Env, c: Chain, call: Call)
    requires Inv(env, c) && call.origin.Signed? && Acceptable(env, c, call.header, call.proof)
    ensures Descending(c.store.headers)
    ensures
      var c' := Step(env, c, call);
      && c' == Imported(env, c, call.origin.who, call.header, TotalUpon(env, c, call.header))
      && c'.history == Extended(env, c.history, call.header)
      && c'.flagged == c.flagged + {c'.store.finalized.hash}
      && Inv(env, c') && Inv(env, Recorded(env, c, call.origin.who, call.header, TotalUpon(env, c, call.header)))
  {
    var header := call.header;
    AcceptableIsValid(env, c, header, call.proof);
    hide SealChecks;
    hide Validate;
    hide ImportValidated;
    AcceptedJoins(env, c, header, call.proof);
    assert ImportHeader(env, c.store, call) == ImportValidated(env, c.store, call.origin.who, header);
    hide ImportHeader;
    hide Step;
    hide Settled;
    hide Joins;
    hide Core;
    hide BestOk;
    hide Imported;
    RecordKeepsInv(env, c, call.origin.who, header, TotalUpon(env, c, header));
    ImportKeepsInv(env, c, call.origin.who, header, TotalUpon(env, c, header));
    StepAccepted(env, c, call, TotalUpon(env, c, header));
  }

  /** A call changes nothing unless its header is acceptable. */
  lemma StepEither(env: Env, c: Chain, call: Call)
    requires Inv(env, c) && Offers(env, call.header, call.proof)
    ensures Descending(c.store.headers)
    ensures Step(env, c, call) == c || (call.origin.Signed? && Acceptable(env, c, call.header, call.proof))
  {
    hide SealChecks;
    ValidateExact(env, c, call.header, call.proof);
    if call.origin.Unsigned? || Validate(env, c.store, call.header, call.proof) != Success
       || TotalWith(c.store, call.header).None? {
      ObserveSame(env, c);
    } else {
      AcceptedJoins(env, c, call.header, call.proof);
      assert StoredAt(env, c, call.header.parentHash);
    }
  }

  /** Finality after settling: D below the best block, once that is D above the finalized block and genesis. */
  lemma SettledFinality(env: Env, c: Chain)
    requires Inv(env, c)
    ensures
      var s, d := c.store, env.descendantsUntilFinalized;
      && Settled(env, c).store.best == s.best
      && Settled(env, c).store.finalized ==
         if s.best.number >= env.genesis.number + d && s.best.number >= s.finalized.number + d
         then HeaderId(s.best.number - d, Ancestor(c.history, Root(env), s.best.hash, s.best.number - d))
         else s.finalized
  {
    GetBestFinalizedExact(env, c);
  }

  /** `c'` has the best and the finalized block that follow when `header` joins the history of `c`. */
  ghost predicate Moves(env: Env, c: Chain, c': Chain, header: Header)
    requires HistoryOk(env, c.history) && header.parentHash in c.history && HistoryOk(env, c'.history)
  {
    var s, s', d, h := c.store, c'.store, env.descendantsUntilFinalized, env.hash(header);
    if TotalUpon(env, c, header) > s.bestDifficulty then
      && s'.best == HeaderId(header.number, h)
      && s'.finalized ==
         if header.number >= env.genesis.number + d && header.number >= s.finalized.number + d
            && h in c'.history && c'.history[h] == header
         then HeaderId(header.number - d, Ancestor(c'.history, Root(env), h, header.number - d))
         else s.finalized
    else s'.best == s.best && s'.finalized == s.finalized
  }

  lemma ImportedMoves(env: Env, c: Chain, sender: Account, header: Header)
    requires HistoryOk(env, c.history) && header.parentHash in c.history && TotalUpon(env, c, header) < TWO_256
    requires Inv(env, Recorded(env, c, sender, header, TotalUpon(env, c, header)))
    ensures HistoryOk(env, Imported(env, c, sender, header, TotalUpon(env, c, header)).history)
    ensures Moves(env, c, Imported(env, c, sender, header, TotalUpon(env, c, header)), header)
  {
    var total := TotalUpon(env, c, header);
    var c2 := Recorded(env, c, sender, header, total);
    hide Settle;
    hide Core;
    hide BestOk;
    RecordedIs(env, c, sender, header, total);
    RecordedHistory(env, c2);
    hide Recorded;
    hide HistoryOk;
    hide TotalUpon;
    if total > c.store.bestDifficulty {
      SettledFinality(env, c2);
      hide Settled;
    }
  }

  lemma RecordedIs(env: Env, c: Chain, sender: Account, header: Header, total: U256)
    ensures
      var c2 := Recorded(env, c, sender, header, total);
      && c2.history == Extended(env, c.history, header)
      && env.hash(header) in c2.history && c2.history[env.hash(header)] == header
      && c2.store.finalized == c.store.finalized
      && c2.store.best ==
         if total > c.store.bestDifficulty then HeaderId(header.number, env.hash(header)) else c.store.best
  {
  }

  lemma RecordedHistory(env: Env, c: Chain)
    requires Inv(env, c)
    ensures HistoryOk(env, c.history)
  {
  }

  lemma AcceptableMoves(env: Env, c: Chain, call: Call)
    requires Inv(env, c) && call.origin.Signed? && Acceptable(env, c, call.header, call.proof)
    ensures Descending(c.store.headers)
    ensures Inv(env, Step(env, c, call)) && Moves(env, c, Step(env, c, call), call.header)
  {
    AcceptableSteps(env, c, call);
    assert && HistoryOk(env, c.history) && call.header.parentHash in c.history
           && TotalUpon(env, c, call.header) < TWO_256 by {
      hide SealChecks;
    }
    hide *;
    ImportedMoves(env, c, call.origin.who, call.header);
  }

  // ----- runs -----

  lemma GenesisInv(env: Env)
    requires SoundEnv(env)
    ensures Inv(env, Start(env))
    ensures
      var s, root := Start(env).store, Root(env);
      && s.headers == map[root := StoredHeader(None, env.genesis, env.initialDifficulty, true)]
      && s.best == s.finalized == HeaderId(env.genesis.number, root)
  {
    var c := Start(env);
    var root := Root(env);
    assert LinkedAt(c.history, root, root);
    assert RecordedAt(env, c.history, root);
    assert StoredAt(env, c, root);
    assert RetainedAt(c, root);
    assert ListedAt(c.store.headers, c.store.byNumber, root);
    assert FlaggedAt(env, c, root);
  }

  ghost function Start(env: Env): Chain {
    Chain(Genesis(env), map[Root(env) := env.genesis], {Root(env)})
  }

  ghost predicate CallsIn(env: Env, calls: seq<Call>) {
    forall i :: 0 <= i < |calls| ==> Offers(env, calls[i].header, calls[i].proof)
  }

  /** The state after the calls, in order, from genesis. */
  ghost function Run(env: Env, calls: seq<Call>): (c: Chain)
    requires SoundEnv(env) && CallsIn(env, calls)
    ensures Inv(env, c)
  {
    GenesisInv(env);
    if calls == [] then Start(env)
    else
      var n := |calls| - 1;
      var before := Run(env, calls[..n]);
      StepKeepsInv(env, before, calls[n]);
      Step(env, before, calls[n])
  }

  /** One call more. */
  lemma RunSteps(env: Env, before: seq<Call>, call: Call)
    requires SoundEnv(env) && CallsIn(env, before) && Offers(env, call.header, call.proof)
    ensures CallsIn(env, before + [call])
    ensures Descending(Run(env, before).store.headers)
    ensures Run(env, before + [call]) == Step(env, Run(env, before), call)
  {
    var calls := before + [call];
    CoreDescending(env, Run(env, before));
    hide Step;
    hide Core;
    hide BestOk;
    assert calls[..|calls| - 1] == before;
  }

  lemma ContinuesTransitive(env: Env, a: Chain, b: Chain, c: Chain)
    requires Continues(env, a, b) && Continues(env, b, c)
    ensures Continues(env, a, c)
  {
    IsAncestorStable(b.history, c.history, Root(env), a.store.finalized.hash, b.store.finalized.hash);
    AncestorTransitive(c.history, Root(env), a.store.finalized.hash, b.store.finalized.hash, c.store.finalized.hash);
  }

  lemma {:induction false} RunContinues(env: Env, calls: seq<Call>, m: nat)
    requires SoundEnv(env) && CallsIn(env, calls) && m <= |calls|
    ensures Continues(env, Run(env, calls[..m]), Run(env, calls))
    decreases |calls|
  {
    hide Run;
    hide Inv;
    hide SoundEnv;
    hide Continues;
    if m == |calls| {
      assert calls[..m] == calls;
      ContinuesSelf(env, Run(env, calls));
    } else {
      var n := |calls| - 1;
      assert calls[..n][..m] == calls[..m];
      RunContinues(env, calls[..n], m);
      RunStepContinues(env, calls);
      ContinuesTransitive(env, Run(env, calls[..m]), Run(env, calls[..n]), Run(env, calls));
    }
  }

  lemma ContinuesSelf(env: Env, c: Chain)
    requires Inv(env, c)
    ensures Continues(env, c, c)
  {
    RecordContinues(env, c, c);
  }

  lemma RunStepContinues(env: Env, calls: seq<Call>)
    requires SoundEnv(env) && CallsIn(env, calls) && calls != []
    ensures Continues(env, Run(env, calls[..|calls| - 1]), Run(env, calls))
  {
    var n := |calls| - 1;
    StepKeepsInv(env, Run(env, calls[..n]), calls[n]);
  }

  // ----- what every run guarantees -----

  /** All headers ever flagged lie on one chain, at most one per height, and each but genesis has an imported
      descendant D generations above it. */
  ghost predicate OneFinalChain(env: Env, c: Chain)
    requires HistoryOk(env, c.history)
  {
    && (forall a, b :: a in c.flagged && b in c.flagged ==>
          && a in c.history && b in c.history
          && (c.history[a].number <= c.history[b].number ==> Above(env, c.history, a, b))
          && (c.history[a].number == c.history[b].number ==> a == b))
    && (forall a :: a in c.flagged && a != Root(env) ==> Confirmed(env, c.history, a))
  }

  lemma FlaggedOnOneChain(env: Env, c: Chain)
    requires Inv(env, c)
    ensures OneFinalChain(env, c)
  {
    forall a, b | a in c.flagged && b in c.flagged
      ensures && a in c.history && b in c.history
              && (c.history[a].number <= c.history[b].number ==> Above(env, c.history, a, b))
              && (c.history[a].number == c.history[b].number ==> a == b)
    {
      assert FlaggedAt(env, c, a) && FlaggedAt(env, c, b);
      if c.history[a].number <= c.history[b].number {
        AncestorsComparable(c.history, Root(env), a, b, c.store.finalized.hash);
      }
    }
    forall a | a in c.flagged && a != Root(env)
      ensures Confirmed(env, c.history, a)
    {
      assert FlaggedAt(env, c, a);
    }
  }

  /** Finality safety: between any two points of any run the finalized number never drops, the later finalized
      block descends from the earlier, and what was flagged stays on one chain. */
  lemma FinalitySafety(env: Env, calls: seq<Call>, m: nat)
    requires SoundEnv(env) && CallsIn(env, calls) && m <= |calls|
    ensures
      var early := Run(env, calls[..m]);
      var late := Run(env, calls);
      && early.store.finalized.number <= late.store.finalized.number
      && Above(env, late.history, early.store.finalized.hash, late.store.finalized.hash)
      && early.flagged <= late.flagged
      && OneFinalChain(env, late)
  {
    hide Run;
    RunContinues(env, calls, m);
    FlaggedOnOneChain(env, Run(env, calls));
  }

  /** Each stored total difficulty is the initial difficulty plus the difficulties along its chain; the best block
      has the most of all headers ever imported, descends from the finalized block, and has no child. */
  ghost predicate HeaviestIsBest(env: Env, c: Chain)
    requires HistoryOk(env, c.history)
  {
    var s := c.store;
    && (forall k :: k in s.headers ==> k in c.history && s.headers[k].totalDifficulty == Work(env, c.history, k))
    && s.best.hash in s.headers && s.headers[s.best.hash].totalDifficulty == s.bestDifficulty
    && (forall k :: k in c.history ==> Work(env, c.history, k) <= s.bestDifficulty)
    && Above(env, c.history, s.finalized.hash, s.best.hash)
    && (forall k :: k in c.history ==> c.history[k].parentHash != s.best.hash)
  }

  lemma BestIsHeaviest(env: Env, c: Chain)
    requires Inv(env, c)
    ensures HeaviestIsBest(env, c)
  {
    var s := c.store;
    forall k | k in s.headers
      ensures k in c.history && s.headers[k].totalDifficulty == Work(env, c.history, k)
    {
      assert StoredAt(env, c, k);
    }
    assert RetainedAt(c, s.best.hash);
    forall k | k in c.history
      ensures c.history[k].parentHash != s.best.hash
    {
      assert LinkedAt(c.history, Root(env), k);
      if k != Root(env) {
        PositiveDifficulty(env, c.history, k);
        assert Work(env, c.history, k) == Work(env, c.history, c.history[k].parentHash) + c.history[k].difficulty;
      }
    }
  }

  lemma PositiveDifficulty(env: Env, hist: History, k: H256)
    requires HistoryOk(env, hist) && k in hist && k != Root(env)
    ensures hist[k].difficulty >= Difficulty.MINIMUM_DIFFICULTY
  {
    assert LinkedAt(hist, Root(env), k) && RecordedAt(env, hist, k);
    var parent := hist[hist[k].parentHash];
    var proof :| proof in env.proofs && SealChecks(env, hist[k], parent, proof) == Success;
    Difficulty.CalcDifficultyRate(env.difficultyConfig, hist[k].timestamp, parent);
  }

  lemma BestChain(env: Env, calls: seq<Call>)
    requires SoundEnv(env) && CallsIn(env, calls)
    ensures HeaviestIsBest(env, Run(env, calls))
  {
    hide Run;
    BestIsHeaviest(env, Run(env, calls));
  }

  /** The keep bound is 50000 below the finalized block, or genesis; the index lists exactly the stored hashes, once
      each, at their numbers; every imported header at or above the keep bound, or above the unpruned bound, is stored
      and every one below the unpruned bound is gone, so that the stored parent links have no gap above the boundary. */
  ghost predicate KeepsExactly(env: Env, c: Chain) {
    var s := c.store;
    && s.toPrune.oldestUnprunedBlock <= s.toPrune.oldestBlockToKeep <= s.finalized.number
    && s.toPrune.oldestBlockToKeep == Max(env.genesis.number, SaturatingSub(s.finalized.number, 50000))
    && (forall k :: k in s.headers ==>
          s.headers[k].header.number in s.byNumber && k in s.byNumber[s.headers[k].header.number])
    && (forall n, i :: n in s.byNumber && 0 <= i < |s.byNumber[n]| ==>
          && s.byNumber[n][i] in s.headers && s.headers[s.byNumber[n][i]].header.number == n
          && (forall j :: 0 <= j < i ==> s.byNumber[n][j] != s.byNumber[n][i]))
    && (forall k :: k in c.history && c.history[k].number >= s.toPrune.oldestBlockToKeep ==> k in s.headers)
    && (forall k :: k in c.history && c.history[k].number > s.toPrune.oldestUnprunedBlock ==> k in s.headers)
    && (forall k :: k in c.history && c.history[k].number < s.toPrune.oldestUnprunedBlock ==> k !in s.headers)
    && (forall k :: k in s.headers && k != Root(env) && s.headers[k].header.number > s.toPrune.oldestBlockToKeep ==>
          s.headers[k].header.parentHash in s.headers)
  }

  lemma InvKeepsExactly(env: Env, c: Chain)
    requires Inv(env, c)
    ensures KeepsExactly(env, c)
  {
    var s := c.store;
    forall k | k in c.history
      ensures c.history[k].number >= s.toPrune.oldestBlockToKeep ==> k in s.headers
      ensures c.history[k].number > s.toPrune.oldestUnprunedBlock ==> k in s.headers
      ensures c.history[k].number < s.toPrune.oldestUnprunedBlock ==> k !in s.headers
    {
      assert RetainedAt(c, k);
    }
    forall k | k in s.headers
      ensures s.headers[k].header.number in s.byNumber && k in s.byNumber[s.headers[k].header.number]
      ensures k != Root(env) && s.headers[k].header.number > s.toPrune.oldestBlockToKeep ==>
                s.headers[k].header.parentHash in s.headers
    {
      assert ListedAt(s.headers, s.byNumber, k) && StoredAt(env, c, k) && LinkedAt(c.history, Root(env), k);
    }
    forall n, i | n in s.byNumber && 0 <= i < |s.byNumber[n]|
      ensures && s.byNumber[n][i] in s.headers && s.headers[s.byNumber[n][i]].header.number == n
              && (forall j :: 0 <= j < i ==> s.byNumber[n][j] != s.byNumber[n][i])
    {
      assert BucketOk(s.headers, n, s.byNumber[n]);
    }
  }

  lemma Retention(env: Env, calls: seq<Call>)
    requires SoundEnv(env) && CallsIn(env, calls)
    ensures KeepsExactly(env, Run(env, calls))
  {
    hide Run;
    InvKeepsExactly(env, Run(env, calls));
  }

  /** A hash that was pruned never re-enters: offering any header with that hash fails and changes nothing. */
  lemma NoReentry(env: Env, c: Chain, call: Call)
    requires Inv(env, c) && call.header in env.universe
    requires env.hash(call.header) in c.history && env.hash(call.header) !in c.store.headers
    ensures Descending(c.store.headers)
    ensures ImportHeader(env, c.store, call).0 == c.store
    ensures ImportHeader(env, c.store, call).1 in
              {Failure(BadOrigin), Failure(MissingParentHeader), Failure(AncientHeader)}
  {
    hide SealChecks;
    var h := env.hash(call.header);
    ValidateExact(env, c, call.header, call.proof);
    assert RecordedAt(env, c.history, h) && RetainedAt(c, h);
  }

  /** What every imported header but genesis satisfies against its parent: the difficulty of the formula, a gas limit
      that moves by less than a 1024th and stays at 5000 or more, gas used within it, a later timestamp. */
  lemma HistoryRules(env: Env, c: Chain, k: H256)
    requires Inv(env, c) && k in c.history && k != Root(env)
    ensures c.history[k].parentHash in c.history
    ensures
      var header := c.history[k];
      var parent := c.history[header.parentHash];
      && header.number == parent.number + 1
      && header.timestamp > parent.timestamp
      && |header.extraData| <= 32
      && header.gasUsed <= header.gasLimit && header.gasLimit >= 5000
      && -(parent.gasLimit as int) < 1024 * (header.gasLimit - parent.gasLimit) < parent.gasLimit
      && var delay := Difficulty.BombDelay(env.difficultyConfig, header.number);
         delay.Some? && header.difficulty == Difficulty.BlockDifficulty(
           header.number, delay.value, parent.difficulty, HasOmmers(parent), header.timestamp - parent.timestamp)
  {
    assert LinkedAt(c.history, Root(env), k) && RecordedAt(env, c.history, k);
    var header := c.history[k];
    var parent := c.history[header.parentHash];
    var proof :| proof in env.proofs && SealChecks(env, header, parent, proof) == Success;
    hide PowCheck;
    hide Difficulty.CalcDifficulty;
    hide Difficulty.BlockDifficulty;
    assert BasicChecks(header, parent) == Success && DifficultyCheck(env, header, parent) == Success;
    Difficulty.CalcDifficultyIs(env.difficultyConfig, header.timestamp, parent);
  }

  /** Time runs along the chain: a proper ancestor has an earlier timestamp. */
  lemma {:induction false} TimestampsIncrease(env: Env, c: Chain, a: H256, k: H256)
    requires Inv(env, c) && Above(env, c.history, a, k) && a != k
    ensures c.history[a].timestamp < c.history[k].timestamp
    decreases c.history[k].number
  {
    HistoryRules(env, c, k);
    if c.history[k].parentHash != a {
      TimestampsIncrease(env, c, a, c.history[k].parentHash);
    }
  }
}
