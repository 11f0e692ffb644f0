/** The pallet with its five storage items as mutable state.  Each method does its reads and writes in
  the order of the code and is proved against the functions of `LightClient`; the object keeps the
  invariant of `LightClientInvariant` over everything it ever stored. */
module Pallet {
  import opened Primitives
  import opened EthereumHeader
  import opened Ancestry
  import opened LightClient
  import opened LightClientInvariant
  import opened LightClientRuns
  import EthashProof

  class EthereumLightClient {
    const env: Env

    var best: HeaderId
    var bestDifficulty: U256
    var toPrune: PruningRange
    var finalized: HeaderId
    var headers: Headers
    var byNumber: Index

    ghost var history: History
    ghost var flagged: set<H256>

    ghost function Snapshot(): Storage
      reads this
    {
      Storage(best, bestDifficulty, toPrune, finalized, headers, byNumber)
    }

    ghost function State(): Chain
      reads this
    {
      Chain(Snapshot(), history, flagged)
    }

    ghost predicate Valid()
      reads this
    {
      Inv(env, State())
    }

    /** The genesis build: `initialize_storage` with one header and no descendants required. */
    constructor (env: Env)
      requires SoundEnv(env)
      ensures this.env == env && State() == Start(env) && Valid()
    {
      this.env := env;
      var header := env.genesis;
      var hash := env.hash(header);
      var id := HeaderId(header.number, hash);
      var stored := map[hash := StoredHeader(None, header, env.initialDifficulty, false)];
      this.byNumber := map[header.number := [hash]];
      this.best, this.bestDifficulty := id, env.initialDifficulty;
      this.finalized := id;
      var next := hash;
      while next in stored
        invariant next == hash || next == header.parentHash
        invariant hash !in stored || stored[hash].header == header
        invariant stored == map[hash := StoredHeader(None, header, env.initialDifficulty, next != hash)]
        decreases next == hash
      {
        stored := stored[next := stored[next].(finalized := true)];
        next := stored[next].header.parentHash;
      }
      this.headers := stored;
      this.toPrune := PruningRange(header.number, header.number);
      this.history, this.flagged := map[hash := header], {hash};
      new;
      GenesisInv(env);
    }

    // ----- reads -----

    /** `ancestry(hash).find(number == n)` */
    method FindAncestorAt(hash: H256, n: nat) returns (found: Option<H256>)
      requires Descending(headers)
      ensures found == FindAtNumber(headers, hash, n)
    {
      var current := hash;
      while current in headers
        invariant FindAtNumber(headers, current, n) == FindAtNumber(headers, hash, n)
        decreases if current in headers then headers[current].header.number + 1 else 0
      {
        assert StepsDown(headers, current);
        if headers[current].header.number == n {
          return Some(current);
        }
        current := headers[current].header.parentHash;
      }
      found := None;
    }

    /** `ancestry(hash).enumerate().find_map(i >= d)` */
    method FindNthAncestor(hash: H256, d: nat) returns (found: Option<H256>)
      ensures found == NthAncestor(headers, hash, d)
    {
      var current, i := hash, 0;
      while current in headers
        invariant i <= d && NthAncestor(headers, current, d - i) == NthAncestor(headers, hash, d)
        decreases d - i
      {
        if i >= d {
          return Some(current);
        }
        current, i := headers[current].header.parentHash, i + 1;
      }
      found := None;
    }

    method ValidateHeaderToImport(header: Header, proof: seq<EthashProof.DoubleNode>) returns (outcome: Outcome)
      requires Descending(headers)
      ensures outcome == Validate(env, Snapshot(), header, proof)
    {
      if env.hash(header) in headers {
        return Failure(DuplicateHeader);
      }
      if header.parentHash !in headers {
        return Failure(MissingParentHeader);
      }
      if header.number <= finalized.number {
        return Failure(AncientHeader);
      }
      var ancestor := FindAncestorAt(header.parentHash, finalized.number);
      if ancestor.None? {
        return Failure(Unknown);
      }
      if ancestor.value != finalized.hash {
        return Failure(HeaderOnStaleFork);
      }
      outcome := SealChecks(env, header, headers[header.parentHash].header, proof);
    }

    method GetBestFinalizedHeader(bestId: HeaderId, finalizedId: HeaderId) returns (result: Result<HeaderId, Error>)
      ensures result == GetBestFinalized(env, headers, bestId, finalizedId)
    {
      var ancestor := FindNthAncestor(bestId.hash, env.descendantsUntilFinalized);
      if ancestor.None? {
        return Ok(finalizedId);
      }
      if ancestor.value in headers && headers[ancestor.value].header.number > finalizedId.number {
        return Ok(HeaderId(headers[ancestor.value].header.number, ancestor.value));
      }
      if ancestor.value != finalizedId.hash {
        return Err(Unknown);
      }
      result := Ok(finalizedId);
    }

    // ----- writes -----

    method PruneHeaderRange(range: PruningRange, maxHeadersToPrune: nat, pruneEnd: nat)
      returns (newRange: PruningRange)
      modifies this`headers, this`byNumber
      ensures
        var end := Max(range.oldestBlockToKeep, pruneEnd);
        var pruned := PruneFrom(old(headers), old(byNumber), range.oldestUnprunedBlock, end, maxHeadersToPrune);
        headers == pruned.headers && byNumber == pruned.byNumber && newRange == PruningRange(pruned.next, end)
    {
      newRange := range;
      if pruneEnd > newRange.oldestBlockToKeep {
        newRange := newRange.(oldestBlockToKeep := pruneEnd);
      }
      var start, end := newRange.oldestUnprunedBlock, newRange.oldestBlockToKeep;
      ghost var goal := PruneFrom(headers, byNumber, start, end, maxHeadersToPrune);
      var blocksPruned, number := 0, start;
      while number < end
        invariant blocksPruned <= maxHeadersToPrune
        invariant newRange.oldestBlockToKeep == end
        invariant goal ==
                  PruneFrom(headers, byNumber, newRange.oldestUnprunedBlock, end, maxHeadersToPrune - blocksPruned)
        invariant newRange.oldestUnprunedBlock == number || blocksPruned == maxHeadersToPrune
      {
        if blocksPruned == maxHeadersToPrune {
          break;
        }
        if number in byNumber {
          var hashes := byNumber[number];
          assert (byNumber - {number})[number := hashes] == byNumber;
          byNumber := byNumber - {number};
          var count := RemoveHeaders(hashes, maxHeadersToPrune - blocksPruned);
          blocksPruned := blocksPruned + count;
          assert hashes[..|hashes|] == hashes;
          if |hashes| - count > 0 {
            byNumber := byNumber[number := hashes[count..]];
          } else {
            newRange := newRange.(oldestUnprunedBlock := number + 1);
          }
        } else {
          newRange := newRange.(oldestUnprunedBlock := number + 1);
        }
        number := number + 1;
      }
    }

    /** The inner loop: removes the listed headers until the budget is spent. */
    method RemoveHeaders(hashes: seq<H256>, budget: nat) returns (count: nat)
      requires budget > 0
      modifies this`headers
      ensures count == Min(budget, |hashes|)
      ensures headers == old(headers) - SetOf(hashes[..count])
    {
      count := 0;
      assert hashes[..0] == [];
      while count < |hashes|
        invariant count <= |hashes| && count < budget
        invariant headers == old(headers) - SetOf(hashes[..count])
      {
        headers := headers - {hashes[count]};
        assert hashes[..count + 1] == hashes[..count] + [hashes[count]];
        count := count + 1;
        if count == budget {
          break;
        }
      }
    }

    method ImportValidatedHeader(sender: Account, header: Header) returns (outcome: Outcome)
      modifies this`best, this`bestDifficulty, this`toPrune, this`finalized, this`headers, this`byNumber
      ensures (Snapshot(), outcome) == ImportValidated(env, old(Snapshot()), sender, header)
    {
      var hash := env.hash(header);
      if header.parentHash !in headers {
        return Failure(MissingParentHeader);
      }
      if headers[header.parentHash].totalDifficulty + header.difficulty >= TWO_256 {
        return Failure(TotalDifficultyOverflow);
      }
      var totalDifficulty: U256 := headers[header.parentHash].totalDifficulty + header.difficulty;
      headers := headers[hash := StoredHeader(Some(sender), header, totalDifficulty, false)];
      if header.number in byNumber {
        byNumber := byNumber[header.number := byNumber[header.number] + [hash]];
      } else {
        byNumber := byNumber[header.number := [hash]];
      }
      if totalDifficulty > bestDifficulty {
        best, bestDifficulty := HeaderId(header.number, hash), totalDifficulty;
        assert Snapshot() == Record(env, old(Snapshot()), sender, header, totalDifficulty);
        outcome := SettleFinality();
      } else {
        assert Snapshot() == Record(env, old(Snapshot()), sender, header, totalDifficulty);
        outcome := Success;
      }
    }

    /** The part of `import_validated_header` that follows a new best block. */
    method SettleFinality() returns (outcome: Outcome)
      modifies this`toPrune, this`finalized, this`headers, this`byNumber
      ensures (Snapshot(), outcome) == Settle(env, old(Snapshot()))
    {
      var newFinalized := GetBestFinalizedHeader(best, finalized);
      if newFinalized.Err? {
        return Failure(newFinalized.error);
      }
      var id := newFinalized.value;
      if id != finalized {
        finalized := id;
        if id.hash !in headers {
          return Failure(Unknown);
        }
        headers := headers[id.hash := headers[id.hash].(finalized := true)];
      }
      var range := PruneHeaderRange(
        toPrune, HEADERS_TO_PRUNE_IN_SINGLE_IMPORT, SaturatingSub(id.number, FINALIZED_HEADERS_TO_KEEP));
      if range != toPrune {
        toPrune := range;
      }
      outcome := Success;
    }

    /** The extrinsic.  Whatever it returns, the object invariant is kept and finality only moves forward. */
    method Import(call: Call) returns (outcome: Outcome)
      requires Valid() && Offers(env, call.header, call.proof)
      modifies this
      ensures Valid()
      ensures Descending(old(headers)) && State() == Step(env, old(State()), call)
      ensures outcome == ImportHeader(env, old(Snapshot()), call).1
      ensures Continues(env, old(State()), State())
    {
      StepKeepsInv(env, State(), call);
      ghost var before := State();
      if call.origin.Unsigned? {
        outcome := Failure(BadOrigin);
      } else {
        outcome := ValidateHeaderToImport(call.header, call.proof);
        if outcome == Success {
          outcome := ImportValidatedHeader(call.origin.who, call.header);
        }
      }
      history, flagged := Observe(before, Snapshot()).history, Observe(before, Snapshot()).flagged;
    }
  }
}
