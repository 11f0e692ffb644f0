/** Whether finality skips blocks, over all D.

  Only the new finalized block is flagged when finality advances.  As long as it advances
  by one block at a time, every block below the finalized one is flagged.  A fork that
  becomes the best chain two blocks above the last best block makes finality jump, and
  the block in between is never flagged: messages from it are never verified.
*/
module FinalityGaps {
  import opened Primitives
  import opened EthereumHeader
  import opened Ancestry
  import opened LightClient
  import opened LightClientInvariant
  import opened LightClientRuns
  import EthashProof
  import FinalityProgress
  import opened Forks
  import ReceiptProof
  import Verifier

  /** Every imported block at or below the finalized one, on its chain, is flagged. */
  ghost predicate GapFree(env: Env, c: Chain)
    requires HistoryOk(env, c.history)
  {
    forall k :: k in c.history && Above(env, c.history, k, c.store.finalized.hash) ==> k in c.flagged
  }

  /** The finalized block is D below the best one, or genesis while the best one is not yet more than D above it. */
  ghost predicate KeepsUp(env: Env, c: Chain) {
    var s, d := c.store, env.descendantsUntilFinalized;
    s.best.number == s.finalized.number + d
    || (s.finalized.hash == Root(env) && s.best.number <= s.finalized.number + d)
  }

  // ----- up to D = 5 -----

  /** A header that becomes the best block is at most one above the last best block. */
  lemma BestGrowsByOne(env: Env, c: Chain, header: Header)
    requires Inv(env, c) && env.descendantsUntilFinalized <= 5 && KeepsUp(env, c)
    requires header.parentHash in c.history && Above(env, c.history, c.store.finalized.hash, header.parentHash)
    ensures c.history[header.parentHash].number <= c.store.best.number
  {
    var f, p, b := c.store.finalized.hash, header.parentHash, c.store.best;
    if c.history[p].number > b.number {
      var x := Ancestor(c.history, Root(env), p, b.number + 1);
      AncestorSelf(env, c.history, p, b.number + 1);
      AncestorsComparable(c.history, Root(env), f, x, p);
      FinalityProgress.LongerIsHeavier(env, c.history, f, x, b.hash);
      FinalityProgress.NotLighter(env, c.history, x, p);
      assert false;
    }
  }

  /** What an acceptable header does to the best and the finalized number. */
  lemma FinalityStep(env: Env, c: Chain, call: Call)
    requires Inv(env, c) && env.descendantsUntilFinalized <= 5 && KeepsUp(env, c)
    requires call.origin.Signed? && Acceptable(env, c, call.header, call.proof)
    ensures Descending(c.store.headers) && Inv(env, Step(env, c, call))
    ensures KeepsUp(env, Step(env, c, call))
    ensures Step(env, c, call).store.finalized.number <= c.store.finalized.number + 1
    ensures Step(env, c, call).store.finalized.number == c.store.finalized.number ==>
              Step(env, c, call).store.finalized.hash == c.store.finalized.hash
  {
    hide SealChecks;
    AcceptableSteps(env, c, call);
    AcceptableMoves(env, c, call);
    BestGrowsByOne(env, c, call.header);
    Continued(env, c, call);
    var c' := Step(env, c, call);
    FinalityProgress.BestFarAboveFinalized(env, c');
    NumberFollows(env, c, call.header, call.proof);
    FinalityMoves(env, c, c', call.header);
  }

  lemma NumberFollows(env: Env, c: Chain, header: Header, proof: seq<EthashProof.DoubleNode>)
    requires Inv(env, c) && Acceptable(env, c, header, proof)
    ensures header.number == c.history[header.parentHash].number + 1
  {
    hide SealChecks;
    AcceptableIsValid(env, c, header, proof);
    hide Validate;
    AcceptedJoins(env, c, header, proof);
  }

  lemma Continued(env: Env, c: Chain, call: Call)
    requires Inv(env, c) && Offers(env, call.header, call.proof)
    ensures Descending(c.store.headers) && Continues(env, c, Step(env, c, call))
  {
    StepKeepsInv(env, c, call);
  }

  lemma FinalityMoves(env: Env, c: Chain, c': Chain, header: Header)
    requires Inv(env, c) && Inv(env, c') && KeepsUp(env, c) && Continues(env, c, c')
    requires header.parentHash in c.history && Moves(env, c, c', header)
    requires env.hash(header) in c'.history && c'.history[env.hash(header)] == header
    requires header.number == c.history[header.parentHash].number + 1 <= c.store.best.number + 1
    requires c'.store.finalized.hash == Root(env)
             || c'.store.finalized.number + env.descendantsUntilFinalized <= c'.store.best.number
    ensures KeepsUp(env, c')
    ensures c'.store.finalized.number <= c.store.finalized.number + 1
    ensures c'.store.finalized.number == c.store.finalized.number ==> c'.store.finalized.hash == c.store.finalized.hash
  {
  }

  /** If finality advances by at most one block, nothing is skipped. */
  lemma NothingSkipped(env: Env, c: Chain, c': Chain, header: Header)
    requires Inv(env, c) && Inv(env, c') && Continues(env, c, c') && GapFree(env, c)
    requires c'.history == Extended(env, c.history, header) && header.number > c.store.finalized.number
    requires c'.flagged == c.flagged + {c'.store.finalized.hash}
    requires c'.store.finalized.number <= c.store.finalized.number + 1
    ensures GapFree(env, c')
  {
    var f, f' := c.store.finalized.hash, c'.store.finalized.hash;
    forall k | k in c'.history && Above(env, c'.history, k, f')
      ensures k in c'.flagged
    {
      if k != f' {
        AncestorsComparable(c'.history, Root(env), k, f, f');
        AncestorStable(c.history, c'.history, Root(env), f, c'.history[k].number);
      }
    }
  }

  lemma StepKeepsUp(env: Env, c: Chain, call: Call)
    requires Inv(env, c) && Offers(env, call.header, call.proof) && env.descendantsUntilFinalized <= 5
    requires KeepsUp(env, c) && GapFree(env, c)
    ensures Descending(c.store.headers) && Inv(env, Step(env, c, call))
    ensures KeepsUp(env, Step(env, c, call)) && GapFree(env, Step(env, c, call))
  {
    hide SealChecks;
    StepEither(env, c, call);
    hide Step;
    hide Core;
    hide BestOk;
    hide GapFree;
    hide KeepsUp;
    if Step(env, c, call) != c {
      AcceptableSteps(env, c, call);
      FinalityStep(env, c, call);
      Continued(env, c, call);
      NothingSkipped(env, c, Step(env, c, call), call.header);
    }
  }

  lemma StartKeepsUp(env: Env)
    requires SoundEnv(env)
    ensures KeepsUp(env, Run(env, [])) && GapFree(env, Run(env, []))
  {
    GenesisInv(env);
  }

  /** With D <= 5 (the runtimes use 1 and 3), after any run the finalized block is exactly D below the best one, or
      still genesis, and every imported block below it on its chain is flagged. */
  lemma {:induction false} NoGapUpToFive(env: Env, calls: seq<Call>)
    requires SoundEnv(env) && CallsIn(env, calls) && env.descendantsUntilFinalized <= 5
    ensures KeepsUp(env, Run(env, calls)) && GapFree(env, Run(env, calls))
    decreases |calls|
  {
    hide KeepsUp;
    hide GapFree;
    hide SoundEnv;
    hide Inv;
    hide Run;
    if calls == [] {
      StartKeepsUp(env);
    } else {
      var n := |calls| - 1;
      NoGapUpToFive(env, calls[..n]);
      StepKeepsUp(env, Run(env, calls[..n]), calls[n]);
      assert calls == calls[..n] + [calls[n]];
      RunSteps(env, calls[..n], calls[n]);
    }
  }

  // ----- a skipped block stays skipped -----

  /** A call flags nothing at or below the finalized height. */
  lemma FlagsAbove(env: Env, c: Chain, call: Call, k: H256)
    requires Inv(env, c) && Offers(env, call.header, call.proof)
    requires k in c.history && c.history[k].number <= c.store.finalized.number && k !in c.flagged
    ensures Descending(c.store.headers) && k !in Step(env, c, call).flagged
  {
    hide SealChecks;
    StepEither(env, c, call);
    hide Step;
    if Step(env, c, call) != c {
      AcceptableSteps(env, c, call);
      Continued(env, c, call);
      NewFinal(env, c, Step(env, c, call), k);
    }
  }

  lemma NewFinal(env: Env, c: Chain, c': Chain, k: H256)
    requires Inv(env, c) && Inv(env, c') && Continues(env, c, c')
    requires k in c.history && c.history[k].number <= c.store.finalized.number && k !in c.flagged
    ensures k != c'.store.finalized.hash
  {
  }

  /** A block that finality has passed without flagging it is not flagged by any later call. */
  lemma {:induction false} SkippedForever(env: Env, calls: seq<Call>, m: nat, k: H256)
    requires SoundEnv(env) && CallsIn(env, calls) && m <= |calls|
    requires
      var early := Run(env, calls[..m]);
      k in early.history && early.history[k].number <= early.store.finalized.number && k !in early.flagged
    ensures
      var late := Run(env, calls);
      k in late.history && late.history[k].number <= late.store.finalized.number && k !in late.flagged
    decreases |calls|
  {
    hide Run;
    hide SoundEnv;
    if m == |calls| {
      assert calls[..m] == calls;
    } else {
      var n := |calls| - 1;
      assert calls[..n][..m] == calls[..m] && calls == calls[..n] + [calls[n]];
      SkippedForever(env, calls[..n], m, k);
      hide Inv;
      FlagsAbove(env, Run(env, calls[..n]), calls[n], k);
      Continued(env, Run(env, calls[..n]), calls[n]);
      RunSteps(env, calls[..n], calls[n]);
    }
  }

  /** No message from a skipped block is ever verified. */
  lemma SkippedNeverVerified(
    env: Env, calls: seq<Call>, m: nat, codec: ReceiptProof.Codec, message: Verifier.Message)
    requires SoundEnv(env) && CallsIn(env, calls) && m <= |calls|
    requires
      var k, early := message.proof.blockHash, Run(env, calls[..m]);
      k in early.history && early.history[k].number <= early.store.finalized.number && k !in early.flagged
    ensures Verifier.Verify(codec, Run(env, calls).store, message) in {Err(HeaderNotFinalized), Err(MissingHeader)}
  {
    hide Run;
    SkippedForever(env, calls, m, message.proof.blockHash);
    var c := Run(env, calls);
    assert message.proof.blockHash in c.store.headers ==> StoredAt(env, c, message.proof.blockHash);
  }

  // ----- from D = 6 on -----

  /** Where finality jumps, a block is skipped. */
  lemma JumpSkips(env: Env, c: Chain, c': Chain)
    requires Inv(env, c) && Inv(env, c') && Continues(env, c, c')
    requires c'.flagged == c.flagged + {c'.store.finalized.hash}
    requires c'.store.finalized.number >= c.store.finalized.number + 2
    ensures !GapFree(env, c')
  {
    var f, f' := c.store.finalized, c'.store.finalized;
    var k := Ancestor(c'.history, Root(env), f'.hash, f.number + 1);
    AncestorSelf(env, c'.history, f'.hash, f.number + 1);
    assert k in c.flagged ==> FlaggedAt(env, c, k);
    assert k !in c'.flagged;
  }

  /** The common blocks, six fast ones, and then the slow ones. */
  function GapCalls(base: nat, slow: nat, fast: nat): seq<Call>
    requires slow <= TOP && base <= fast <= TOP
    decreases slow + fast
  {
    if slow > base then GapCalls(base, slow - 1, fast) + [Import(base, slow, false)]
    else if fast > base then GapCalls(base, slow, fast - 1) + [Import(base, fast, true)]
    else if slow > 0 then GapCalls(base, slow - 1, fast) + [Import(base, slow, false)]
    else []
  }

  predicate InPlan(base: nat, slow: nat, fast: nat) {
    && base + 8 <= TOP && base <= fast <= base + 6 && slow <= base + 7
    && (fast > base ==> slow >= base) && (slow > base ==> fast == base + 6)
  }

  /** The fast blocks hold the lead, and genesis stays final. */
  function PlaceOf(base: nat, slow: nat, fast: nat): Place
    requires InPlan(base, slow, fast)
  {
    Place(slow, fast, if fast > base then fast else slow, fast > base, 0)
  }

  /** Six fast blocks outweigh seven slow ones and are outweighed by eight. */
  lemma SixAgainstSlow(base: nat, k: nat)
    requires base + 8 <= TOP && k <= 8
    ensures Total(base, base + k, false) > Total(base, base + 6, true) <==> k == 8
  {
    hide Total;
    hide Sum;
    SlowSums();
    FastSums();
    TotalIsSum(base, k, false);
    TotalIsSum(base, 6, true);
    if k <= 7 {
      SumGrows(k, 7);
    }
  }

  lemma {:induction false} SumGrows(k: nat, m: nat)
    requires k <= m <= TOP
    ensures Sum(k, false) <= Sum(m, false)
    decreases m - k
  {
    hide SlowDifficulty;
    if k < m {
      SumGrows(k, m - 1);
    }
  }

  lemma PlaceNext(base: nat, slow: nat, fast: nat, f: bool)
    requires InPlan(base, slow, fast) && InPlan(base, if f then slow else slow + 1, if f then fast + 1 else fast)
    ensures
      var p, n := PlaceOf(base, slow, fast), if f then fast + 1 else slow + 1;
      && IsPlace(base, p) && IsNext(base, p, n, f)
      && After(base, base + 6, p, n, f) == PlaceOf(base, if f then slow else n, if f then n else fast)
  {
    hide DifficultyAt;
    var n := if f then fast + 1 else slow + 1;
    TotalGrows(base, n, f);
    hide Total;
    if !f && n > base {
      SixAgainstSlow(base, n - base);
    }
  }

  lemma {:induction false} GapRunAt(env: Env, base: nat, slow: nat, fast: nat)
    requires Hosts(env, base) && env.descendantsUntilFinalized == base + 6 && InPlan(base, slow, fast)
    ensures RunsTo(env, base, GapCalls(base, slow, fast), PlaceOf(base, slow, fast))
    decreases slow + fast
  {
    hide RunsTo;
    hide Hosts;
    hide Import;
    hide PlaceOf;
    hide After;
    PlaceFinal(base, slow, fast);
    if slow == 0 && fast == base {
      RunStarts(env, base);
    } else {
      var f := slow <= base < fast;
      var slow', fast' := if f then slow else slow - 1, if f then fast - 1 else fast;
      GapRunAt(env, base, slow', fast');
      PlaceNext(base, slow', fast', f);
      RunOn(env, base, GapCalls(base, slow', fast'), PlaceOf(base, slow', fast'), if f then fast else slow, f);
    }
  }

  lemma PlaceFinal(base: nat, slow: nat, fast: nat)
    requires InPlan(base, slow, fast)
    ensures PlaceOf(base, slow, fast).final == 0
    ensures slow == 0 && fast == base ==> PlaceOf(base, slow, fast) == Begin(base)
  {
  }

  /** The eighth slow block takes the lead, two above the last best block. */
  lemma LastSlowJumps(env: Env, base: nat, c: Chain)
    requires Hosts(env, base) && env.descendantsUntilFinalized == base + 6 && base + 8 <= TOP
    requires At(env, base, c, PlaceOf(base, base + 7, base + 6))
    ensures Descending(c.store.headers) && Inv(env, Step(env, c, Import(base, base + 8, false)))
    ensures !GapFree(env, Step(env, c, Import(base, base + 8, false)))
  {
    var p, n := PlaceOf(base, base + 7, base + 6), base + 8;
    hide Hosts;
    hide At;
    NextAcceptable(env, base, c, p, n, false);
    LastSlowLeads(env, base, c, p);
    ImportIs(base, n, false);
    hide *;
    JumpsTo(env, c, Import(base, n, false));
  }

  lemma LastSlowLeads(env: Env, base: nat, c: Chain, p: Place)
    requires Hosts(env, base) && env.descendantsUntilFinalized == base + 6 && base + 8 <= TOP
    requires p == PlaceOf(base, base + 7, base + 6) && At(env, base, c, p)
    requires HistoryOk(env, c.history) && Block(base, base + 8, false).parentHash in c.history
    requires TotalUpon(env, c, Block(base, base + 8, false)) == Total(base, base + 8, false)
    ensures TotalUpon(env, c, Block(base, base + 8, false)) > c.store.bestDifficulty
    ensures c.store.finalized.number == env.genesis.number
    ensures Block(base, base + 8, false).number == env.genesis.number + env.descendantsUntilFinalized + 2
  {
    hide HostsBlock;
    hide Block;
    hide Total;
    hide TotalUpon;
    BestTotal(env, base, c, p);
    SixAgainstSlow(base, 8);
    BlockFields(base, base + 8, false);
  }

  /** A header that takes the lead D + 2 above genesis, which is still final, makes finality jump. */
  lemma JumpsTo(env: Env, c: Chain, call: Call)
    requires Inv(env, c) && call.origin.Signed? && Acceptable(env, c, call.header, call.proof)
    requires TotalUpon(env, c, call.header) > c.store.bestDifficulty
    requires c.store.finalized.number == env.genesis.number
    requires call.header.number == env.genesis.number + env.descendantsUntilFinalized + 2
    ensures Descending(c.store.headers) && Inv(env, Step(env, c, call)) && !GapFree(env, Step(env, c, call))
  {
    hide SealChecks;
    AcceptableSteps(env, c, call);
    AcceptableMoves(env, c, call);
    hide Step;
    hide Core;
    hide BestOk;
    hide TotalUpon;
    hide GapFree;
    hide SoundEnv;
    Continued(env, c, call);
    assert Step(env, c, call).store.finalized.number == env.genesis.number + 2;
    hide *;
    JumpSkips(env, c, Step(env, c, call));
  }

  /** After the calls some imported block below the finalized one, on its chain, is not flagged. */
  ghost predicate Skips(env: Env, calls: seq<Call>) {
    SoundEnv(env) && CallsIn(env, calls) && !GapFree(env, Run(env, calls))
  }

  lemma GapRun(env: Env, base: nat)
    requires Hosts(env, base) && env.descendantsUntilFinalized == base + 6 && base + 8 <= TOP
    ensures Skips(env, GapCalls(base, base + 8, base + 6))
  {
    hide Hosts;
    hide At;
    hide Run;
    hide Import;
    hide SoundEnv;
    hide GapFree;
    var before := GapCalls(base, base + 7, base + 6);
    GapRunAt(env, base, base + 7, base + 6);
    LastSlowJumps(env, base, Run(env, before));
    OneCall(env, base, before, base + 8, false);
  }

  /** For every D from 6 on there is a run, without any two headers of one hash, in which finality skips a block. */
  lemma SkipsFromSix(d: U8)
    requires d >= 6
    ensures Environment(d, d - 6).descendantsUntilFinalized == d
    ensures CollisionFreeOn(Environment(d, d - 6).hash, Environment(d, d - 6).universe)
    ensures Skips(Environment(d, d - 6), GapCalls(d - 6, d + 2, d))
  {
    hide Environment;
    hide Hosts;
    hide Skips;
    EnvironmentHosts(d, d - 6);
    EnvironmentIsSound(d, d - 6);
    GapRun(Environment(d, d - 6), d - 6);
  }

  /** Finality can skip a block, in some run of some environment, exactly if D is at least 6. */
  lemma SkipsExactlyFromSix(d: U8)
    ensures (exists env: Env, calls: seq<Call> :: env.descendantsUntilFinalized == d && Skips(env, calls)) <==> d >= 6
  {
    if d >= 6 {
      hide Skips;
      hide Environment;
      hide GapCalls;
      SkipsFromSix(d);
      var env := Environment(d, d - 6);
      assert env.descendantsUntilFinalized == d && Skips(env, GapCalls(d - 6, d + 2, d));
    } else {
      forall env: Env, calls: seq<Call> | env.descendantsUntilFinalized == d
        ensures !Skips(env, calls)
      {
        hide Run;
        hide SoundEnv;
        hide GapFree;
        if SoundEnv(env) && CallsIn(env, calls) {
          NoGapUpToFive(env, calls);
        }
      }
    }
  }
}
