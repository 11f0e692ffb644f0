/** When an import can be answered with `Unknown`, over all D.

  For every D from 7 on there is a run in which the finality search fails: after block 1,
  D slow blocks make it final, and D - 1 fast blocks upon it outweigh them, while they
  are not yet D blocks above it.
*/
module ShortFork {
  import opened Primitives
  import opened EthereumHeader
  import opened Ancestry
  import opened LightClient
  import opened LightClientInvariant
  import opened LightClientRuns
  import FinalityProgress
  import opened Forks
  import EthashProof

  /** The height of the fork. */
  const FORK: nat := 1

  lemma SixOutweighSeven()
    ensures Total(FORK, 7, true) > Total(FORK, 8, false)
  {
    hide Total;
    hide Sum;
    SlowSums();
    FastSums();
    TotalIsSum(FORK, 6, true);
    TotalIsSum(FORK, 7, false);
  }

  /** From height 7 on, the fast blocks outweigh the slow ones of one height more. */
  lemma {:induction false} FastIsHeavier(n: nat)
    requires 7 <= n < TOP
    ensures Total(FORK, n, true) > Total(FORK, n + 1, false)
  {
    hide SlowDifficulty;
    hide FastDifficulty;
    if n == 7 {
      SixOutweighSeven();
    } else {
      FastIsHeavier(n - 1);
    }
  }

  // ----- the run -----

  /** The slow blocks in order, then the fast ones in order. */
  function Calls(slow: nat, fast: nat): seq<Call>
    requires slow <= TOP && FORK <= fast <= TOP
    decreases slow + fast
  {
    if fast > FORK then Calls(slow, fast - 1) + [Import(FORK, fast, true)]
    else if slow > 0 then Calls(slow - 1, FORK) + [Import(FORK, slow, false)]
    else []
  }

  /** First the slow blocks come, up to one more than D, then the fast ones. */
  predicate InPlan(d: nat, slow: nat, fast: nat) {
    && d < 256 && slow <= d + 1 && FORK <= fast
    && (fast > FORK ==> slow == d + 1 && fast < d)
  }

  /** The fast blocks lead: the last one outweighs the last slow one. */
  predicate FastLeads(slow: nat, fast: nat)
    requires slow <= TOP && FORK <= fast <= TOP
  {
    fast > FORK && Total(FORK, fast, true) > Total(FORK, slow, false)
  }

  /** Where the plan has come: block 1 is final once it has D slow blocks above it. */
  function PlaceOf(d: nat, slow: nat, fast: nat): Place
    requires InPlan(d, slow, fast)
  {
    var leads := FastLeads(slow, fast);
    Place(slow, fast, if leads then fast else slow, leads, if slow == d + 1 then 1 else 0)
  }

  lemma PlaceNext(d: nat, slow: nat, fast: nat, f: bool)
    requires InPlan(d, slow, fast) && InPlan(d, if f then slow else slow + 1, if f then fast + 1 else fast)
    requires if f then slow == d + 1 else fast == FORK
    ensures
      var p, n := PlaceOf(d, slow, fast), if f then fast + 1 else slow + 1;
      && IsPlace(FORK, p) && IsNext(FORK, p, n, f)
      && After(FORK, d, p, n, f) == PlaceOf(d, if f then slow else n, if f then n else fast)
  {
    hide DifficultyAt;
    var n := if f then fast + 1 else slow + 1;
    TotalGrows(FORK, n, f);
    hide Total;
  }

  lemma {:induction false} RunAt(env: Env, slow: nat, fast: nat)
    requires Hosts(env, FORK) && InPlan(env.descendantsUntilFinalized, slow, fast)
    ensures RunsTo(env, FORK, Calls(slow, fast), PlaceOf(env.descendantsUntilFinalized, slow, fast))
    decreases slow + fast
  {
    hide RunsTo;
    hide Hosts;
    hide PlaceOf;
    var d := env.descendantsUntilFinalized;
    if fast > FORK {
      RunAt(env, slow, fast - 1);
      PlaceNext(d, slow, fast - 1, true);
      RunOn(env, FORK, Calls(slow, fast - 1), PlaceOf(d, slow, fast - 1), fast, true);
      FinalLow(d, slow, fast);
    } else if slow > 0 {
      RunAt(env, slow - 1, FORK);
      PlaceNext(d, slow - 1, FORK, false);
      FinalLow(d, slow, fast);
      RunOn(env, FORK, Calls(slow - 1, FORK), PlaceOf(d, slow - 1, FORK), slow, false);
    } else {
      RunStarts(env, FORK);
      PlaceBegins(d);
    }
  }

  lemma FinalLow(d: nat, slow: nat, fast: nat)
    requires InPlan(d, slow, fast)
    ensures PlaceOf(d, slow, fast).final <= 1
  {
  }

  lemma PlaceBegins(d: nat)
    requires d < 256
    ensures PlaceOf(d, 0, FORK) == Begin(FORK)
  {
  }

  // ----- a valid header that is answered with `Unknown` -----

  /** After the calls `before`, a signed call with a valid header is answered with `Unknown`; the header has become the
      best block, less than D above the finalized one. */
  ghost predicate ValidYetUnknown(env: Env, before: seq<Call>, call: Call) {
    && SoundEnv(env) && CallsIn(env, before) && Offers(env, call.header, call.proof) && call.origin.Signed?
    && var c := Run(env, before);
       && Descending(c.store.headers)
       && Validate(env, c.store, call.header, call.proof) == Success
       && ImportHeader(env, c.store, call).1 == Failure(Unknown)
       && ImportHeader(env, c.store, call).0.best == HeaderId(call.header.number, env.hash(call.header))
       && ImportHeader(env, c.store, call).0.finalized == c.store.finalized
       && call.header.number < c.store.finalized.number + env.descendantsUntilFinalized
  }

  /** What is written when the finality search fails. */
  lemma WritesOfFailure(env: Env, c: Chain, call: Call)
    requires Inv(env, c) && call.origin.Signed? && Acceptable(env, c, call.header, call.proof)
    ensures Descending(c.store.headers) && Validate(env, c.store, call.header, call.proof) == Success
    ensures ImportHeader(env, c.store, call).1 == Failure(Unknown) ==>
              && ImportHeader(env, c.store, call).0.best == HeaderId(call.header.number, env.hash(call.header))
              && ImportHeader(env, c.store, call).0.finalized == c.store.finalized
  {
    hide SealChecks;
    hide TotalUpon;
    AcceptableIsValid(env, c, call.header, call.proof);
    AcceptedOutcome(env, c, call.origin.who, call.header, call.proof);
    hide Validate;
    hide Inv;
    hide Acceptable;
    hide Prune;
  }

  /** An acceptable header that makes the finality search fail. */
  lemma TooEarly(env: Env, before: seq<Call>, call: Call)
    requires SoundEnv(env) && CallsIn(env, before) && call.origin.Signed?
    requires
      var c, d := Run(env, before), env.descendantsUntilFinalized;
      && Acceptable(env, c, call.header, call.proof)
      && TotalUpon(env, c, call.header) > c.store.bestDifficulty
      && env.genesis.number + d <= call.header.number < c.store.finalized.number + d
    ensures ValidYetUnknown(env, before, call)
  {
    var c := Run(env, before);
    hide Run;
    hide SealChecks;
    hide Inv;
    hide SoundEnv;
    hide Validate;
    hide ImportHeader;
    hide TotalUpon;
    hide HistoryOk;
    hide Above;
    AcceptableReturns(env, c, call);
    WritesOfFailure(env, c, call);
  }

  /** The last fast block becomes the best one too early. */
  lemma LastFastLeads(env: Env, c: Chain, d: nat)
    requires d == env.descendantsUntilFinalized && 7 <= d < 256 && Hosts(env, FORK)
    requires At(env, FORK, c, PlaceOf(d, d + 1, d - 1))
    ensures HistoryOk(env, c.history)
    ensures Acceptable(env, c, Block(FORK, d, true), Proof())
    ensures TotalUpon(env, c, Block(FORK, d, true)) > c.store.bestDifficulty
    ensures env.genesis.number + d <= Block(FORK, d, true).number < c.store.finalized.number + d
  {
    hide Hosts;
    hide At;
    var p := PlaceOf(d, d + 1, d - 1);
    AtInv(env, FORK, c, p);
    FinalIs(env, FORK, c, p);
    NextAcceptable(env, FORK, c, p, d, true);
    BlockFields(FORK, d, true);
    BestTotal(env, FORK, c, p);
    FastIsHeavier(d);
    TotalGrows(FORK, d, true);
    hide *;
  }

  lemma FinalIs(env: Env, base: nat, c: Chain, p: Place)
    requires Hosts(env, base) && At(env, base, c, p)
    ensures c.store.finalized.number == p.final && env.genesis.number == 0
  {
    hide HostsBlock;
  }

  lemma LastFast(env: Env, d: nat)
    requires d == env.descendantsUntilFinalized && 7 <= d < 256 && Hosts(env, FORK)
    requires RunsTo(env, FORK, Calls(d + 1, d - 1), PlaceOf(d, d + 1, d - 1))
    ensures ValidYetUnknown(env, Calls(d + 1, d - 1), Import(FORK, d, true))
  {
    hide Hosts;
    hide At;
    hide SoundEnv;
    hide CallsIn;
    hide PlaceOf;
    LastFastLeads(env, Run(env, Calls(d + 1, d - 1)), d);
    ImportIs(FORK, d, true);
    hide *;
    TooEarly(env, Calls(d + 1, d - 1), Import(FORK, d, true));
  }

  /** For every D from 7 on there is a run, without any two headers of one hash, after which a valid header is answered
      with `Unknown`. */
  lemma ShorterOutweighs(d: U8)
    requires d >= 7
    ensures Environment(d, FORK).descendantsUntilFinalized == d
    ensures CollisionFreeOn(Environment(d, FORK).hash, Environment(d, FORK).universe)
    ensures ValidYetUnknown(Environment(d, FORK), Calls(d + 1, d - 1), Import(FORK, d, true))
  {
    hide Environment;
    hide Hosts;
    hide RunsTo;
    hide ValidYetUnknown;
    hide SoundEnv;
    hide Import;
    hide Calls;
    hide PlaceOf;
    EnvironmentHosts(d, FORK);
    EnvironmentIsSound(d, FORK);
    RunAt(Environment(d, FORK), d + 1, d - 1);
    LastFast(Environment(d, FORK), d);
  }

  lemma ValidNeverUnknown(env: Env, before: seq<Call>, call: Call)
    requires env.descendantsUntilFinalized <= 6
    ensures !ValidYetUnknown(env, before, call)
  {
    if ValidYetUnknown(env, before, call) {
      var c := Run(env, before);
      hide Run;
      AcceptedJoins(env, c, call.header, call.proof);
      hide Validate;
      hide ImportHeader;
      FinalityProgress.ImportNeverUnknown(env, c, call);
      assert false;
    }
  }

  /** The bound is sharp: a valid header can be answered with `Unknown`, in some run of some environment, exactly if D
      is at least 7. */
  lemma UnknownExactlyFromSeven(d: U8)
    ensures (exists env: Env, before: seq<Call>, call: Call ::
               env.descendantsUntilFinalized == d && ValidYetUnknown(env, before, call))
            <==> d >= 7
  {
    hide ValidYetUnknown;
    hide Environment;
    hide Calls;
    hide Import;
    if d >= 7 {
      ShorterOutweighs(d);
      var env := Environment(d, FORK);
      assert env.descendantsUntilFinalized == d && ValidYetUnknown(env, Calls(d + 1, d - 1), Import(FORK, d, true));
    } else {
      forall env: Env, before: seq<Call>, call: Call | env.descendantsUntilFinalized == d
        ensures !ValidYetUnknown(env, before, call)
      {
        ValidNeverUnknown(env, before, call);
      }
    }
  }

  // ----- the other `Unknown` -----

  /** Validation answers with `Unknown` after the calls `before`. */
  ghost predicate RefusedUnknown(env: Env, before: seq<Call>, call: Call) {
    && SoundEnv(env) && CallsIn(env, before) && Offers(env, call.header, call.proof) && call.origin.Signed?
    && Descending(Run(env, before).store.headers)
    && Validate(env, Run(env, before).store, call.header, call.proof) == Failure(Unknown)
  }

  /** It does exactly for a header that is not stored, upon a stored block below the finalized one, that claims a number
      above the finalized block's. */
  lemma BelowFinalized(env: Env, before: seq<Call>, call: Call)
    requires SoundEnv(env) && CallsIn(env, before) && Offers(env, call.header, call.proof) && call.origin.Signed?
    ensures
      var s := Run(env, before).store;
      RefusedUnknown(env, before, call) <==>
        && env.hash(call.header) !in s.headers && call.header.parentHash in s.headers
        && s.headers[call.header.parentHash].header.number < s.finalized.number < call.header.number
  {
    var c := Run(env, before);
    hide Run;
    hide SealChecks;
    ValidateExact(env, c, call.header, call.proof);
    assert call.header.parentHash in c.store.headers ==> StoredAt(env, c, call.header.parentHash);
    hide Validate;
    SealIsKnown(env, call.header, call.proof);
  }

  lemma SealIsKnown(env: Env, header: Header, proof: seq<EthashProof.DoubleNode>)
    ensures forall parent :: SealChecks(env, header, parent, proof) != Failure(Unknown)
  {
  }

  lemma GenesisNumber()
    ensures Block(FORK, 0, false).number == 0
  {
  }

  /** Once block 1 is final, genesis is still stored. */
  lemma GenesisStored(env: Env, c: Chain, d: nat)
    requires d == env.descendantsUntilFinalized && d < 256 && Hosts(env, FORK)
    requires At(env, FORK, c, PlaceOf(d, d + 1, FORK))
    ensures Name(0, false) in c.history && c.history[Name(0, false)].number == 0
    ensures Name(0, false) in c.store.headers && c.store.headers[Name(0, false)].header.number == 0
    ensures c.store.finalized.number == 1
  {
    hide SealChecks;
    hide Block;
    Has(env, FORK, c, PlaceOf(d, d + 1, FORK), 0, false);
    KnownBlock(env, FORK, c.history, 0, false);
    GenesisNumber();
    NothingPruned(env, FORK, c, Name(0, false));
    assert StoredAt(env, c, Name(0, false));
  }

  /** A header whose number does not follow its parent's is not stored. */
  lemma StrayNotStored(env: Env, c: Chain, header: Header)
    requires Inv(env, c) && CollisionFreeOn(env.hash, env.universe) && header in env.universe
    requires header.parentHash in c.history && c.history[header.parentHash].number + 1 != header.number
    ensures env.hash(header) !in c.store.headers
  {
    var h := env.hash(header);
    assert h in c.store.headers ==> StoredAt(env, c, h);
    assert h in c.history ==> RecordedAt(env, c.history, h) && LinkedAt(c.history, Root(env), h);
  }

  lemma StrayRefused(env: Env, d: nat)
    requires d == env.descendantsUntilFinalized && d < 256 && Hosts(env, FORK)
    requires RunsTo(env, FORK, Calls(d + 1, FORK), PlaceOf(d, d + 1, FORK))
    requires CollisionFreeOn(env.hash, env.universe) && Offers(env, Stray(FORK), Proof())
    requires Stray(FORK).number == 5 && Stray(FORK).parentHash == Name(0, false)
    ensures RefusedUnknown(env, Calls(d + 1, FORK), Call(Signed(0), Stray(FORK), Proof()))
  {
    hide Hosts;
    hide At;
    hide SoundEnv;
    hide PlaceOf;
    hide Stray;
    hide CollisionFreeOn;
    var c := Run(env, Calls(d + 1, FORK));
    GenesisStored(env, c, d);
    hide Run;
    hide Inv;
    StrayNotStored(env, c, Stray(FORK));
    BelowFinalized(env, Calls(d + 1, FORK), Call(Signed(0), Stray(FORK), Proof()));
    hide *;
  }

  /** For every D there is a run after which validation answers with `Unknown`: once block 1 is final, a header upon
      genesis that claims to be block 5. */
  lemma StrayIsUnknown(d: U8)
    ensures Environment(d, FORK).descendantsUntilFinalized == d
    ensures CollisionFreeOn(Environment(d, FORK).hash, Environment(d, FORK).universe)
    ensures RefusedUnknown(Environment(d, FORK), Calls(d + 1, FORK), Call(Signed(0), Stray(FORK), Proof()))
  {
    hide Environment;
    hide Stray;
    hide Hosts;
    hide SoundEnv;
    hide RunsTo;
    hide Calls;
    hide PlaceOf;
    hide RefusedUnknown;
    EnvironmentHosts(d, FORK);
    EnvironmentIsSound(d, FORK);
    StrayHash(d, FORK);
    RunAt(Environment(d, FORK), d + 1, FORK);
    StrayRefused(Environment(d, FORK), d);
  }
}
