/** The pool of watched extrinsics, relayer/chain/parachain/outgoing_extrinsics.go, as a protocol.

  Each watched extrinsic has its own loop.  A loop takes one of ten tokens when it starts
  and gives it back, under the pool's lock, when its extrinsic was processed or need not be
  retried.  A loop that fails before that keeps its token; one whose extrinsic was processed
  but whose callback then fails has given it back.  The steps of all loops interleave freely
  with each other and with the chain.
*/
module ExtrinsicPool {
  import opened Primitives

  const MAX_WATCHED_EXTRINSICS: nat := 10

  /** `Clear`: the loop saw that its nonce need not be retried.  `Processed`: it saw its extrinsic in a block, and the
      callback succeeded.  `Unconfirmed`: it saw its extrinsic in a block, but the callback failed.  `Failed`: it
      ended with an error before. */
  datatype Phase = Submitting | Watching | BackingOff | Clear | Processed | Unconfirmed | Failed

  datatype Loop = Loop(nonce: nat, phase: Phase)

  /** `watched` is the number of tokens in the channel, `reported` the nonces seen in a block by some loop, and
      `next` the account's nonce on the chain: the chain has included exactly the nonces below it. */
  datatype Pool = Pool(loops: seq<Loop>, watched: nat, maxNonce: nat, reported: set<nat>, next: nat)

  /** What can happen next; `i` is the loop that steps.  `ok` says whether the submission or the callback succeeds. */
  datatype Event =
    | Start(nonce: nat)
    | Submit(i: nat, ok: bool)
    | Cancel(i: nat)
    | SubscriptionError(i: nat)
    | NotProcessed(i: nat)
    | WakeUp(i: nat, ok: bool)
    | InBlock(i: nat, ok: bool)
    | Include

  predicate InPhase(p: Pool, i: nat, phase: Phase) {
    i < |p.loops| && p.loops[i].phase == phase
  }

  /** A new loop needs room in the channel; a loop sees its extrinsic in a block only once the chain included it. */
  predicate Enabled(p: Pool, event: Event) {
    match event
    case Start(_) => p.watched < MAX_WATCHED_EXTRINSICS
    case Submit(i, _) => InPhase(p, i, Submitting)
    case Cancel(i) => InPhase(p, i, Watching)
    case SubscriptionError(i) => InPhase(p, i, Watching)
    case NotProcessed(i) => InPhase(p, i, Watching)
    case WakeUp(i, _) => InPhase(p, i, BackingOff)
    case InBlock(i, _) => InPhase(p, i, Watching) && p.loops[i].nonce < p.next
    case Include => true
  }

  function Enter(p: Pool, i: nat, phase: Phase): Pool
    requires i < |p.loops|
  {
    p.(loops := p.loops[i := p.loops[i].(phase := phase)])
  }

  /** The receive from the token channel; it would block on an empty one. */
  function GiveBack(p: Pool): Pool
    requires p.watched > 0
  {
    p.(watched := p.watched - 1)
  }

  /** The holder of the lock receives from the channel in this step. */
  predicate Receives(p: Pool, event: Event)
    requires Enabled(p, event)
  {
    match event
    case WakeUp(i, _) => p.loops[i].nonce <= p.maxNonce
    case InBlock(i, _) => true
    case _ => false
  }

  function Step(p: Pool, event: Event): Pool
    requires Enabled(p, event) && (Receives(p, event) ==> p.watched > 0)
  {
    match event
    case Start(nonce) => p.(loops := p.loops + [Loop(nonce, Submitting)], watched := p.watched + 1)
    case Submit(i, ok) => Enter(p, i, if ok then Watching else Failed)
    case Cancel(i) => Enter(p, i, Failed)
    case SubscriptionError(i) => Enter(p, i, Failed)
    case NotProcessed(i) => Enter(p, i, BackingOff)
    case WakeUp(i, ok) =>
      if p.loops[i].nonce <= p.maxNonce then Enter(GiveBack(p), i, Clear)
      else Enter(p, i, if ok then Watching else Failed)
    case InBlock(i, ok) =>
      var nonce := p.loops[i].nonce;
      Enter(GiveBack(p).(maxNonce := Max(p.maxNonce, nonce), reported := p.reported + {nonce}), i,
            if ok then Processed else Unconfirmed)
    case Include => p.(next := p.next + 1)
  }

  // ----- the invariant -----

  predicate Live(loop: Loop) {
    loop.phase.Submitting? || loop.phase.Watching? || loop.phase.BackingOff?
  }

  /** Ended without error. */
  predicate Stopped(loop: Loop) {
    loop.phase.Clear? || loop.phase.Processed?
  }

  /** Saw its extrinsic in a block. */
  predicate SawBlock(loop: Loop) {
    loop.phase.Processed? || loop.phase.Unconfirmed?
  }

  /** Holds a token: live, or failed before its extrinsic was seen in a block. */
  predicate Holds(loop: Loop) {
    Live(loop) || loop.phase.Failed?
  }

  function Holders(loops: seq<Loop>): nat {
    if loops == [] then 0 else (if Holds(loops[0]) then 1 else 0) + Holders(loops[1..])
  }

  ghost predicate MaxIsReported(p: Pool) {
    && (forall n :: n in p.reported ==> n <= p.maxNonce && n < p.next)
    && (p.maxNonce in p.reported || p.maxNonce == 0)
  }

  /** A loop that stopped without error, or saw its extrinsic in a block, has its nonce included, except that nonce 0
      may stop at any time. */
  ghost predicate StopsLateAt(p: Pool, i: nat)
    requires i < |p.loops|
  {
    var loop := p.loops[i];
    && (Stopped(loop) ==> loop.nonce < p.next || loop.nonce == 0)
    && (SawBlock(loop) ==> loop.nonce < p.next && loop.nonce in p.reported)
  }

  ghost predicate StopsLate(p: Pool) {
    forall i :: 0 <= i < |p.loops| ==> StopsLateAt(p, i)
  }

  ghost predicate Inv(p: Pool) {
    && p.watched == Holders(p.loops) <= MAX_WATCHED_EXTRINSICS
    && MaxIsReported(p)
    && StopsLate(p)
  }

  lemma {:induction false} HoldersUpdate(loops: seq<Loop>, i: nat, loop: Loop)
    requires i < |loops|
    ensures Holders(loops[i := loop]) ==
            Holders(loops)
            - (if Holds(loops[i]) then 1 else 0)
            + (if Holds(loop) then 1 else 0)
    ensures Live(loops[i]) ==> Holders(loops) > 0
  {
    if i == 0 {
      assert loops[0 := loop][1..] == loops[1..];
    } else {
      assert loops[i := loop][1..] == loops[1..][i - 1 := loop];
      HoldersUpdate(loops[1..], i - 1, loop);
    }
  }

  lemma {:induction false} HoldersAppend(loops: seq<Loop>, loop: Loop)
    ensures Holders(loops + [loop]) == Holders(loops) + (if Holds(loop) then 1 else 0)
  {
    if loops == [] {
      assert [] + [loop] == [loop];
    } else {
      assert (loops + [loop])[1..] == loops[1..] + [loop];
      HoldersAppend(loops[1..], loop);
    }
  }

  /** A receive under the lock never blocks. */
  lemma ReceiveNeverBlocks(p: Pool, event: Event)
    requires Inv(p) && Enabled(p, event) && Receives(p, event)
    ensures p.watched > 0
  {
    var i := match event case WakeUp(i, _) => i case InBlock(i, _) => i;
    HoldersUpdate(p.loops, i, p.loops[i]);
  }

  lemma StepTokens(p: Pool, event: Event)
    requires Enabled(p, event) && (Receives(p, event) ==> p.watched > 0)
    requires p.watched == Holders(p.loops) <= MAX_WATCHED_EXTRINSICS
    ensures Step(p, event).watched == Holders(Step(p, event).loops) <= MAX_WATCHED_EXTRINSICS
  {
    hide Holders;
    var p' := Step(p, event);
    match event
    case Start(nonce) => HoldersAppend(p.loops, Loop(nonce, Submitting));
    case Submit(i, _) => HoldersUpdate(p.loops, i, p'.loops[i]);
    case Cancel(i) => HoldersUpdate(p.loops, i, p'.loops[i]);
    case SubscriptionError(i) => HoldersUpdate(p.loops, i, p'.loops[i]);
    case NotProcessed(i) => HoldersUpdate(p.loops, i, p'.loops[i]);
    case WakeUp(i, _) => HoldersUpdate(p.loops, i, p'.loops[i]);
    case InBlock(i, _) => HoldersUpdate(p.loops, i, p'.loops[i]);
    case Include =>
  }

  lemma StepMax(p: Pool, event: Event)
    requires Enabled(p, event) && (Receives(p, event) ==> p.watched > 0) && MaxIsReported(p)
    ensures MaxIsReported(Step(p, event))
    ensures p.maxNonce <= Step(p, event).maxNonce && p.next <= Step(p, event).next
    ensures p.reported <= Step(p, event).reported
  {
  }

  lemma StepStopsLate(p: Pool, event: Event, i: nat)
    requires Enabled(p, event) && (Receives(p, event) ==> p.watched > 0) && MaxIsReported(p)
    requires i < |Step(p, event).loops| && (i < |p.loops| ==> StopsLateAt(p, i))
    ensures StopsLateAt(Step(p, event), i)
  {
  }

  lemma StepKeepsInv(p: Pool, event: Event)
    requires Inv(p) && Enabled(p, event)
    ensures Receives(p, event) ==> p.watched > 0
    ensures Inv(Step(p, event)) && p.maxNonce <= Step(p, event).maxNonce
  {
    if Receives(p, event) {
      ReceiveNeverBlocks(p, event);
    }
    StepTokens(p, event);
    StepMax(p, event);
    forall i | 0 <= i < |Step(p, event).loops|
      ensures StopsLateAt(Step(p, event), i)
    {
      assert i < |p.loops| ==> StopsLateAt(p, i);
      StepStopsLate(p, event, i);
    }
    hide Step;
    hide MaxIsReported;
  }

  // ----- runs -----

  function Empty(next: nat): Pool {
    Pool([], 0, 0, {}, next)
  }

  /** `p` is reached from the empty pool by the events, each enabled when it happens. */
  ghost predicate Reaches(next: nat, events: seq<Event>, p: Pool)
    decreases |events|
  {
    if events == [] then p == Empty(next)
    else
      var n := |events| - 1;
      exists q :: Reaches(next, events[..n], q) && Enabled(q, events[n])
                  && (Receives(q, events[n]) ==> q.watched > 0) && p == Step(q, events[n])
  }

  /** Over every interleaving: the tokens taken are those of live loops and of loops that failed before their extrinsic
      was seen in a block, at most ten, and a loop can start while they are fewer; the lock is never held by a blocked
      receive; the largest nonce seen in a block is the maximum, and what a loop saw in a block counts even if its
      callback failed; and no loop with a positive nonce stops without error before the chain has included its nonce. */
  lemma PoolIsSafe(next: nat, events: seq<Event>, p: Pool)
    requires Reaches(next, events, p)
    ensures p.watched == Holders(p.loops) <= 10
    ensures forall nonce :: Enabled(p, Start(nonce)) <==> Holders(p.loops) < 10
    ensures forall event :: Enabled(p, event) && Receives(p, event) ==> p.watched > 0
    ensures (forall n :: n in p.reported ==> n <= p.maxNonce) && (p.reported != {} ==> p.maxNonce in p.reported)
    ensures p.reported == {} ==> p.maxNonce == 0
    ensures forall i :: 0 <= i < |p.loops| && p.loops[i].nonce > 0 && Stopped(p.loops[i]) ==> p.loops[i].nonce < p.next
    ensures forall i :: 0 <= i < |p.loops| && SawBlock(p.loops[i]) ==>
              p.loops[i].nonce < p.next && p.loops[i].nonce in p.reported
  {
    hide Reaches;
    hide Holders;
    ReachesInv(next, events, p);
    forall i | 0 <= i < |p.loops|
      ensures p.loops[i].nonce > 0 && Stopped(p.loops[i]) ==> p.loops[i].nonce < p.next
      ensures SawBlock(p.loops[i]) ==> p.loops[i].nonce < p.next && p.loops[i].nonce in p.reported
    {
      assert StopsLateAt(p, i);
    }
    forall event | Enabled(p, event) && Receives(p, event)
      ensures p.watched > 0
    {
      ReceiveNeverBlocks(p, event);
    }
    if n :| n in p.reported && p.maxNonce == 0 {
      assert n == 0;
    }
  }

  lemma {:induction false} ReachesInv(next: nat, events: seq<Event>, p: Pool)
    requires Reaches(next, events, p)
    ensures Inv(p)
    decreases |events|
  {
    if events != [] {
      var n := |events| - 1;
      var q :| Reaches(next, events[..n], q) && Enabled(q, events[n])
               && (Receives(q, events[n]) ==> q.watched > 0) && p == Step(q, events[n]);
      ReachesInv(next, events[..n], q);
      StepKeepsInv(q, events[n]);
    }
  }

  /** When a loop gives up before its nonce is included: exactly with nonce 0 on an account that has sent nothing. */
  lemma GivesUpEarlyExactly(next: nat, events: seq<Event>, p: Pool, i: nat, ok: bool)
    requires Reaches(next, events, p) && Enabled(p, WakeUp(i, ok))
    ensures Receives(p, WakeUp(i, ok)) ==> p.watched > 0
    ensures Step(p, WakeUp(i, ok)).loops[i].phase == Clear && p.loops[i].nonce >= p.next <==>
            p.loops[i].nonce == 0 && p.next == 0
  {
    hide Reaches;
    ReachesInv(next, events, p);
    if Receives(p, WakeUp(i, ok)) {
      ReceiveNeverBlocks(p, WakeUp(i, ok));
    }
    hide Holders;
  }

  /** What becomes of a loop that wakes up: it stops if a nonce as high as its own was seen in a block, or its own is 0;
      otherwise it submits and watches again, or fails and keeps its token. */
  lemma RetriesExactly(next: nat, events: seq<Event>, p: Pool, i: nat, ok: bool)
    requires Reaches(next, events, p) && Enabled(p, WakeUp(i, ok))
    ensures Receives(p, WakeUp(i, ok)) ==> p.watched > 0
    ensures
      var p' := Step(p, WakeUp(i, ok));
      if p.loops[i].nonce == 0 || exists n :: n in p.reported && n >= p.loops[i].nonce then
        p'.loops[i].phase == Clear && p'.watched == p.watched - 1
      else
        p'.loops[i].phase == (if ok then Watching else Failed) && p'.watched == p.watched
  {
    hide Reaches;
    ReachesInv(next, events, p);
    if Receives(p, WakeUp(i, ok)) {
      ReceiveNeverBlocks(p, WakeUp(i, ok));
    }
    hide Holders;
  }

  /** How each loop moves in a step: only the loop that steps changes its phase, never its nonce. */
  lemma LoopMoves(p: Pool, event: Event, i: nat)
    requires Inv(p) && Enabled(p, event) && i < |p.loops|
    ensures Receives(p, event) ==> p.watched > 0
    ensures
      var p' := Step(p, event);
      && i < |p'.loops| && p'.loops[i].nonce == p.loops[i].nonce
      && var before, after := p.loops[i].phase, p'.loops[i].phase;
         || after == before
         || (before.Submitting? && event == Submit(i, true) && after.Watching?)
         || (before.Submitting? && event == Submit(i, false) && after.Failed?)
         || (before.Watching? && (event == Cancel(i) || event == SubscriptionError(i)) && after.Failed?)
         || (before.Watching? && event == NotProcessed(i) && after.BackingOff?)
         || (before.Watching? && event == InBlock(i, true) && after.Processed?)
         || (before.Watching? && event == InBlock(i, false) && after.Unconfirmed?)
         || (before.BackingOff? && event.WakeUp? && event.i == i)
    ensures Step(p, event).loops[i] == p.loops[i] <==> event.Start? || event.Include? || event.i != i
  {
    if Receives(p, event) {
      ReceiveNeverBlocks(p, event);
    }
    hide Holders;
  }

  /** Nonce 0 is the exception: it gives up on its first failure although the chain has included nothing. */
  lemma NonceZeroGivesUp()
    ensures
      var p := Step(Step(Step(Step(Empty(0), Start(0)), Submit(0, true)), NotProcessed(0)), WakeUp(0, true));
      p.loops[0].phase == Clear && p.next == 0
  {
  }

  /** A loop can end with an error and hold no token: its extrinsic is in a block, but the callback, which looks for the
      imported header, fails. */
  lemma ErrorWithoutToken()
    ensures
      var p := Step(Step(Step(Step(Empty(0), Start(0)), Submit(0, true)), Include), InBlock(0, false));
      p.loops[0].phase == Unconfirmed && p.watched == 0
  {
  }
}
