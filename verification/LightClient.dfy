/** The Ethereum light client pallet as functions on its storage,
  parachain/pallets/ethereum-light-client/src/lib.rs, with proof of work verified.
*/
module LightClient {
  import opened Primitives
  import opened EthereumHeader
  import Difficulty
  import EthashProof

  const FINALIZED_HEADERS_TO_KEEP: nat := 50000
  const HEADERS_TO_PRUNE_IN_SINGLE_IMPORT: nat := 8

  type Account = nat
  type EthashNonce = Bytes

  datatype Origin = Signed(who: Account) | Unsigned

  datatype PowResult = PowResult(mixHash: H256, value: U256)

  /** What the pallet is configured with, and the functions of foreign code that it calls.
      `universe` holds the headers that are ever offered for import, and `proofs` the Ethash proofs. */
  datatype Env = Env(
    genesis: Header,
    initialDifficulty: U256,
    descendantsUntilFinalized: U8,
    difficultyConfig: Difficulty.DifficultyConfig,
    hash: Header -> H256,
    partialHash: Header -> H256,
    mixHash: Header -> Option<H256>,
    nonce: Header -> Option<EthashNonce>,
    boundary: U256 -> U256,
    dagHasher: EthashProof.Hasher,
    dagRoots: seq<EthashProof.H128>,
    hashimoto: (H256, EthashNonce, nat) -> EthashProof.Process<PowResult>,
    universe: iset<Header>,
    proofs: iset<seq<EthashProof.DoubleNode>>)

  datatype StoredHeader = StoredHeader(
    submitter: Option<Account>, header: Header, totalDifficulty: U256, finalized: bool)

  type Headers = map<H256, StoredHeader>
  type Index = map<nat, seq<H256>>

  datatype PruningRange = PruningRange(oldestUnprunedBlock: nat, oldestBlockToKeep: nat)

  datatype Storage = Storage(
    best: HeaderId,
    bestDifficulty: U256,
    toPrune: PruningRange,
    finalized: HeaderId,
    headers: Headers,
    byNumber: Index)

  /** `Panic` is the abort of an overflowing U256 operation; `BadOrigin` and
      `TotalDifficultyOverflow` are errors that the pallet's error enum does not list. */
  datatype Error =
    | AncientHeader | MissingHeader | MissingParentHeader | DuplicateHeader | HeaderNotFinalized
    | HeaderOnStaleFork | InvalidHeader | InvalidProof | Unknown
    | BadOrigin | TotalDifficultyOverflow | Panic

  datatype Outcome = Success | Failure(error: Error)

  // ----- walking the stored chain -----

  ghost predicate StepsDown(headers: Headers, k: H256)
    requires k in headers
  {
    headers[k].header.parentHash in headers ==>
      headers[headers[k].header.parentHash].header.number < headers[k].header.number
  }

  /** Parents are lower, so that walks end. */
  ghost predicate Descending(headers: Headers) {
    forall k {:trigger StepsDown(headers, k)} :: k in headers ==> StepsDown(headers, k)
  }

  /** First header with number `n` on the walk from `k` along stored parents. */
  ghost function FindAtNumber(headers: Headers, k: H256, n: nat): Option<H256>
    requires Descending(headers)
    decreases if k in headers then headers[k].header.number + 1 else 0
  {
    if k !in headers then None
    else if headers[k].header.number == n then Some(k)
    else
      assert StepsDown(headers, k);
      FindAtNumber(headers, headers[k].header.parentHash, n)
  }

  /** The header `d` steps up the walk from `k`. */
  ghost function NthAncestor(headers: Headers, k: H256, d: nat): Option<H256>
    decreases d
  {
    if k !in headers then None
    else if d == 0 then Some(k)
    else NthAncestor(headers, headers[k].header.parentHash, d - 1)
  }

  // ----- validation -----

  function BasicChecks(header: Header, parent: Header): Outcome {
    if header.gasUsed > header.gasLimit then Failure(InvalidHeader)
    else if parent.gasLimit * 1025 >= TWO_256 then Failure(Panic)
    else if
      && header.gasLimit < parent.gasLimit * 1025 / 1024
      && header.gasLimit > parent.gasLimit * 1023 / 1024
      && header.gasLimit >= 5000
      && header.timestamp > parent.timestamp
      && header.number == (parent.number + 1) % TWO_64
      && |header.extraData| <= 32
    then Success
    else Failure(InvalidHeader)
  }

  function DifficultyCheck(env: Env, header: Header, parent: Header): Outcome {
    match Difficulty.CalcDifficulty(env.difficultyConfig, header.timestamp, parent)
    case Err(Invalid) => Failure(InvalidHeader)
    case Err(Panic) => Failure(Panic)
    case Ok(difficulty) => if header.difficulty == difficulty then Success else Failure(InvalidHeader)
  }

  function PowCheck(env: Env, header: Header, proof: seq<EthashProof.DoubleNode>): Outcome {
    match (env.mixHash(header), env.nonce(header))
    case (Some(mixHash), Some(nonce)) =>
      var process := env.hashimoto(env.partialHash(header), nonce, header.number / EthashProof.EPOCH_LENGTH);
      (match EthashProof.HashimotoMerkle(env.dagHasher, env.dagRoots, process, header.number, proof)
       case Err(_) => Failure(InvalidHeader)
       case Ok(result) =>
         if result.mixHash == mixHash && result.value < env.boundary(header.difficulty) then Success
         else Failure(InvalidHeader))
    case _ => Failure(InvalidHeader)
  }

  /** The checks that involve only the header and its parent. */
  function SealChecks(env: Env, header: Header, parent: Header, proof: seq<EthashProof.DoubleNode>): Outcome {
    if BasicChecks(header, parent) != Success then BasicChecks(header, parent)
    else if DifficultyCheck(env, header, parent) != Success then DifficultyCheck(env, header, parent)
    else PowCheck(env, header, proof)
  }

  ghost function Validate(env: Env, s: Storage, header: Header, proof: seq<EthashProof.DoubleNode>): Outcome
    requires Descending(s.headers)
  {
    if env.hash(header) in s.headers then Failure(DuplicateHeader)
    else if header.parentHash !in s.headers then Failure(MissingParentHeader)
    else if header.number <= s.finalized.number then Failure(AncientHeader)
    else
      match FindAtNumber(s.headers, header.parentHash, s.finalized.number)
      case None => Failure(Unknown)
      case Some(ancestor) =>
        if ancestor != s.finalized.hash then Failure(HeaderOnStaleFork)
        else SealChecks(env, header, s.headers[header.parentHash].header, proof)
  }

  // ----- finality -----

  ghost function GetBestFinalized(env: Env, headers: Headers, best: HeaderId, finalized: HeaderId)
    : Result<HeaderId, Error>
  {
    match NthAncestor(headers, best.hash, env.descendantsUntilFinalized)
    case None => Ok(finalized)
    case Some(hash) =>
      if hash in headers && headers[hash].header.number > finalized.number then
        Ok(HeaderId(headers[hash].header.number, hash))
      else if hash != finalized.hash then Err(Unknown)
      else Ok(finalized)
  }

  // ----- pruning -----

  /** Removes up to `budget` headers from the blocks in [n, end), oldest first; `next` is the oldest
      block that is not known to be empty. */
  datatype Pruned = Pruned(headers: Headers, byNumber: Index, next: nat)

  function SetOf(hashes: seq<H256>): set<H256> {
    set k | k in hashes
  }

  function PruneFrom(headers: Headers, byNumber: Index, n: nat, end: nat, budget: nat): Pruned
    decreases end - n
  {
    if n >= end || budget == 0 then Pruned(headers, byNumber, n)
    else if n !in byNumber then PruneFrom(headers, byNumber, n + 1, end, budget)
    else
      var hashes := byNumber[n];
      if |hashes| <= budget then
        PruneFrom(headers - SetOf(hashes), byNumber - {n}, n + 1, end, budget - |hashes|)
      else Pruned(headers - SetOf(hashes[..budget]), byNumber[n := hashes[budget..]], n)
  }

  function Prune(s: Storage, budget: nat, pruneEnd: nat): Storage {
    var end := Max(s.toPrune.oldestBlockToKeep, pruneEnd);
    var pruned := PruneFrom(s.headers, s.byNumber, s.toPrune.oldestUnprunedBlock, end, budget);
    s.(headers := pruned.headers, byNumber := pruned.byNumber, toPrune := PruningRange(pruned.next, end))
  }

  // ----- import -----

  function Insert(s: Storage, submitter: Option<Account>, header: Header, hash: H256, totalDifficulty: U256): Storage {
    var bucket := if header.number in s.byNumber then s.byNumber[header.number] + [hash] else [hash];
    s.(headers := s.headers[hash := StoredHeader(submitter, header, totalDifficulty, false)],
       byNumber := s.byNumber[header.number := bucket])
  }

  function SetBest(s: Storage, id: HeaderId, totalDifficulty: U256): Storage {
    s.(best := id, bestDifficulty := totalDifficulty)
  }

  function SetFinalized(s: Storage, id: HeaderId): Storage
    requires id.hash in s.headers
  {
    s.(finalized := id, headers := s.headers[id.hash := s.headers[id.hash].(finalized := true)])
  }

  /** Finality and pruning after a new best block; writes made before an error stay. */
  ghost function Settle(env: Env, s: Storage): (Storage, Outcome) {
    match GetBestFinalized(env, s.headers, s.best, s.finalized)
    case Err(e) => (s, Failure(e))
    case Ok(id) =>
      if id != s.finalized && id.hash !in s.headers then (s.(finalized := id), Failure(Unknown))
      else
        var s' := if id != s.finalized then SetFinalized(s, id) else s;
        (Prune(s', HEADERS_TO_PRUNE_IN_SINGLE_IMPORT, SaturatingSub(id.number, FINALIZED_HEADERS_TO_KEEP)), Success)
  }

  /** The total difficulty of `header`'s chain, None when it overflows. */
  function TotalWith(s: Storage, header: Header): Option<U256>
    requires header.parentHash in s.headers
  {
    var total := s.headers[header.parentHash].totalDifficulty + header.difficulty;
    if total < TWO_256 then Some(total) else None
  }

  /** Stores the header and makes it the best block if its chain is the heaviest. */
  function Record(env: Env, s: Storage, sender: Account, header: Header, total: U256): Storage {
    var hash := env.hash(header);
    var s' := Insert(s, Some(sender), header, hash, total);
    if total > s.bestDifficulty then SetBest(s', HeaderId(header.number, hash), total) else s'
  }

  ghost function ImportValidated(env: Env, s: Storage, sender: Account, header: Header): (Storage, Outcome) {
    if header.parentHash !in s.headers then (s, Failure(MissingParentHeader))
    else
      match TotalWith(s, header)
      case None => (s, Failure(TotalDifficultyOverflow))
      case Some(total) =>
        var s' := Record(env, s, sender, header, total);
        if total > s.bestDifficulty then Settle(env, s') else (s', Success)
  }

  datatype Call = Call(origin: Origin, header: Header, proof: seq<EthashProof.DoubleNode>)

  ghost function ImportHeader(env: Env, s: Storage, call: Call): (Storage, Outcome)
    requires Descending(s.headers)
  {
    if call.origin.Unsigned? then (s, Failure(BadOrigin))
    else if Validate(env, s, call.header, call.proof) != Success then
      (s, Validate(env, s, call.header, call.proof))
    else ImportValidated(env, s, call.origin.who, call.header)
  }

  /** The storage after the genesis build: one header, final at once. */
  function Genesis(env: Env): Storage {
    var id := HeaderId(env.genesis.number, env.hash(env.genesis));
    var stored := StoredHeader(None, env.genesis, env.initialDifficulty, true);
    Storage(
      id, env.initialDifficulty, PruningRange(env.genesis.number, env.genesis.number), id,
      map[id.hash := stored], map[env.genesis.number := [id.hash]])
  }

  // ----- pruning is exact and additive -----

  /** The hashes listed for the blocks in [n, end), in (number, insertion) order. */
  function Queue(byNumber: Index, n: nat, end: nat): seq<H256>
    decreases end - n
  {
    if n >= end then []
    else (if n in byNumber then byNumber[n] else []) + Queue(byNumber, n + 1, end)
  }

  lemma {:induction false} QueueFrame(byNumber: Index, other: Index, n: nat, end: nat)
    requires forall m :: n <= m < end ==> (m in byNumber <==> m in other) && (m in byNumber ==> byNumber[m] == other[m])
    ensures Queue(byNumber, n, end) == Queue(other, n, end)
    decreases end - n
  {
    if n < end {
      QueueFrame(byNumber, other, n + 1, end);
    }
  }

  lemma SetOfConcat(a: seq<H256>, b: seq<H256>)
    ensures SetOf(a + b) == SetOf(a) + SetOf(b)
  {
  }

  /** Pruning empties the blocks below `next` and leaves the index alone beyond it. */
  lemma {:induction false} PruneFromFrame(headers: Headers, byNumber: Index, n: nat, end: nat, budget: nat)
    ensures
      var p := PruneFrom(headers, byNumber, n, end, budget);
      && n <= p.next <= Max(n, end)
      && (forall m :: n <= m < p.next ==> m !in p.byNumber)
      && (forall m :: m < n || m > p.next || m >= end ==>
            (m in p.byNumber <==> m in byNumber) && (m in byNumber ==> p.byNumber[m] == byNumber[m]))
    decreases end - n
  {
    if n >= end || budget == 0 {
    } else if n !in byNumber {
      PruneFromFrame(headers, byNumber, n + 1, end, budget);
    } else if |byNumber[n]| <= budget {
      PruneFromFrame(headers - SetOf(byNumber[n]), byNumber - {n}, n + 1, end, budget - |byNumber[n]|);
    }
  }

  /** `p` is what is left of a queue after its first min(budget, available) headers went: the rest is
      queued in order, and pruning has ended with the budget spent or the range empty. */
  ghost predicate PrunesQueue(p: Pruned, headers: Headers, queue: seq<H256>, end: nat, budget: nat) {
    var count := Min(budget, |queue|);
    && p.headers == headers - SetOf(queue[..count])
    && Queue(p.byNumber, p.next, end) == queue[count..]
    && (p.next < end ==> count == budget)
  }

  lemma PrunesQueueAfter(p: Pruned, headers: Headers, hashes: seq<H256>, rest: seq<H256>, end: nat, budget: nat)
    requires |hashes| <= budget
    requires PrunesQueue(p, headers - SetOf(hashes), rest, end, budget - |hashes|)
    ensures PrunesQueue(p, headers, hashes + rest, end, budget)
  {
    var count := Min(budget - |hashes|, |rest|);
    var queue := hashes + rest;
    assert queue[..|hashes| + count] == hashes + rest[..count];
    assert queue[|hashes| + count..] == rest[count..];
    SetOfConcat(hashes, rest[..count]);
    assert headers - SetOf(hashes) - SetOf(rest[..count]) == headers - SetOf(queue[..|hashes| + count]);
  }

  /** Exactly the first min(budget, available) headers in (number, insertion) order go. */
  lemma {:induction false} PruneFromExact(headers: Headers, byNumber: Index, n: nat, end: nat, budget: nat)
    ensures PrunesQueue(PruneFrom(headers, byNumber, n, end, budget), headers, Queue(byNumber, n, end), end, budget)
    decreases end - n
  {
    var queue := Queue(byNumber, n, end);
    if n >= end || budget == 0 {
      assert SetOf(queue[..0]) == {};
    } else if n !in byNumber {
      PruneFromExact(headers, byNumber, n + 1, end, budget);
    } else {
      var hashes := byNumber[n];
      var rest := Queue(byNumber, n + 1, end);
      if |hashes| <= budget {
        QueueFrame(byNumber, byNumber - {n}, n + 1, end);
        PruneFromExact(headers - SetOf(hashes), byNumber - {n}, n + 1, end, budget - |hashes|);
        PrunesQueueAfter(PruneFrom(headers, byNumber, n, end, budget), headers, hashes, rest, end, budget);
      } else {
        QueueFrame(byNumber, byNumber[n := hashes[budget..]], n + 1, end);
        assert queue[..budget] == hashes[..budget];
        assert queue[budget..] == hashes[budget..] + rest;
      }
    }
  }

  /** The storage after pruning: the oldest queued headers went, as many as the budget and the range allow; the index
      is untouched from the keep bound on, and the range says what is left. */
  lemma PruneExact(s: Storage, budget: nat, pruneEnd: nat)
    ensures
      var end := Max(s.toPrune.oldestBlockToKeep, pruneEnd);
      var queue := Queue(s.byNumber, s.toPrune.oldestUnprunedBlock, end);
      var count := Min(budget, |queue|);
      var s' := Prune(s, budget, pruneEnd);
      && s'.headers == s.headers - SetOf(queue[..count])
      && Queue(s'.byNumber, s'.toPrune.oldestUnprunedBlock, end) == queue[count..]
      && s'.toPrune.oldestBlockToKeep == end
      && (s'.toPrune.oldestUnprunedBlock < end ==> count == budget)
      && (forall n :: n >= end ==>
            (n in s'.byNumber <==> n in s.byNumber) && (n in s.byNumber ==> s'.byNumber[n] == s.byNumber[n]))
      && s'.best == s.best && s'.bestDifficulty == s.bestDifficulty && s'.finalized == s.finalized
  {
    var end := Max(s.toPrune.oldestBlockToKeep, pruneEnd);
    PruneFromExact(s.headers, s.byNumber, s.toPrune.oldestUnprunedBlock, end, budget);
    PruneFromFrame(s.headers, s.byNumber, s.toPrune.oldestUnprunedBlock, end, budget);
  }

  lemma {:induction false} PruneFromAdditive(headers: Headers, byNumber: Index, n: nat, end: nat, a: nat, b: nat)
    ensures
      var p := PruneFrom(headers, byNumber, n, end, a);
      PruneFrom(p.headers, p.byNumber, p.next, end, b) == PruneFrom(headers, byNumber, n, end, a + b)
    decreases end - n
  {
    if n >= end || a == 0 {
    } else if n !in byNumber {
      PruneFromAdditive(headers, byNumber, n + 1, end, a, b);
    } else if |byNumber[n]| <= a {
      var hashes := byNumber[n];
      PruneFromAdditive(headers - SetOf(hashes), byNumber - {n}, n + 1, end, a - |hashes|, b);
    } else {
      SplitBucket(headers, byNumber, n, end, a, b);
    }
  }

  /** The case of `PruneFromAdditive` where the first budget ends inside a block. */
  lemma SplitBucket(headers: Headers, byNumber: Index, n: nat, end: nat, a: nat, b: nat)
    requires n < end && n in byNumber && 0 < a < |byNumber[n]|
    ensures
      var hashes := byNumber[n];
      PruneFrom(headers - SetOf(hashes[..a]), byNumber[n := hashes[a..]], n, end, b)
      == PruneFrom(headers, byNumber, n, end, a + b)
  {
    var hashes := byNumber[n];
    if b == 0 {
    } else if |hashes| <= a + b {
      assert hashes == hashes[..a] + hashes[a..];
      SetOfConcat(hashes[..a], hashes[a..]);
      assert headers - SetOf(hashes[..a]) - SetOf(hashes[a..]) == headers - SetOf(hashes);
      assert byNumber[n := hashes[a..]] - {n} == byNumber - {n};
    } else {
      assert hashes[..a + b] == hashes[..a] + hashes[a..][..b];
      SetOfConcat(hashes[..a], hashes[a..][..b]);
      assert headers - SetOf(hashes[..a]) - SetOf(hashes[a..][..b]) == headers - SetOf(hashes[..a + b]);
      assert hashes[a..][b..] == hashes[a + b..];
    }
  }

  /** Pruning with budgets `a` and then `b` towards one end is pruning with `a + b`. */
  lemma PruneAdditive(s: Storage, a: nat, b: nat, pruneEnd: nat)
    ensures Prune(Prune(s, a, pruneEnd), b, pruneEnd) == Prune(s, a + b, pruneEnd)
  {
    var end := Max(s.toPrune.oldestBlockToKeep, pruneEnd);
    PruneFromAdditive(s.headers, s.byNumber, s.toPrune.oldestUnprunedBlock, end, a, b);
  }
}
