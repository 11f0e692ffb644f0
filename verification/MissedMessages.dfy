/** From undelivered commitments to ordered message packages, relayer/relays/parachain/catchup.go and types.go.

  For each parachain block found by the search, latest first, a cursor walks down the
  relay chain to the relay block that carries it as the parachain's head; the cursor is
  shared by all blocks and never moves up.  The blocks are then reversed in place and
  their commitments packaged in order.
*/
module MissedMessages {
  import opened Primitives
  import opened Catchup

  // ----- the relay chain cursor -----

  /** A relay block: the number of the parachain's head in it, None if that cannot be read, and the Merkle root of
      all heads, as the proof that is built from them gives it. */
  datatype RelayBlock = RelayBlock(head: Option<nat>, headsRoot: H256)
  type RelayChain = seq<RelayBlock>

  /** The MMR at the latest relay block: the heads root in each leaf that can be fetched, the root hash, the leaf
      count, and the block at which it was started. */
  datatype Mmr = Mmr(
    leaves: seq<Option<H256>>, rootHash: Option<H256>, leafCount: Option<nat>, beefyStartingBlock: nat)

  /** The leaf index of a block, in 64-bit arithmetic. */
  function LeafIndex(mmr: Mmr, blockNumber: nat): U64 {
    (blockNumber - mmr.beefyStartingBlock - 1) % TWO_64
  }

  lemma LeafOfNext(mmr: Mmr, r: nat)
    ensures LeafIndex(mmr, r + 1) == (r - mmr.beefyStartingBlock) % TWO_64
  {
  }

  /** The leaf of the block after `r` can be fetched and holds the heads root of `r`. */
  predicate LeafMatches(relay: RelayChain, mmr: Mmr, r: nat)
    requires r < |relay|
  {
    var leaf := (r - mmr.beefyStartingBlock) % TWO_64;
    leaf < |mmr.leaves| && mmr.leaves[leaf] == Some(relay[r].headsRoot) && mmr.rootHash.Some?
  }

  /** The highest relay block at or below `cursor` whose head is `target`, if the walk meets no error. */
  function Descend(relay: RelayChain, cursor: int, target: nat): (r: Option<nat>)
    requires cursor < |relay|
    ensures r.Some? ==> r.value <= cursor && relay[r.value].head == Some(target)
    decreases cursor + 1
  {
    if cursor < 0 || relay[cursor].head.None? then None
    else if relay[cursor].head.value == target then Some(cursor)
    else Descend(relay, cursor - 1, target)
  }

  /** One relay block per target with a single downward cursor, each matched against the MMR.  Target 0 fails: the
      walk does not start and no heads are read for it. */
  function Walk(relay: RelayChain, mmr: Mmr, cursor: int, targets: seq<nat>): (found: Option<seq<nat>>)
    requires cursor < |relay|
    ensures found.Some? ==> |found.value| == |targets|
    decreases |targets|
  {
    if targets == [] then Some([])
    else if targets[0] == 0 then None
    else
      match Descend(relay, cursor, targets[0])
      case None => None
      case Some(r) =>
        if !LeafMatches(relay, mmr, r) then None
        else
          match Walk(relay, mmr, r - 1, targets[1..])
          case None => None
          case Some(rest) => Some([r] + rest)
  }

  /** The inner loop of `parablocksWithProofs`: walks down to the block with the head `target`. */
  method FindHead(relay: RelayChain, start: int, target: nat) returns (found: Option<nat>)
    requires -1 <= start < |relay| && target != 0
    ensures found == Descend(relay, start, target)
  {
    var cursor := start;
    var ownParaHead := 0;
    while ownParaHead != target
      invariant -1 <= cursor <= start
      invariant if ownParaHead == target then Descend(relay, start, target) == Some(cursor + 1)
                else Descend(relay, start, target) == Descend(relay, cursor, target)
      decreases cursor + 1, ownParaHead != target
    {
      if cursor < 0 || relay[cursor].head.None? {
        return None;
      }
      ownParaHead := relay[cursor].head.value;
      cursor := cursor - 1;
    }
    // The cursor is one below the block found.
    found := Some(cursor + 1);
  }

  /** The outer loop of `parablocksWithProofs`. */
  method FindRelayBlocks(relay: RelayChain, mmr: Mmr, latest: nat, targets: seq<nat>)
    returns (relayBlocks: Option<seq<nat>>)
    requires latest < |relay|
    ensures relayBlocks == Walk(relay, mmr, latest, targets)
  {
    hide LeafIndex;
    hide Descend;
    var cursor: int := latest;
    var found: seq<nat> := [];
    ghost var goal := Walk(relay, mmr, latest, targets);
    assert goal.Some? ==> [] + goal.value == goal.value;
    assert targets[0..] == targets;
    for k := 0 to |targets|
      invariant -1 <= cursor < |relay|
      invariant
        var rest := Walk(relay, mmr, cursor, targets[k..]);
        goal == if rest.None? then None else Some(found + rest.value)
    {
      assert targets[k..][0] == targets[k] && targets[k..][1..] == targets[k + 1..];
      if targets[k] == 0 {
        return None;
      }
      var head := FindHead(relay, cursor, targets[k]);
      if head.None? {
        return None;
      }
      var r := head.value;
      cursor := r;
      cursor := cursor - 1;
      // The leaf that covers the heads of a block is that of the next block.
      var leaf := LeafIndex(mmr, r + 1);
      LeafOfNext(mmr, r);
      if leaf >= |mmr.leaves| || mmr.leaves[leaf].None? || mmr.rootHash.None? {
        return None;
      }
      if mmr.leaves[leaf].value != relay[r].headsRoot {
        return None;
      }
      assert LeafMatches(relay, mmr, r);
      hide LeafMatches;
      ghost var rest := Walk(relay, mmr, cursor, targets[k + 1..]);
      assert rest.Some? ==> found + ([r] + rest.value) == found + [r] + rest.value;
      found := found + [r];
    }
    assert found + [] == found;
    relayBlocks := Some(found);
  }

  /** Between `lo` and `latest` the heads can be read and never go down; `lo` is the first such block, as when the
      parachain was registered then. */
  ghost predicate ReadableFrom(relay: RelayChain, lo: nat, latest: nat) {
    && lo <= latest < |relay|
    && (lo > 0 ==> relay[lo - 1].head.None?)
    && (forall r :: lo <= r <= latest ==> relay[r].head.Some?)
    && (forall r, q :: lo <= r < q <= latest ==> relay[r].head.value <= relay[q].head.value)
  }

  predicate Descending(s: seq<nat>) {
    forall i, j :: 0 <= i < j < |s| ==> s[i] > s[j]
  }

  /** `r` is the greatest relay block up to `latest` whose head is `target`. */
  ghost predicate IsLastWith(relay: RelayChain, latest: nat, target: nat, r: nat)
    requires latest < |relay|
  {
    && r <= latest && relay[r].head == Some(target)
    && forall q :: r < q <= latest ==> relay[q].head != Some(target)
  }

  /** Some relay block from `lo` on has the head `target`, and the MMR covers the last one. */
  ghost predicate Provable(relay: RelayChain, mmr: Mmr, lo: nat, latest: nat, target: nat)
    requires latest < |relay|
  {
    target > 0 && exists r :: lo <= r && IsLastWith(relay, latest, target, r) && LeafMatches(relay, mmr, r)
  }

  /** The descent ends at the first block at or below the cursor with the target, if there is one from `lo` on. */
  lemma {:induction false} DescendExact(relay: RelayChain, lo: nat, latest: nat, cursor: int, target: nat)
    requires ReadableFrom(relay, lo, latest) && lo - 1 <= cursor <= latest
    ensures
      match Descend(relay, cursor, target)
      case None => forall q :: lo <= q <= cursor ==> relay[q].head != Some(target)
      case Some(r) => lo <= r && forall q :: r < q <= cursor ==> relay[q].head != Some(target)
    decreases cursor + 1
  {
    if cursor >= lo && relay[cursor].head.value != target {
      DescendExact(relay, lo, latest, cursor - 1, target);
    }
  }

  /** Above the cursor all heads are beyond the targets. */
  ghost predicate Passed(relay: RelayChain, lo: nat, latest: nat, cursor: int, targets: seq<nat>)
    requires ReadableFrom(relay, lo, latest)
  {
    && lo - 1 <= cursor <= latest
    && forall q, k :: cursor < q <= latest && 0 <= k < |targets| ==> relay[q].head.value > targets[k]
  }

  lemma FirstExact(relay: RelayChain, lo: nat, latest: nat, cursor: int, targets: seq<nat>)
    requires ReadableFrom(relay, lo, latest) && Passed(relay, lo, latest, cursor, targets)
    requires targets != [] && Descending(targets)
    ensures
      match Descend(relay, cursor, targets[0])
      case None => forall r :: lo <= r ==> !IsLastWith(relay, latest, targets[0], r)
      case Some(r) =>
        && lo <= r && IsLastWith(relay, latest, targets[0], r) && Passed(relay, lo, latest, r - 1, targets[1..])
        && forall q :: IsLastWith(relay, latest, targets[0], q) ==> q == r
  {
    DescendExact(relay, lo, latest, cursor, targets[0]);
    assert targets[0] == targets[0..][0];
  }

  /** The first target can be proved exactly if the descent finds a block that the MMR covers. */
  lemma FirstProvable(relay: RelayChain, mmr: Mmr, lo: nat, latest: nat, cursor: int, targets: seq<nat>)
    requires ReadableFrom(relay, lo, latest) && Passed(relay, lo, latest, cursor, targets)
    requires targets != [] && Descending(targets) && targets[0] > 0
    ensures
      var found := Descend(relay, cursor, targets[0]);
      && (Provable(relay, mmr, lo, latest, targets[0]) <==> found.Some? && LeafMatches(relay, mmr, found.value))
      && (found.Some? ==> IsLastWith(relay, latest, targets[0], found.value)
                          && Passed(relay, lo, latest, found.value - 1, targets[1..]))
  {
    FirstExact(relay, lo, latest, cursor, targets);
    hide IsLastWith;
    hide Passed;
    hide LeafMatches;
    hide ReadableFrom;
  }

  /** The shared cursor skips nothing: it succeeds exactly if every target can be proved, and then finds for each its
      last relay block.  The blocks before `lo`, such as those before the parachain was registered, are not asked
      for anything. */
  lemma {:induction false} WalkExact(
    relay: RelayChain, mmr: Mmr, lo: nat, latest: nat, cursor: int, targets: seq<nat>)
    requires ReadableFrom(relay, lo, latest) && Passed(relay, lo, latest, cursor, targets) && Descending(targets)
    ensures
      var found := Walk(relay, mmr, cursor, targets);
      && (found.Some? <==> forall k :: 0 <= k < |targets| ==> Provable(relay, mmr, lo, latest, targets[k]))
      && (found.Some? ==> forall k :: 0 <= k < |targets| ==> IsLastWith(relay, latest, targets[k], found.value[k]))
    decreases |targets|
  {
    if targets != [] && targets[0] > 0 {
      FirstProvable(relay, mmr, lo, latest, cursor, targets);
      hide Descend;
      hide Provable;
      hide IsLastWith;
      hide Passed;
      hide LeafMatches;
      hide ReadableFrom;
      var rest := targets[1..];
      assert forall k :: 0 <= k < |rest| ==> rest[k] == targets[k + 1];
      var first := Descend(relay, cursor, targets[0]);
      if first.Some? {
        var r: int := first.value;
        WalkExact(relay, mmr, lo, latest, r - 1, rest);
        var found := Walk(relay, mmr, cursor, targets);
        if found.Some? {
          forall k | 0 <= k < |targets|
            ensures Provable(relay, mmr, lo, latest, targets[k])
            ensures IsLastWith(relay, latest, targets[k], found.value[k])
          {
            assert k > 0 ==> targets[k] == rest[k - 1] && found.value[k] == found.value[1..][k - 1];
          }
        }
      }
    }
  }

  /** Whatever the relay chain: what the walk returns has the targets as heads and matches the MMR. */
  lemma {:induction false} WalkMatches(relay: RelayChain, mmr: Mmr, cursor: int, targets: seq<nat>)
    requires cursor < |relay|
    ensures
      var found := Walk(relay, mmr, cursor, targets);
      found.Some? ==> forall k :: 0 <= k < |targets| ==>
        found.value[k] < |relay| && relay[found.value[k]].head == Some(targets[k])
        && LeafMatches(relay, mmr, found.value[k])
    decreases |targets|
  {
    hide LeafMatches;
    if targets != [] {
      var r := Descend(relay, cursor, targets[0]);
      if r.Some? {
        var below: int := r.value;
        WalkMatches(relay, mmr, below - 1, targets[1..]);
      }
    }
  }

  // ----- reversal and packaging -----

  /** A block with the relay block whose heads prove it, the MMR leaf that covers them, and the MMR's root. */
  datatype ProvenBlock = ProvenBlock(block: ParaBlock, relayBlock: nat, mmrLeaf: nat, mmrRootHash: H256)

  datatype MessagePackage = MessagePackage(
    channel: Channel, commitmentHash: H256, commitmentData: Bytes, paraBlock: nat, relayBlock: nat,
    mmrLeaf: nat, mmrRootHash: H256, mmrLeafCount: nat, paraID: nat)

  function Reversed<T>(s: seq<T>): (r: seq<T>)
    ensures |r| == |s| && forall k :: 0 <= k < |s| ==> r[k] == s[|s| - 1 - k]
  {
    if s == [] then [] else Reversed(s[1..]) + [s[0]]
  }

  method ReverseBlocks(blocks: array<ProvenBlock>)
    modifies blocks
    ensures blocks[..] == Reversed(old(blocks[..]))
  {
    var i, j := 0, blocks.Length - 1;
    while i < j
      invariant 0 <= i <= j + 2 && i + j == blocks.Length - 1
      invariant forall k :: 0 <= k < i || j < k < blocks.Length ==> blocks[k] == old(blocks[blocks.Length - 1 - k])
      invariant forall k :: i <= k <= j ==> blocks[k] == old(blocks[k])
    {
      blocks[i], blocks[j] := blocks[j], blocks[i];
      i, j := i + 1, j - 1;
    }
  }

  function Package(item: Item, proven: ProvenBlock, leafCount: nat, paraID: nat): MessagePackage
    requires item.Commitment? && item.payload.Some?
  {
    MessagePackage(
      item.channel, item.hash, item.payload.value.data, proven.block.number, proven.relayBlock,
      proven.mmrLeaf, proven.mmrRootHash, leafCount, paraID)
  }

  predicate AllCommitments(items: seq<Item>) {
    forall i :: 0 <= i < |items| ==> items[i].Commitment? && items[i].payload.Some?
  }

  predicate Packable(blocks: seq<ProvenBlock>) {
    forall i :: 0 <= i < |blocks| ==> AllCommitments(blocks[i].block.items)
  }

  function PackBlock(items: seq<Item>, proven: ProvenBlock, leafCount: nat, paraID: nat): seq<MessagePackage>
    requires AllCommitments(items)
  {
    seq(|items|, i requires 0 <= i < |items| => Package(items[i], proven, leafCount, paraID))
  }

  function Pack(blocks: seq<ProvenBlock>, leafCount: nat, paraID: nat): seq<MessagePackage>
    requires Packable(blocks)
  {
    if blocks == [] then []
    else PackBlock(blocks[0].block.items, blocks[0], leafCount, paraID) + Pack(blocks[1..], leafCount, paraID)
  }

  method CreateMessagePackages(blocks: seq<ProvenBlock>, leafCount: nat, paraID: nat)
    returns (packages: seq<MessagePackage>)
    requires Packable(blocks)
    ensures packages == Pack(blocks, leafCount, paraID)
  {
    packages := [];
    assert blocks[..0] == [];
    for b := 0 to |blocks|
      invariant packages == Pack(blocks[..b], leafCount, paraID)
    {
      PackNext(blocks, b, leafCount, paraID);
      ghost var before := packages;
      ghost var added := PackBlock(blocks[b].block.items, blocks[b], leafCount, paraID);
      hide Pack;
      var items := blocks[b].block.items;
      for i := 0 to |items|
        invariant packages == before + added[..i]
      {
        packages := packages + [Package(items[i], blocks[b], leafCount, paraID)];
        assert added[..i + 1] == added[..i] + [added[i]];
      }
      assert added[..|items|] == added;
    }
    assert blocks[..|blocks|] == blocks;
  }

  lemma PackNext(blocks: seq<ProvenBlock>, b: nat, leafCount: nat, paraID: nat)
    requires Packable(blocks) && b < |blocks|
    ensures Pack(blocks[..b + 1], leafCount, paraID) ==
            Pack(blocks[..b], leafCount, paraID) + PackBlock(blocks[b].block.items, blocks[b], leafCount, paraID)
  {
    assert blocks[..b + 1] == blocks[..b] + [blocks[b]];
    PackAppend(blocks[..b], blocks[b], leafCount, paraID);
  }

  lemma {:induction false} PackAppend(blocks: seq<ProvenBlock>, last: ProvenBlock, leafCount: nat, paraID: nat)
    requires Packable(blocks) && AllCommitments(last.block.items)
    ensures Pack(blocks + [last], leafCount, paraID) ==
            Pack(blocks, leafCount, paraID) + PackBlock(last.block.items, last, leafCount, paraID)
  {
    hide PackBlock;
    var packed := PackBlock(last.block.items, last, leafCount, paraID);
    if blocks == [] {
      assert [] + [last] == [last] && [last][1..] == [];
      assert packed + [] == packed && [] + packed == packed;
    } else {
      assert (blocks + [last])[1..] == blocks[1..] + [last];
      PackAppend(blocks[1..], last, leafCount, paraID);
      var first := PackBlock(blocks[0].block.items, blocks[0], leafCount, paraID);
      var rest := Pack(blocks[1..], leafCount, paraID);
      assert first + (rest + packed) == first + rest + packed;
    }
  }

  // ----- the whole -----

  /** The undelivered commitments of the blocks below `n`, in chain order, with their block numbers. */
  function InOrder(chain: Parachain, first: nat, n: nat, delivered: Delivered): seq<(nat, Item)>
    requires Fetchable(chain, first, n)
  {
    if n == first then []
    else InOrder(chain, first, n - 1, delivered) + Numbered(n - 1, Keep(chain[n - 1].value, delivered))
  }

  function Numbered(number: nat, items: seq<Item>): seq<(nat, Item)> {
    seq(|items|, i requires 0 <= i < |items| => (number, items[i]))
  }

  function Flatten(blocks: seq<ParaBlock>): seq<(nat, Item)> {
    if blocks == [] then [] else Numbered(blocks[0].number, blocks[0].items) + Flatten(blocks[1..])
  }

  lemma {:induction false} FlattenAppend(blocks: seq<ParaBlock>, last: ParaBlock)
    ensures Flatten(blocks + [last]) == Flatten(blocks) + Numbered(last.number, last.items)
  {
    if blocks == [] {
      assert [] + [last] == [last] && [last][1..] == [];
    } else {
      assert (blocks + [last])[1..] == blocks[1..] + [last];
      FlattenAppend(blocks[1..], last);
    }
  }

  /** Reversing the blocks that the search returns puts their commitments in chain order. */
  lemma {:induction false} ReversedIsInOrder(chain: Parachain, first: nat, n: nat, delivered: Delivered)
    requires Fetchable(chain, first, n)
    ensures Flatten(Reversed(Lost(chain, first, n, delivered))) == InOrder(chain, first, n, delivered)
  {
    hide Keep;
    if n > first {
      ReversedIsInOrder(chain, first, n - 1, delivered);
      var kept := Keep(chain[n - 1].value, delivered);
      var rest := Lost(chain, first, n - 1, delivered);
      if kept != [] {
        assert Lost(chain, first, n, delivered)[1..] == rest;
        FlattenAppend(Reversed(rest), ParaBlock(n - 1, kept));
      }
    }
  }

  lemma {:induction false} KeepSound(items: seq<Item>, delivered: Delivered)
    ensures forall i :: 0 <= i < |Keep(items, delivered)| ==>
              Undelivered(Keep(items, delivered)[i], delivered) && Keep(items, delivered)[i] in items
    ensures forall i :: 0 <= i < |items| && Undelivered(items[i], delivered) ==> items[i] in Keep(items, delivered)
  {
    if items != [] {
      KeepSound(items[1..], delivered);
      assert items == [items[0]] + items[1..];
    }
  }

  /** Within the block, too, each channel's nonces rise. */
  predicate RisesWithin(items: seq<Item>)
    requires Readable(items)
  {
    forall i, j :: 0 <= i < j < |items| && SameChannel(items[i], items[j]) ==> Precedes(items[i], items[j])
  }

  lemma {:induction false} KeepRises(items: seq<Item>, delivered: Delivered)
    requires Readable(items) && RisesWithin(items)
    ensures Readable(Keep(items, delivered)) && RisesWithin(Keep(items, delivered))
  {
    if items != [] {
      var rest := items[1..];
      assert forall i :: 0 <= i < |rest| ==> rest[i] == items[i + 1];
      KeepRises(rest, delivered);
      KeepSound(rest, delivered);
      var kept := Keep(rest, delivered);
      forall j | 0 <= j < |kept| && SameChannel(items[0], kept[j]) && Undelivered(items[0], delivered)
        ensures Precedes(items[0], kept[j])
      {
        var k :| 0 <= k < |rest| && rest[k] == kept[j];
        assert SameChannel(items[0], items[k + 1]);
      }
    }
  }

  /** An undelivered commitment of a block below `n`. */
  ghost predicate EntryOf(chain: Parachain, first: nat, n: nat, delivered: Delivered, entry: (nat, Item))
    requires RisingFrom(chain, first) && first <= n <= |chain|
  {
    first <= entry.0 < n && Undelivered(entry.1, delivered) && entry.1 in chain[entry.0].value
  }

  ghost predicate Entries(chain: Parachain, first: nat, n: nat, delivered: Delivered, s: seq<(nat, Item)>)
    requires RisingFrom(chain, first) && first <= n <= |chain|
  {
    forall i :: 0 <= i < |s| ==> EntryOf(chain, first, n, delivered, s[i])
  }

  /** Each channel's commitments come once each with ascending nonces. */
  ghost predicate Ascending(s: seq<(nat, Item)>) {
    forall i, j :: 0 <= i < j < |s| && SameChannel(s[i].1, s[j].1) ==>
      s[i].1.payload.Some? && s[j].1.payload.Some? && Precedes(s[i].1, s[j].1)
  }

  lemma {:induction false} InOrderAscends(chain: Parachain, first: nat, n: nat, delivered: Delivered)
    requires RisingFrom(chain, first) && first <= n <= |chain|
    requires forall b :: first <= b < |chain| ==> RisesWithin(chain[b].value)
    ensures Entries(chain, first, n, delivered, InOrder(chain, first, n, delivered))
    ensures Ascending(InOrder(chain, first, n, delivered))
  {
    if n > first {
      InOrderAscends(chain, first, n - 1, delivered);
      var before := InOrder(chain, first, n - 1, delivered);
      var kept := Keep(chain[n - 1].value, delivered);
      KeepSound(chain[n - 1].value, delivered);
      KeepRises(chain[n - 1].value, delivered);
      var added := Numbered(n - 1, kept);
      hide Precedes;
      assert Entries(chain, first, n, delivered, before);
      assert forall i :: 0 <= i < |added| ==> added[i] == (n - 1, kept[i]);
      forall i, j | 0 <= i < |before| && 0 <= j < |added| && SameChannel(before[i].1, added[j].1)
        ensures before[i].1.payload.Some? && added[j].1.payload.Some? && Precedes(before[i].1, added[j].1)
      {
        assert EntryOf(chain, first, n - 1, delivered, before[i]);
        assert BlockPrecedes(chain[before[i].0].value, chain[n - 1].value);
      }
      assert InOrder(chain, first, n, delivered) == before + added;
    }
  }

  /** The package carries the numbered commitment. */
  predicate Carries(package: MessagePackage, entry: (nat, Item)) {
    && entry.1.Commitment? && entry.1.payload.Some?
    && package.channel == entry.1.channel && package.commitmentHash == entry.1.hash
    && package.commitmentData == entry.1.payload.value.data && package.paraBlock == entry.0
  }

  function BlocksOf(proven: seq<ProvenBlock>): seq<ParaBlock> {
    seq(|proven|, i requires 0 <= i < |proven| => proven[i].block)
  }

  /** The packages carry the entries one for one, each with the last relay block that carries its parachain block. */
  ghost predicate Delivers(
    relay: RelayChain, latest: nat, packages: seq<MessagePackage>, entries: seq<(nat, Item)>)
    requires latest < |relay|
  {
    && |packages| == |entries|
    && forall i :: 0 <= i < |packages| ==>
         Carries(packages[i], entries[i]) && IsLastWith(relay, latest, packages[i].paraBlock, packages[i].relayBlock)
  }

  lemma {:induction false} PackCarries(
    relay: RelayChain, latest: nat, proven: seq<ProvenBlock>, leafCount: nat, paraID: nat)
    requires latest < |relay| && Packable(proven)
    requires forall k :: 0 <= k < |proven| ==> IsLastWith(relay, latest, proven[k].block.number, proven[k].relayBlock)
    ensures Delivers(relay, latest, Pack(proven, leafCount, paraID), Flatten(BlocksOf(proven)))
  {
    if proven != [] {
      assert BlocksOf(proven)[1..] == BlocksOf(proven[1..]);
      PackCarries(relay, latest, proven[1..], leafCount, paraID);
    }
  }

  lemma {:induction false} PackCounts(proven: seq<ProvenBlock>, leafCount: nat, paraID: nat)
    requires Packable(proven)
    ensures |Pack(proven, leafCount, paraID)| == |Flatten(BlocksOf(proven))|
  {
    if proven != [] {
      assert BlocksOf(proven)[1..] == BlocksOf(proven[1..]);
      PackCounts(proven[1..], leafCount, paraID);
    }
  }

  lemma {:induction false} FlattenReversed(blocks: seq<ParaBlock>)
    ensures |Flatten(Reversed(blocks))| == Count(blocks)
  {
    if blocks != [] {
      FlattenReversed(blocks[1..]);
      FlattenAppend(Reversed(blocks[1..]), blocks[0]);
    }
  }

  ghost predicate LostBlock(chain: Parachain, first: nat, n: nat, delivered: Delivered, block: ParaBlock)
    requires Fetchable(chain, first, n)
  {
    && first <= block.number < n && AllCommitments(block.items)
    && block.items == Keep(chain[block.number].value, delivered) && block.items != []
  }

  ghost predicate LostBlocks(chain: Parachain, first: nat, n: nat, delivered: Delivered, blocks: seq<ParaBlock>)
    requires Fetchable(chain, first, n)
  {
    && (forall i :: 0 <= i < |blocks| ==> LostBlock(chain, first, n, delivered, blocks[i]))
    && (forall i, j :: 0 <= i < j < |blocks| ==> blocks[i].number > blocks[j].number)
  }

  /** The search's blocks are below `n`, strictly descending, and hold commitments only. */
  lemma {:induction false} LostDescends(chain: Parachain, first: nat, n: nat, delivered: Delivered)
    requires Fetchable(chain, first, n)
    ensures LostBlocks(chain, first, n, delivered, Lost(chain, first, n, delivered))
  {
    if n > first {
      LostDescends(chain, first, n - 1, delivered);
      var rest := Lost(chain, first, n - 1, delivered);
      KeepSound(chain[n - 1].value, delivered);
      var kept := Keep(chain[n - 1].value, delivered);
      assert forall i :: 0 <= i < |rest| && LostBlock(chain, first, n - 1, delivered, rest[i]) ==>
               LostBlock(chain, first, n, delivered, rest[i]);
    }
  }

  /** The nonces that the parachain's storage reports are the largest of each channel. */
  ghost predicate Bounds(chain: Parachain, first: nat, generated: Delivered)
    requires RisingFrom(chain, first)
  {
    forall b, i :: first <= b < |chain| && 0 <= i < |chain[b].value| && chain[b].value[i].Commitment? ==>
      !Undelivered(chain[b].value[i], generated)
  }

  /** What the relayer may rely on: from block `first` on, a readable chain with rising nonces up to those reported,
      which settles there; and heads that never go down since the relay block `lo`. */
  ghost predicate CanCatchUp(
    chain: Parachain, first: nat, generated: Delivered, delivered: Delivered, relay: RelayChain, lo: nat, latest: nat)
  {
    && RisingFrom(chain, first) && Bounds(chain, first, generated)
    && (delivered != generated ==> Settles(chain, first, delivered))
    && ReadableFrom(relay, lo, latest)
  }

  function Numbers(blocks: seq<ParaBlock>): seq<nat> {
    seq(|blocks|, i requires 0 <= i < |blocks| => blocks[i].number)
  }

  lemma {:induction false} ScannedAreCommitments(items: seq<Item>, delivered: Delivered, found: Found)
    ensures
      var scan := ScanItems(items, delivered, found);
      scan.Some? ==> AllCommitments(scan.value.kept)
  {
    if items != [] {
      var item := items[0];
      ScannedAreCommitments(items[1..], delivered, found);
      if item.Commitment? {
        ScannedAreCommitments(items[1..], delivered, found.Add(item.channel));
      }
    }
  }

  /** Whatever the chain, the blocks that a search returns can be packaged. */
  lemma {:induction false} SearchedArePackable(chain: Parachain, n: nat, delivered: Delivered, found: Found)
    requires n <= |chain|
    ensures
      var blocks := SearchFrom(chain, n, delivered, found);
      blocks.Some? ==> forall i :: 0 <= i < |blocks.value| ==> AllCommitments(blocks.value[i].items)
    decreases n
  {
    if n > 0 && chain[n - 1].Some? {
      ScannedAreCommitments(chain[n - 1].value, delivered, found);
      var scan := ScanItems(chain[n - 1].value, delivered, found);
      if scan.Some? {
        SearchedArePackable(chain, n - 1, delivered, scan.value.found);
      }
    }
  }

  function Proven(blocks: seq<ParaBlock>, relayBlocks: seq<nat>, mmr: Mmr): seq<ProvenBlock>
    requires |blocks| == |relayBlocks| && (blocks != [] ==> mmr.rootHash.Some?)
  {
    seq(|blocks|, i requires 0 <= i < |blocks| =>
      ProvenBlock(blocks[i], relayBlocks[i], LeafIndex(mmr, relayBlocks[i] + 1), mmr.rootHash.value))
  }

  lemma WalkNeedsRoot(relay: RelayChain, mmr: Mmr, cursor: int, targets: seq<nat>)
    requires cursor < |relay|
    ensures Walk(relay, mmr, cursor, targets).Some? && targets != [] ==> mmr.rootHash.Some?
  {
  }

  /** `buildMissedMessagePackages`; None is an error.  Nothing is searched for when the delivered nonces are those
      that the parachain has `generated`. */
  function MissedPackages(
    chain: Parachain, generated: Delivered, delivered: Delivered, relay: RelayChain, mmr: Mmr, latest: nat, paraID: nat)
    : Option<seq<MessagePackage>>
    requires latest < |relay|
  {
    if delivered == generated then Some([])
    else
      match SearchFrom(chain, |chain|, delivered, Found(false, false))
      case None => None
      case Some(blocks) =>
        match Walk(relay, mmr, latest, Numbers(blocks))
        case None => None
        case Some(relayBlocks) =>
          if mmr.leafCount.None? then None
          else
            WalkNeedsRoot(relay, mmr, latest, Numbers(blocks));
            SearchedArePackable(chain, |chain|, delivered, Found(false, false));
            Some(Pack(Reversed(Proven(blocks, relayBlocks, mmr)), mmr.leafCount.value, paraID))
  }

  method BuildMissedMessagePackages(
    chain: Parachain, generated: Delivered, delivered: Delivered, relay: RelayChain, mmr: Mmr, latest: nat, paraID: nat)
    returns (packages: Option<seq<MessagePackage>>)
    requires latest < |relay|
    ensures packages == MissedPackages(chain, generated, delivered, relay, mmr, latest, paraID)
  {
    if delivered.basic == generated.basic && delivered.incentivized == generated.incentivized {
      return Some([]);
    }
    var blocks := SearchForLostCommitments(chain, delivered);
    if blocks.None? {
      return None;
    }
    var relayBlocks := FindRelayBlocks(relay, mmr, latest, Numbers(blocks.value));
    if relayBlocks.None? {
      return None;
    }
    WalkNeedsRoot(relay, mmr, latest, Numbers(blocks.value));
    SearchedArePackable(chain, |chain|, delivered, Found(false, false));
    hide SearchFrom;
    hide Walk;
    hide LeafIndex;
    var proven := new ProvenBlock[|blocks.value|](
      i requires 0 <= i < |blocks.value| == |relayBlocks.value| && mmr.rootHash.Some? =>
        ProvenBlock(
          blocks.value[i], relayBlocks.value[i], LeafIndex(mmr, relayBlocks.value[i] + 1), mmr.rootHash.value));
    assert proven[..] == Proven(blocks.value, relayBlocks.value, mmr);
    ReverseBlocks(proven);
    if mmr.leafCount.None? {
      return None;
    }
    var result := CreateMessagePackages(proven[..], mmr.leafCount.value, paraID);
    packages := Some(result);
  }

  /** Every block with something undelivered can be proved. */
  ghost predicate AllProvable(
    chain: Parachain, first: nat, delivered: Delivered, relay: RelayChain, mmr: Mmr, lo: nat, latest: nat)
    requires latest < |relay| && Fetchable(chain, first, |chain|)
  {
    forall b :: first <= b < |chain| && Keep(chain[b].value, delivered) != [] ==> Provable(relay, mmr, lo, latest, b)
  }

  lemma LostWalks(
    chain: Parachain, first: nat, delivered: Delivered, relay: RelayChain, mmr: Mmr, lo: nat, latest: nat)
    requires RisingFrom(chain, first) && ReadableFrom(relay, lo, latest)
    ensures
      var targets := Numbers(Lost(chain, first, |chain|, delivered));
      var found := Walk(relay, mmr, latest, targets);
      && (found.Some? <==> AllProvable(chain, first, delivered, relay, mmr, lo, latest))
      && (found.Some? ==> forall k :: 0 <= k < |targets| ==> IsLastWith(relay, latest, targets[k], found.value[k]))
  {
    hide Provable;
    var lost := Lost(chain, first, |chain|, delivered);
    LostDescends(chain, first, |chain|, delivered);
    LostListsAll(chain, first, |chain|, delivered);
    hide Lost;
    hide Walk;
    WalkExact(relay, mmr, lo, latest, latest, Numbers(lost));
    forall b | first <= b < |chain| && Keep(chain[b].value, delivered) != []
      ensures exists k :: 0 <= k < |lost| && Numbers(lost)[k] == b
    {
      assert ListsBlock(lost, b);
      var k :| 0 <= k < |lost| && lost[k].number == b;
      assert Numbers(lost)[k] == b;
    }
    forall k | 0 <= k < |lost|
      ensures Numbers(lost)[k] < |chain| && Keep(chain[Numbers(lost)[k]].value, delivered) != []
    {
      assert LostBlock(chain, first, |chain|, delivered, lost[k]);
    }
  }

  ghost predicate ListsBlock(blocks: seq<ParaBlock>, number: nat) {
    exists k :: 0 <= k < |blocks| && blocks[k].number == number
  }

  lemma {:induction false} LostListsAll(chain: Parachain, first: nat, n: nat, delivered: Delivered)
    requires Fetchable(chain, first, n)
    ensures forall b :: first <= b < n && Keep(chain[b].value, delivered) != [] ==>
              ListsBlock(Lost(chain, first, n, delivered), b)
  {
    if n > first {
      LostListsAll(chain, first, n - 1, delivered);
      var rest, lost := Lost(chain, first, n - 1, delivered), Lost(chain, first, n, delivered);
      forall b | first <= b < n && Keep(chain[b].value, delivered) != []
        ensures ListsBlock(lost, b)
      {
        if b < n - 1 {
          var k :| 0 <= k < |rest| && rest[k].number == b;
          assert lost[k + |lost| - |rest|] == rest[k];
        } else {
          assert lost[0].number == b;
        }
      }
    }
  }

  /** With all nonces delivered there is nothing to catch up on. */
  lemma {:induction false} NothingLeft(chain: Parachain, first: nat, n: nat, generated: Delivered)
    requires RisingFrom(chain, first) && Bounds(chain, first, generated) && first <= n <= |chain|
    ensures InOrder(chain, first, n, generated) == []
  {
    if n > first {
      NothingLeft(chain, first, n - 1, generated);
      SpentKeepsNothing(chain[n - 1].value, generated, Found(true, true));
    }
  }

  /** What is packaged when the search finds `blocks`. */
  lemma PackagesCarry(
    relay: RelayChain, mmr: Mmr, latest: nat, paraID: nat, blocks: seq<ParaBlock>, relayBlocks: seq<nat>)
    requires latest < |relay| && mmr.leafCount.Some? && |blocks| == |relayBlocks|
    requires blocks != [] ==> mmr.rootHash.Some?
    requires forall i :: 0 <= i < |blocks| ==> AllCommitments(blocks[i].items)
    ensures
      var packages := Pack(Reversed(Proven(blocks, relayBlocks, mmr)), mmr.leafCount.value, paraID);
      && |packages| == Count(blocks)
      && ((forall k :: 0 <= k < |blocks| ==> IsLastWith(relay, latest, blocks[k].number, relayBlocks[k])) ==>
            Delivers(relay, latest, packages, Flatten(Reversed(blocks))))
  {
    hide LeafIndex;
    hide IsLastWith;
    hide Delivers;
    var proven := Reversed(Proven(blocks, relayBlocks, mmr));
    assert BlocksOf(proven) == Reversed(blocks);
    FlattenReversed(blocks);
    PackCounts(proven, mmr.leafCount.value, paraID);
    if forall k :: 0 <= k < |blocks| ==> IsLastWith(relay, latest, blocks[k].number, relayBlocks[k]) {
      PackCarries(relay, latest, proven, mmr.leafCount.value, paraID);
    }
  }

  /** Main result.  Exactly the undelivered commitments are packaged, once each, in chain order, each with the last
      relay block that carries its parachain block, if and only if no block has an undelivered commitment behind a
      delivered one of its channel and the relay chain and the MMR can prove every block with an undelivered one.
      On each channel the nonces then ascend if they do within each block. */
  lemma CatchUpIsExact(
    chain: Parachain, first: nat, generated: Delivered, delivered: Delivered, relay: RelayChain, mmr: Mmr, lo: nat,
    latest: nat, paraID: nat)
    requires CanCatchUp(chain, first, generated, delivered, relay, lo, latest)
    ensures
      var packages := MissedPackages(chain, generated, delivered, relay, mmr, latest, paraID);
      var entries := InOrder(chain, first, |chain|, delivered);
      && (packages.Some? && Delivers(relay, latest, packages.value, entries)
          <==>
          && (forall b :: first <= b < |chain| ==> !Split(chain[b].value, delivered))
          && AllProvable(chain, first, delivered, relay, mmr, lo, latest)
          && (mmr.leafCount.Some? || delivered == generated))
      && ((forall b :: first <= b < |chain| ==> RisesWithin(chain[b].value)) ==> Ascending(entries))
  {
    hide RisesWithin;
    hide Provable;
    if forall b :: first <= b < |chain| ==> RisesWithin(chain[b].value) {
      InOrderAscends(chain, first, |chain|, delivered);
    }
    hide Ascending;
    if delivered == generated {
      NothingLeft(chain, first, |chain|, delivered);
      BoundsKeepNothing(chain, first, delivered);
    } else {
      SearchIsComplete(chain, first, delivered);
      LostWalks(chain, first, delivered, relay, mmr, lo, latest);
      PackagesExact(chain, first, generated, delivered, relay, mmr, latest, paraID);
    }
  }

  lemma BoundsKeepNothing(chain: Parachain, first: nat, generated: Delivered)
    requires RisingFrom(chain, first) && Bounds(chain, first, generated)
    ensures forall b :: first <= b < |chain| ==>
              !Split(chain[b].value, generated) && Keep(chain[b].value, generated) == []
  {
    forall b | first <= b < |chain|
      ensures Keep(chain[b].value, generated) == []
    {
      SpentKeepsNothing(chain[b].value, generated, Found(true, true));
    }
  }

  lemma PackagesExact(
    chain: Parachain, first: nat, generated: Delivered, delivered: Delivered, relay: RelayChain, mmr: Mmr, latest: nat,
    paraID: nat)
    requires delivered != generated && latest < |relay|
    requires Fetchable(chain, first, |chain|)
    requires
      var blocks := SearchFrom(chain, |chain|, delivered, Found(false, false));
      var lost := Lost(chain, first, |chain|, delivered);
      blocks.Some? && (blocks.value != lost ==> Count(blocks.value) < Count(lost))
    requires
      var targets := Numbers(Lost(chain, first, |chain|, delivered));
      var found := Walk(relay, mmr, latest, targets);
      found.Some? ==> forall k :: 0 <= k < |targets| ==> IsLastWith(relay, latest, targets[k], found.value[k])
    ensures
      var packages := MissedPackages(chain, generated, delivered, relay, mmr, latest, paraID);
      var lost := Lost(chain, first, |chain|, delivered);
      packages.Some? && Delivers(relay, latest, packages.value, InOrder(chain, first, |chain|, delivered))
      <==>
      && SearchFrom(chain, |chain|, delivered, Found(false, false)) == Some(lost)
      && Walk(relay, mmr, latest, Numbers(lost)).Some? && mmr.leafCount.Some?
  {
    hide SearchFrom;
    hide Walk;
    hide IsLastWith;
    hide Lost;
    hide InOrder;
    hide LeafIndex;
    SearchedArePackable(chain, |chain|, delivered, Found(false, false));
    ReversedIsInOrder(chain, first, |chain|, delivered);
    var blocks := SearchFrom(chain, |chain|, delivered, Found(false, false)).value;
    var lost := Lost(chain, first, |chain|, delivered);
    FlattenReversed(lost);
    var relayBlocks := Walk(relay, mmr, latest, Numbers(blocks));
    if relayBlocks.Some? && mmr.leafCount.Some? {
      WalkNeedsRoot(relay, mmr, latest, Numbers(blocks));
      PackagesCarry(relay, mmr, latest, paraID, blocks, relayBlocks.value);
      assert forall k :: 0 <= k < |blocks| ==> Numbers(blocks)[k] == blocks[k].number;
    }
  }

  /** Soundness without any assumption: a package names a relay block whose head is its parachain block, and the MMR
      leaf that it names, counted from the start of the MMR, holds the root of that relay block's heads. */
  ghost predicate Matches(relay: RelayChain, mmr: Mmr, paraID: nat, package: MessagePackage) {
    && package.relayBlock < |relay| && relay[package.relayBlock].head == Some(package.paraBlock)
    && package.mmrLeaf == (package.relayBlock - mmr.beefyStartingBlock) % TWO_64
    && (mmr.beefyStartingBlock <= package.relayBlock < mmr.beefyStartingBlock + TWO_64 ==>
          package.mmrLeaf == package.relayBlock - mmr.beefyStartingBlock)
    && package.paraID == paraID
    && package.mmrLeaf < |mmr.leaves|
    && mmr.leaves[package.mmrLeaf] == Some(relay[package.relayBlock].headsRoot)
    && mmr.rootHash == Some(package.mmrRootHash) && mmr.leafCount == Some(package.mmrLeafCount)
  }

  ghost predicate ProvenMatches(relay: RelayChain, mmr: Mmr, proven: ProvenBlock) {
    && proven.relayBlock < |relay| && relay[proven.relayBlock].head == Some(proven.block.number)
    && proven.mmrLeaf == (proven.relayBlock - mmr.beefyStartingBlock) % TWO_64
    && LeafMatches(relay, mmr, proven.relayBlock) && mmr.rootHash == Some(proven.mmrRootHash)
  }

  lemma {:induction false} PackMatches(relay: RelayChain, mmr: Mmr, proven: seq<ProvenBlock>, paraID: nat)
    requires Packable(proven) && mmr.leafCount.Some?
    requires forall k :: 0 <= k < |proven| ==> ProvenMatches(relay, mmr, proven[k])
    ensures
      var packages := Pack(proven, mmr.leafCount.value, paraID);
      forall i :: 0 <= i < |packages| ==> Matches(relay, mmr, paraID, packages[i])
  {
    hide LeafIndex;
    if proven != [] {
      PackMatches(relay, mmr, proven[1..], paraID);
      var first := PackBlock(proven[0].block.items, proven[0], mmr.leafCount.value, paraID);
      assert ProvenMatches(relay, mmr, proven[0]);
      assert forall i :: 0 <= i < |first| ==> Matches(relay, mmr, paraID, first[i]);
      assert Pack(proven, mmr.leafCount.value, paraID) == first + Pack(proven[1..], mmr.leafCount.value, paraID);
    }
  }

  lemma PackagesMatch(
    chain: Parachain, generated: Delivered, delivered: Delivered, relay: RelayChain, mmr: Mmr, latest: nat, paraID: nat)
    requires latest < |relay|
    ensures
      var packages := MissedPackages(chain, generated, delivered, relay, mmr, latest, paraID);
      packages.Some? ==> forall i :: 0 <= i < |packages.value| ==> Matches(relay, mmr, paraID, packages.value[i])
  {
    hide SearchFrom;
    hide Walk;
    hide LeafMatches;
    hide LeafIndex;
    hide Matches;
    var packages := MissedPackages(chain, generated, delivered, relay, mmr, latest, paraID);
    if delivered != generated && packages.Some? {
      SearchedArePackable(chain, |chain|, delivered, Found(false, false));
      var blocks := SearchFrom(chain, |chain|, delivered, Found(false, false)).value;
      var relayBlocks := Walk(relay, mmr, latest, Numbers(blocks)).value;
      WalkMatches(relay, mmr, latest, Numbers(blocks));
      WalkNeedsRoot(relay, mmr, latest, Numbers(blocks));
      var proven := Reversed(Proven(blocks, relayBlocks, mmr));
      forall k | 0 <= k < |proven|
        ensures ProvenMatches(relay, mmr, proven[k])
      {
        var m := |blocks| - 1 - k;
        assert Numbers(blocks)[m] == blocks[m].number;
        assert proven[k] == Proven(blocks, relayBlocks, mmr)[m];
        LeafOfNext(mmr, relayBlocks[m]);
      }
      PackedMatch(relay, mmr, proven, paraID, packages.value);
    }
  }

  lemma PackedMatch(
    relay: RelayChain, mmr: Mmr, proven: seq<ProvenBlock>, paraID: nat, packages: seq<MessagePackage>)
    requires Packable(proven) && mmr.leafCount.Some?
    requires forall k :: 0 <= k < |proven| ==> ProvenMatches(relay, mmr, proven[k])
    requires packages == Pack(proven, mmr.leafCount.value, paraID)
    ensures forall i :: 0 <= i < |packages| ==> Matches(relay, mmr, paraID, packages[i])
  {
    PackMatches(relay, mmr, proven, paraID);
  }
}
