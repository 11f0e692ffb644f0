/** Catching up on undelivered commitments, relayer/relays/parachain/catchup.go and types.go.

  The relayer scans the parachain backwards from its latest block and stops as soon as
  it has met, for each of the two channels, a commitment that was already delivered.
  `Lost` is the plain specification: look at every block and keep what is undelivered.
*/
module Catchup {
  import opened Primitives

  datatype Channel = Basic | Incentivized

  /** The messages behind a commitment: their nonces and their raw data. */
  datatype Payload = Payload(nonces: seq<nat>, data: Bytes)

  /** A digest item; a payload of None is one that cannot be fetched or decoded. */
  datatype Item = Other | Commitment(channel: Channel, hash: H256, payload: Option<Payload>)

  /** A parachain by block number; None is a block that cannot be fetched. */
  type Parachain = seq<Option<seq<Item>>>

  /** The latest nonces delivered to Ethereum. */
  datatype Delivered = Delivered(basic: nat, incentivized: nat)

  datatype ParaBlock = ParaBlock(number: nat, items: seq<Item>)

  // ----- specification -----

  /** A commitment all of whose nonces exceed the delivered one. */
  predicate Undelivered(item: Item, delivered: Delivered) {
    && item.Commitment? && item.payload.Some?
    && var nonces := item.payload.value.nonces;
       match item.channel
       case Basic => forall i :: 0 <= i < |nonces| ==> nonces[i] > delivered.basic
       case Incentivized => forall i :: 0 <= i < |nonces| ==> nonces[i] > delivered.incentivized
  }

  function Keep(items: seq<Item>, delivered: Delivered): seq<Item> {
    if items == [] then []
    else (if Undelivered(items[0], delivered) then [items[0]] else []) + Keep(items[1..], delivered)
  }

  function Prepend(number: nat, kept: seq<Item>, blocks: seq<ParaBlock>): seq<ParaBlock> {
    if kept == [] then blocks else [ParaBlock(number, kept)] + blocks
  }

  /** The blocks from `lo` up to below `n` can be fetched. */
  predicate Fetchable(chain: Parachain, lo: nat, n: nat) {
    lo <= n <= |chain| && forall b :: lo <= b < n ==> chain[b].Some?
  }

  /** Those of them with undelivered commitments, latest first. */
  function Lost(chain: Parachain, lo: nat, n: nat, delivered: Delivered): seq<ParaBlock>
    requires Fetchable(chain, lo, n)
  {
    if n == lo then []
    else
      var kept := Keep(chain[n - 1].value, delivered);
      Prepend(n - 1, kept, Lost(chain, lo, n - 1, delivered))
  }

  // ----- the code's scan, as functions -----

  function LatestNonce(channel: Channel, delivered: Delivered): nat {
    if channel.Basic? then delivered.basic else delivered.incentivized
  }

  /** Some message of the commitment was delivered. */
  predicate IsRelayed(item: Item, delivered: Delivered)
    requires item.Commitment? && item.payload.Some?
  {
    var nonces := item.payload.value.nonces;
    exists i :: 0 <= i < |nonces| && nonces[i] <= LatestNonce(item.channel, delivered)
  }

  /** Which channels have met a delivered commitment. */
  datatype Found = Found(basic: bool, incentivized: bool) {
    predicate Has(channel: Channel) {
      if channel.Basic? then basic else incentivized
    }
    function Add(channel: Channel): Found {
      if channel.Basic? then this.(basic := true) else this.(incentivized := true)
    }
  }

  datatype Scan = Scan(kept: seq<Item>, found: Found)

  /** One block's items, first to last; None is an error. */
  function ScanItems(items: seq<Item>, delivered: Delivered, found: Found): Option<Scan> {
    if items == [] then Some(Scan([], found))
    else if items[0].Other? || found.Has(items[0].channel) then ScanItems(items[1..], delivered, found)
    else if items[0].payload.None? then None
    else if IsRelayed(items[0], delivered) then ScanItems(items[1..], delivered, found.Add(items[0].channel))
    else
      match ScanItems(items[1..], delivered, found)
      case None => None
      case Some(rest) => Some(Scan([items[0]] + rest.kept, rest.found))
  }

  /** The blocks below `n`, downwards until both channels are found. */
  function SearchFrom(chain: Parachain, n: nat, delivered: Delivered, found: Found): Option<seq<ParaBlock>>
    requires n <= |chain|
    decreases n
  {
    if n == 0 || (found.basic && found.incentivized) then Some([])
    else if chain[n - 1].None? then None
    else
      match ScanItems(chain[n - 1].value, delivered, found)
      case None => None
      case Some(scan) =>
        match SearchFrom(chain, n - 1, delivered, scan.found)
        case None => None
        case Some(blocks) => Some(Prepend(n - 1, scan.kept, blocks))
  }

  // ----- the code -----

  method CheckMessageNonces(nonces: seq<nat>, nonceToFind: nat) returns (isRelayed: bool)
    ensures isRelayed <==> exists i :: 0 <= i < |nonces| && nonces[i] <= nonceToFind
  {
    for i := 0 to |nonces|
      invariant forall k :: 0 <= k < i ==> nonces[k] > nonceToFind
    {
      if nonces[i] <= nonceToFind {
        return true;
      }
    }
    isRelayed := false;
  }

  /** One step of the search. */
  lemma SearchStep(chain: Parachain, n: nat, delivered: Delivered, found: Found)
    requires 0 < n <= |chain| && !(found.basic && found.incentivized)
    ensures SearchFrom(chain, n, delivered, found) ==
            if chain[n - 1].None? then None
            else
              var scan := ScanItems(chain[n - 1].value, delivered, found);
              if scan.None? then None
              else
                var rest := SearchFrom(chain, n - 1, delivered, scan.value.found);
                if rest.None? then None else Some(Prepend(n - 1, scan.value.kept, rest.value))
  {
    hide ScanItems;
  }

  lemma AppendPrepended(blocks: seq<ParaBlock>, number: nat, kept: seq<Item>, rest: seq<ParaBlock>)
    ensures blocks + Prepend(number, kept, rest) ==
            (if kept == [] then blocks else blocks + [ParaBlock(number, kept)]) + rest
  {
    if kept != [] {
      assert blocks + ([ParaBlock(number, kept)] + rest) == blocks + [ParaBlock(number, kept)] + rest;
    }
  }

  method SearchForLostCommitments(chain: Parachain, delivered: Delivered) returns (result: Option<seq<ParaBlock>>)
    ensures result == SearchFrom(chain, |chain|, delivered, Found(false, false))
  {
    hide SearchFrom;
    hide ScanItems;
    hide Prepend;
    var currentBlockNumber: nat := |chain|;
    var basicNonceFound, incentivizedNonceFound := false, false;
    var blocks: seq<ParaBlock> := [];
    ghost var goal := SearchFrom(chain, |chain|, delivered, Found(false, false));
    assert goal.Some? ==> [] + goal.value == goal.value;
    while (!basicNonceFound || !incentivizedNonceFound) && currentBlockNumber != 0
      invariant currentBlockNumber <= |chain|
      invariant
        var rest := SearchFrom(chain, currentBlockNumber, delivered, Found(basicNonceFound, incentivizedNonceFound));
        goal == if rest.None? then None else Some(blocks + rest.value)
      decreases currentBlockNumber
    {
      SearchStep(chain, currentBlockNumber, delivered, Found(basicNonceFound, incentivizedNonceFound));
      currentBlockNumber := currentBlockNumber - 1;
      if chain[currentBlockNumber].None? {
        return None;
      }
      var kept, basic, incentivized, ok := ScanBlock(
        chain[currentBlockNumber].value, delivered, basicNonceFound, incentivizedNonceFound);
      if !ok {
        return None;
      }
      basicNonceFound, incentivizedNonceFound := basic, incentivized;
      ghost var rest := SearchFrom(chain, currentBlockNumber, delivered, Found(basic, incentivized));
      if rest.Some? {
        AppendPrepended(blocks, currentBlockNumber, kept, rest.value);
      }
      if |kept| != 0 {
        blocks := blocks + [ParaBlock(currentBlockNumber, kept)];
      }
    }
    SearchEnds(chain, currentBlockNumber, delivered, Found(basicNonceFound, incentivizedNonceFound));
    assert blocks + [] == blocks;
    result := Some(blocks);
  }

  lemma SearchEnds(chain: Parachain, n: nat, delivered: Delivered, found: Found)
    requires n <= |chain| && (n == 0 || (found.basic && found.incentivized))
    ensures SearchFrom(chain, n, delivered, found) == Some([])
  {
  }

  /** The loop over one block's digest items. */
  method ScanBlock(items: seq<Item>, delivered: Delivered, basicFound: bool, incentivizedFound: bool)
    returns (kept: seq<Item>, basic: bool, incentivized: bool, ok: bool)
    ensures ScanItems(items, delivered, Found(basicFound, incentivizedFound)) ==
            if ok then Some(Scan(kept, Found(basic, incentivized))) else None
  {
    kept, basic, incentivized, ok := [], basicFound, incentivizedFound, true;
    ghost var goal := ScanItems(items, delivered, Found(basicFound, incentivizedFound));
    assert items[0..] == items;
    assert goal.Some? ==> [] + goal.value.kept == goal.value.kept;
    for i := 0 to |items|
      invariant ok
      invariant
        var rest := ScanItems(items[i..], delivered, Found(basic, incentivized));
        goal == if rest.None? then None else Some(Scan(kept + rest.value.kept, rest.value.found))
    {
      var item := items[i];
      assert items[i..][1..] == items[i + 1..];
      if item.Commitment? {
        if (item.channel.Basic? && !basic) || (item.channel.Incentivized? && !incentivized) {
          if item.payload.None? {
            ok := false;
            return;
          }
          var isRelayed := CheckMessageNonces(item.payload.value.nonces, LatestNonce(item.channel, delivered));
          if isRelayed {
            basic, incentivized := basic || item.channel.Basic?, incentivized || item.channel.Incentivized?;
          } else {
            ghost var rest := ScanItems(items[i + 1..], delivered, Found(basic, incentivized));
            assert rest.Some? ==> kept + ([item] + rest.value.kept) == kept + [item] + rest.value.kept;
            kept := kept + [item];
          }
        }
      }
    }
    assert items[|items|..] == [] && kept + [] == kept;
  }

  // ----- the search is complete -----

  /** Every nonce of `earlier` is below every nonce of `later`. */
  predicate Precedes(earlier: Item, later: Item)
    requires earlier.Commitment? && earlier.payload.Some? && later.Commitment? && later.payload.Some?
  {
    var a := earlier.payload.value.nonces;
    var b := later.payload.value.nonces;
    forall i, j :: 0 <= i < |a| && 0 <= j < |b| ==> a[i] < b[j]
  }

  /** Every commitment can be read and has messages. */
  predicate Readable(items: seq<Item>) {
    forall i :: 0 <= i < |items| && items[i].Commitment? ==>
      items[i].payload.Some? && items[i].payload.value.nonces != []
  }

  predicate SameChannel(a: Item, b: Item) {
    a.Commitment? && b.Commitment? && a.channel == b.channel
  }

  predicate BlockPrecedes(earlier: seq<Item>, later: seq<Item>)
    requires Readable(earlier) && Readable(later)
  {
    forall i, j | 0 <= i < |earlier| && 0 <= j < |later| ::
      SameChannel(earlier[i], later[j]) ==> Precedes(earlier[i], later[j])
  }

  /** From block `lo` on the chain is readable and each channel's nonces increase from block to block.  A block may hold
      any number of commitments of a channel. */
  ghost predicate RisingFrom(chain: Parachain, lo: nat) {
    && Fetchable(chain, lo, |chain|)
    && (forall b :: lo <= b < |chain| ==> Readable(chain[b].value))
    && (forall b, c :: lo <= b < c < |chain| ==> BlockPrecedes(chain[b].value, chain[c].value))
  }

  /** An undelivered commitment stands behind a delivered one of its channel. */
  ghost predicate Split(items: seq<Item>, delivered: Delivered) {
    exists i, j :: 0 <= i < j < |items| && SameChannel(items[i], items[j])
                   && !Undelivered(items[i], delivered) && Undelivered(items[j], delivered)
  }

  /** Nothing undelivered is left for the channels in `found`. */
  ghost predicate Spent(items: seq<Item>, delivered: Delivered, found: Found) {
    forall i :: 0 <= i < |items| && items[i].Commitment? && found.Has(items[i].channel) ==>
      !Undelivered(items[i], delivered)
  }

  /** The block has a delivered commitment of the channel. */
  ghost predicate Meets(items: seq<Item>, delivered: Delivered, channel: Channel) {
    exists i :: 0 <= i < |items| && items[i].Commitment? && items[i].channel == channel
                && items[i].payload.Some? && !Undelivered(items[i], delivered)
  }

  /** `found` after the first item. */
  function FoundAfter(item: Item, delivered: Delivered, found: Found): Found
  {
    if item.Commitment? && !found.Has(item.channel) && item.payload.Some? && IsRelayed(item, delivered)
    then found.Add(item.channel) else found
  }

  /** A scan that starts with `found` misses an undelivered commitment. */
  ghost predicate Misses(items: seq<Item>, delivered: Delivered, found: Found) {
    exists j :: 0 <= j < |items| && Undelivered(items[j], delivered)
                && (found.Has(items[j].channel) || Meets(items[..j], delivered, items[j].channel))
  }

  lemma MissesFirst(items: seq<Item>, delivered: Delivered, found: Found)
    requires Readable(items) && items != []
    ensures Misses(items, delivered, found) <==>
            || (Undelivered(items[0], delivered) && found.Has(items[0].channel))
            || Misses(items[1..], delivered, FoundAfter(items[0], delivered, found))
  {
    var rest := items[1..];
    var found' := FoundAfter(items[0], delivered, found);
    forall j | 0 < j < |items| && Undelivered(items[j], delivered)
      ensures found.Has(items[j].channel) || Meets(items[..j], delivered, items[j].channel) <==>
              found'.Has(items[j].channel) || Meets(rest[..j - 1], delivered, items[j].channel)
    {
      MeetsFirst(items[..j], delivered, items[j].channel);
      assert items[..j][1..] == rest[..j - 1];
    }
    if Misses(items, delivered, found) {
      var j :| 0 <= j < |items| && Undelivered(items[j], delivered)
               && (found.Has(items[j].channel) || Meets(items[..j], delivered, items[j].channel));
      if j > 0 {
        assert rest[j - 1] == items[j];
      }
    }
    if Misses(rest, delivered, found') {
      var k :| 0 <= k < |rest| && Undelivered(rest[k], delivered)
               && (found'.Has(rest[k].channel) || Meets(rest[..k], delivered, rest[k].channel));
      assert items[k + 1] == rest[k];
    }
  }

  lemma MeetsFirst(items: seq<Item>, delivered: Delivered, channel: Channel)
    requires items != []
    ensures Meets(items, delivered, channel) <==>
            || (items[0].Commitment? && items[0].channel == channel && items[0].payload.Some?
                && !Undelivered(items[0], delivered))
            || Meets(items[1..], delivered, channel)
  {
    if Meets(items[1..], delivered, channel) {
      var i :| 0 <= i < |items[1..]| && items[1..][i].Commitment? && items[1..][i].channel == channel
               && items[1..][i].payload.Some? && !Undelivered(items[1..][i], delivered);
      assert items[i + 1] == items[1..][i];
    }
    if Meets(items, delivered, channel) {
      var i :| 0 <= i < |items| && items[i].Commitment? && items[i].channel == channel
               && items[i].payload.Some? && !Undelivered(items[i], delivered);
      assert i > 0 ==> items[1..][i - 1] == items[i];
    }
  }

  /** Scanning a readable block keeps what is undelivered, unless it misses something and then keeps less; it finds
      the channels of what is delivered. */
  lemma {:induction false} ScanExact(items: seq<Item>, delivered: Delivered, found: Found)
    requires Readable(items)
    ensures
      var scan := ScanItems(items, delivered, found);
      && scan.Some?
      && (if Misses(items, delivered, found) then |scan.value.kept| < |Keep(items, delivered)|
          else scan.value.kept == Keep(items, delivered))
      && (forall channel :: scan.value.found.Has(channel) <==>
            found.Has(channel) || Meets(items, delivered, channel))
  {
    if items != [] {
      var found' := FoundAfter(items[0], delivered, found);
      MissesFirst(items, delivered, found);
      forall channel
        ensures found'.Has(channel) || Meets(items[1..], delivered, channel) <==>
                found.Has(channel) || Meets(items, delivered, channel)
      {
        MeetsFirst(items, delivered, channel);
      }
      ScanExact(items[1..], delivered, found');
      hide Meets;
      hide Misses;
    }
  }

  // ----- when the search fails -----

  /** A commitment that cannot be read stands where its channel has not met a delivered one. */
  ghost predicate Stuck(items: seq<Item>, delivered: Delivered, found: Found) {
    exists i :: 0 <= i < |items| && items[i].Commitment? && items[i].payload.None?
                && !found.Has(items[i].channel) && !Meets(items[..i], delivered, items[i].channel)
  }

  lemma StuckFirst(items: seq<Item>, delivered: Delivered, found: Found)
    requires items != []
    ensures Stuck(items, delivered, found) <==>
            || (items[0].Commitment? && items[0].payload.None? && !found.Has(items[0].channel))
            || Stuck(items[1..], delivered, FoundAfter(items[0], delivered, found))
  {
    var rest := items[1..];
    var found' := FoundAfter(items[0], delivered, found);
    forall i | 0 < i < |items| && items[i].Commitment?
      ensures found.Has(items[i].channel) || Meets(items[..i], delivered, items[i].channel) <==>
              found'.Has(items[i].channel) || Meets(rest[..i - 1], delivered, items[i].channel)
    {
      MeetsFirst(items[..i], delivered, items[i].channel);
      assert items[..i][1..] == rest[..i - 1];
    }
    hide FoundAfter;
    if i :| 0 <= i < |items| && items[i].Commitment? && items[i].payload.None?
            && !found.Has(items[i].channel) && !Meets(items[..i], delivered, items[i].channel) && i > 0 {
      assert rest[i - 1] == items[i];
    }
    if k :| 0 <= k < |rest| && rest[k].Commitment? && rest[k].payload.None?
            && !found'.Has(rest[k].channel) && !Meets(rest[..k], delivered, rest[k].channel) {
      assert items[k + 1] == rest[k];
    }
    assert items[..0] == [];
  }

  /** A scan fails exactly where it is stuck, and otherwise finds the channels of what is delivered. */
  lemma {:induction false} ScanFails(items: seq<Item>, delivered: Delivered, found: Found)
    ensures
      var scan := ScanItems(items, delivered, found);
      && (scan.None? <==> Stuck(items, delivered, found))
      && (scan.Some? ==> forall channel :: scan.value.found.Has(channel) <==>
                           found.Has(channel) || Meets(items, delivered, channel))
  {
    if items != [] {
      var found' := FoundAfter(items[0], delivered, found);
      StuckFirst(items, delivered, found);
      forall channel
        ensures found'.Has(channel) || Meets(items[1..], delivered, channel) <==>
                found.Has(channel) || Meets(items, delivered, channel)
      {
        MeetsFirst(items, delivered, channel);
      }
      ScanFails(items[1..], delivered, found');
      hide Meets;
      hide Stuck;
    }
  }

  /** Some block that can be fetched, from `lo` up to below `n`, has a delivered commitment of the channel. */
  ghost predicate MetIn(chain: Parachain, lo: nat, n: nat, delivered: Delivered, channel: Channel)
    requires n <= |chain|
  {
    exists b :: lo <= b < n && chain[b].Some? && Meets(chain[b].value, delivered, channel)
  }

  /** The channels found before block `b` is looked at. */
  ghost function FoundBefore(chain: Parachain, b: nat, n: nat, delivered: Delivered, found: Found): Found
    requires n <= |chain|
  {
    Found(found.basic || MetIn(chain, b + 1, n, delivered, Basic),
          found.incentivized || MetIn(chain, b + 1, n, delivered, Incentivized))
  }

  /** The search gets to block `b` and cannot read what it needs there. */
  ghost predicate StuckAt(chain: Parachain, b: nat, n: nat, delivered: Delivered, found: Found)
    requires b < n <= |chain|
  {
    var before := FoundBefore(chain, b, n, delivered, found);
    !(before.basic && before.incentivized) && (chain[b].None? || Stuck(chain[b].value, delivered, before))
  }

  lemma FoundBeforeNext(chain: Parachain, b: nat, n: nat, delivered: Delivered, found: Found, found': Found)
    requires b + 1 < n <= |chain| && chain[n - 1].Some?
    requires forall channel :: found'.Has(channel) <==>
               found.Has(channel) || Meets(chain[n - 1].value, delivered, channel)
    ensures FoundBefore(chain, b, n, delivered, found) == FoundBefore(chain, b, n - 1, delivered, found')
  {
    hide Meets;
    assert found'.Has(Basic) == found'.basic && found'.Has(Incentivized) == found'.incentivized;
    MetInStep(chain, b + 1, n, delivered, Basic);
    MetInStep(chain, b + 1, n, delivered, Incentivized);
  }

  lemma MetInStep(chain: Parachain, lo: nat, n: nat, delivered: Delivered, channel: Channel)
    requires lo < n <= |chain| && chain[n - 1].Some?
    ensures MetIn(chain, lo, n, delivered, channel) <==>
            MetIn(chain, lo, n - 1, delivered, channel) || Meets(chain[n - 1].value, delivered, channel)
  {
  }

  /** On any chain at all the search fails exactly if it gets to a block that cannot be fetched, or to a commitment that
      cannot be read on a channel that it is still searching. */
  lemma {:induction false} SearchFailsExactly(chain: Parachain, n: nat, delivered: Delivered, found: Found)
    requires n <= |chain|
    ensures SearchFrom(chain, n, delivered, found).None? <==>
            exists b :: 0 <= b < n && StuckAt(chain, b, n, delivered, found)
    decreases n
  {
    hide ScanItems;
    hide Stuck;
    hide Meets;
    if n > 0 {
      assert FoundBefore(chain, n - 1, n, delivered, found) == found;
      if found.basic && found.incentivized {
        SearchEnds(chain, n, delivered, found);
      } else {
        SearchStep(chain, n, delivered, found);
        hide SearchFrom;
        assert chain[n - 1].None? ==> StuckAt(chain, n - 1, n, delivered, found);
        if chain[n - 1].Some? {
          ScanFails(chain[n - 1].value, delivered, found);
          var scan := ScanItems(chain[n - 1].value, delivered, found);
          assert scan.None? <==> StuckAt(chain, n - 1, n, delivered, found);
          if scan.Some? {
            SearchFailsExactly(chain, n - 1, delivered, scan.value.found);
            StuckBelow(chain, n, delivered, found, scan.value.found);
            hide StuckAt;
            var m := n - 1;
            if b :| 0 <= b < m && StuckAt(chain, b, m, delivered, scan.value.found) {
              assert StuckAt(chain, b, n, delivered, found);
            }
          }
        }
      }
    }
  }

  lemma StuckBelow(chain: Parachain, n: nat, delivered: Delivered, found: Found, found': Found)
    requires 0 < n <= |chain| && chain[n - 1].Some?
    requires forall channel :: found'.Has(channel) <==>
               found.Has(channel) || Meets(chain[n - 1].value, delivered, channel)
    ensures forall b :: 0 <= b < n - 1 ==>
              (StuckAt(chain, b, n, delivered, found) <==> StuckAt(chain, b, n - 1, delivered, found'))
  {
    hide Meets;
    hide Stuck;
    hide FoundBefore;
    forall b | 0 <= b < n - 1
      ensures StuckAt(chain, b, n, delivered, found) <==> StuckAt(chain, b, n - 1, delivered, found')
    {
      FoundBeforeNext(chain, b, n, delivered, found, found');
    }
  }

  /** For a block in which the found channels have nothing left, missing something is a split. */
  lemma SpentMissesSplit(items: seq<Item>, delivered: Delivered, found: Found)
    requires Readable(items) && Spent(items, delivered, found)
    ensures Misses(items, delivered, found) <==> Split(items, delivered)
  {
    if Misses(items, delivered, found) {
      var j :| 0 <= j < |items| && Undelivered(items[j], delivered)
               && (found.Has(items[j].channel) || Meets(items[..j], delivered, items[j].channel));
      var i :| 0 <= i < |items[..j]| && items[..j][i].Commitment? && items[..j][i].channel == items[j].channel
               && items[..j][i].payload.Some? && !Undelivered(items[..j][i], delivered);
      assert SameChannel(items[i], items[j]);
    }
    if Split(items, delivered) {
      var i, j :| 0 <= i < j < |items| && SameChannel(items[i], items[j])
                  && !Undelivered(items[i], delivered) && Undelivered(items[j], delivered);
      assert items[..j][i] == items[i];
    }
  }

  ghost predicate SpentBelow(chain: Parachain, lo: nat, n: nat, delivered: Delivered, found: Found)
    requires Fetchable(chain, lo, n)
  {
    forall b :: lo <= b < n ==> Spent(chain[b].value, delivered, found)
  }

  /** Some block from `lo` up to below `n` has a delivered commitment of the channel. */
  ghost predicate MeetsFrom(chain: Parachain, lo: nat, n: nat, delivered: Delivered, channel: Channel)
    requires Fetchable(chain, lo, n)
  {
    exists b :: lo <= b < n && Meets(chain[b].value, delivered, channel)
  }

  /** The search stops at `lo` at the latest: that is the first block, or by then both channels are found. */
  ghost predicate StopsAt(chain: Parachain, lo: nat, n: nat, delivered: Delivered, found: Found)
    requires Fetchable(chain, lo, n)
  {
    lo == 0 || forall channel :: found.Has(channel) || MeetsFrom(chain, lo, n, delivered, channel)
  }

  lemma StopsNext(chain: Parachain, lo: nat, n: nat, delivered: Delivered, found: Found, found': Found)
    requires Fetchable(chain, lo, n) && lo < n && StopsAt(chain, lo, n, delivered, found)
    requires forall channel :: found.Has(channel) || Meets(chain[n - 1].value, delivered, channel) ==>
               found'.Has(channel)
    ensures StopsAt(chain, lo, n - 1, delivered, found')
  {
    hide Meets;
    forall channel | lo > 0 && !found'.Has(channel)
      ensures MeetsFrom(chain, lo, n - 1, delivered, channel)
    {
      var b :| lo <= b < n && Meets(chain[b].value, delivered, channel);
      assert b < n - 1;
    }
  }

  /** Below a delivered commitment everything on its channel is delivered. */
  lemma FoundIsSpent(chain: Parachain, lo: nat, n: nat, delivered: Delivered, found: Found, found': Found)
    requires RisingFrom(chain, lo) && lo < n <= |chain| && SpentBelow(chain, lo, n, delivered, found)
    requires forall channel :: found'.Has(channel) ==>
               || found.Has(channel)
               || Meets(chain[n - 1].value, delivered, channel)
    ensures SpentBelow(chain, lo, n - 1, delivered, found')
  {
    forall b, j | lo <= b < n - 1 && 0 <= j < |chain[b].value|
                  && chain[b].value[j].Commitment? && found'.Has(chain[b].value[j].channel)
      ensures !Undelivered(chain[b].value[j], delivered)
    {
      var item := chain[b].value[j];
      assert Spent(chain[b].value, delivered, found);
      if !found.Has(item.channel) {
        var items := chain[n - 1].value;
        var i :| 0 <= i < |items| && items[i].Commitment? && items[i].channel == item.channel
                 && items[i].payload.Some? && !Undelivered(items[i], delivered);
        assert BlockPrecedes(chain[b].value, items) && SameChannel(item, items[i]);
        EarlierIsRelayed(item, items[i], delivered);
      }
    }
  }

  lemma EarlierIsRelayed(earlier: Item, later: Item, delivered: Delivered)
    requires earlier.Commitment? && earlier.payload.Some? && later.Commitment? && later.payload.Some?
    requires earlier.channel == later.channel && earlier.payload.value.nonces != []
    requires Precedes(earlier, later) && IsRelayed(later, delivered)
    ensures IsRelayed(earlier, delivered)
  {
    var nonces := later.payload.value.nonces;
    var j :| 0 <= j < |nonces| && nonces[j] <= LatestNonce(later.channel, delivered);
    assert earlier.payload.value.nonces[0] < nonces[j];
  }

  lemma {:induction false} SpentKeepsNothing(items: seq<Item>, delivered: Delivered, found: Found)
    requires found.basic && found.incentivized && Spent(items, delivered, found)
    ensures Keep(items, delivered) == []
  {
    if items != [] {
      assert forall i :: 0 <= i < |items[1..]| ==> items[1..][i] == items[i + 1];
      SpentKeepsNothing(items[1..], delivered, found);
    }
  }

  /** How many commitments the blocks hold. */
  function Count(blocks: seq<ParaBlock>): nat {
    if blocks == [] then 0 else |blocks[0].items| + Count(blocks[1..])
  }

  lemma CountPrepend(number: nat, kept: seq<Item>, blocks: seq<ParaBlock>)
    ensures Count(Prepend(number, kept, blocks)) == |kept| + Count(blocks)
  {
    assert kept != [] ==> Prepend(number, kept, blocks)[1..] == blocks;
  }

  ghost predicate SplitBelow(chain: Parachain, lo: nat, n: nat, delivered: Delivered)
    requires Fetchable(chain, lo, n)
  {
    exists b :: lo <= b < n && Split(chain[b].value, delivered)
  }

  /** The search below `n` finds everything from `lo` on, or less if some block is split. */
  lemma {:induction false} SearchExact(chain: Parachain, lo: nat, n: nat, delivered: Delivered, found: Found)
    requires RisingFrom(chain, lo) && lo <= n <= |chain| && SpentBelow(chain, lo, n, delivered, found)
    requires StopsAt(chain, lo, n, delivered, found)
    ensures
      var blocks := SearchFrom(chain, n, delivered, found);
      && blocks.Some?
      && (if SplitBelow(chain, lo, n, delivered) then Count(blocks.value) < Count(Lost(chain, lo, n, delivered))
          else blocks.value == Lost(chain, lo, n, delivered))
    decreases n
  {
    hide SearchFrom;
    hide ScanItems;
    hide Lost;
    hide Keep;
    hide Prepend;
    hide Split;
    hide Misses;
    if n == lo {
      AllFound(chain, lo, delivered, found);
    } else {
      var items := chain[n - 1].value;
      assert Spent(items, delivered, found);
      SpentMissesSplit(items, delivered, found);
      SplitBelowStep(chain, lo, n, delivered);
      LostStep(chain, lo, n, delivered);
      if found.basic && found.incentivized {
        SpentKeepsNothing(items, delivered, found);
        AllSpent(items, delivered, found);
        SearchExact(chain, lo, n - 1, delivered, found);
        SearchEnds(chain, n, delivered, found);
        SearchEnds(chain, n - 1, delivered, found);
        PrependNothing(n - 1, Lost(chain, lo, n - 1, delivered));
      } else {
        ScanExact(items, delivered, found);
        SearchStep(chain, n, delivered, found);
        var scan := ScanItems(items, delivered, found).value;
        FoundIsSpent(chain, lo, n, delivered, found, scan.found);
        StopsNext(chain, lo, n, delivered, found, scan.found);
        hide StopsAt;
        hide SpentBelow;
        hide SplitBelow;
        SearchExact(chain, lo, n - 1, delivered, scan.found);
        CountPrepend(n - 1, scan.kept, SearchFrom(chain, n - 1, delivered, scan.found).value);
        CountPrepend(n - 1, Keep(items, delivered), Lost(chain, lo, n - 1, delivered));
      }
    }
  }

  lemma LostStep(chain: Parachain, lo: nat, n: nat, delivered: Delivered)
    requires Fetchable(chain, lo, n)
    ensures Lost(chain, lo, n, delivered) ==
            if n == lo then []
            else Prepend(n - 1, Keep(chain[n - 1].value, delivered), Lost(chain, lo, n - 1, delivered))
  {
  }

  lemma PrependNothing(number: nat, blocks: seq<ParaBlock>)
    ensures Prepend(number, [], blocks) == blocks
  {
  }

  lemma AllFound(chain: Parachain, lo: nat, delivered: Delivered, found: Found)
    requires Fetchable(chain, lo, lo) && StopsAt(chain, lo, lo, delivered, found)
    ensures SearchFrom(chain, lo, delivered, found) == Some([]) && Lost(chain, lo, lo, delivered) == []
    ensures !SplitBelow(chain, lo, lo, delivered)
  {
    assert lo > 0 ==> found.Has(Basic) && found.Has(Incentivized);
  }

  lemma SplitBelowStep(chain: Parachain, lo: nat, n: nat, delivered: Delivered)
    requires Fetchable(chain, lo, n) && lo < n
    ensures SplitBelow(chain, lo, n, delivered) <==>
            SplitBelow(chain, lo, n - 1, delivered) || Split(chain[n - 1].value, delivered)
  {
  }

  lemma AllSpent(items: seq<Item>, delivered: Delivered, found: Found)
    requires found.basic && found.incentivized && Spent(items, delivered, found)
    ensures !Split(items, delivered)
  {
  }

  /** Both channels have a delivered commitment in the blocks from `lo` on, unless `lo` is the first block. */
  ghost predicate Settles(chain: Parachain, lo: nat, delivered: Delivered)
    requires Fetchable(chain, lo, |chain|)
  {
    lo == 0 || forall channel :: MeetsFrom(chain, lo, |chain|, delivered, channel)
  }

  /** Completeness, exactly: on a chain that is readable with rising nonces from `lo` on, and settles there, the search
      that stops early finds what the full scan finds if and only if no block has an undelivered commitment behind a
      delivered one of its channel.  Otherwise it finds less. */
  lemma SearchIsComplete(chain: Parachain, lo: nat, delivered: Delivered)
    requires RisingFrom(chain, lo) && Settles(chain, lo, delivered)
    ensures
      var found := SearchFrom(chain, |chain|, delivered, Found(false, false));
      var lost := Lost(chain, lo, |chain|, delivered);
      && found.Some?
      && (found.value == lost <==> forall b :: lo <= b < |chain| ==> !Split(chain[b].value, delivered))
      && (found.value != lost ==> Count(found.value) < Count(lost))
  {
    SearchExact(chain, lo, |chain|, delivered, Found(false, false));
  }

  /** A split block: the first commitment was delivered, the second was not, and the search finds nothing. */
  lemma SecondCommitmentLost(h: H256, data: Bytes)
    ensures
      var first := Commitment(Basic, h, Some(Payload([1], data)));
      var second := Commitment(Basic, h, Some(Payload([2], data)));
      && SearchFrom([Some([first, second])], 1, Delivered(1, 0), Found(false, false)) == Some([])
      && Undelivered(second, Delivered(1, 0))
  {
    var first := Commitment(Basic, h, Some(Payload([1], data)));
    var second := Commitment(Basic, h, Some(Payload([2], data)));
    assert first.payload.value.nonces[0] == 1;
    assert [first, second][1..] == [second] && [second][1..] == [];
    assert IsRelayed(first, Delivered(1, 0));
    assert ScanItems([second], Delivered(1, 0), Found(true, false)) == Some(Scan([], Found(true, false)));
    assert ScanItems([first, second], Delivered(1, 0), Found(false, false)) == Some(Scan([], Found(true, false)));
  }
}
