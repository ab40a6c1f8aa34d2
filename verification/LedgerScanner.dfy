/**
 * The liquidity bot's wallet: a scanner that follows the ledger in chunks, can be restarted from
 * its saved state, and tracks the outputs received and not yet spent.
 */
module LedgerScanner {
  import opened Basics
  import opened Quotes
  import opened Ledgers

  datatype MatchedTxOut = MatchedTxOut(
    blockIndex: nat,
    txOut: TxOut,
    amount: Amount,
    subaddressIndex: u64,
    keyImage: KeyImage)

  datatype WalletEvent = BlockProcessed(
    blockIndex: nat,
    receivedTxOuts: seq<MatchedTxOut>,
    spentTxOuts: seq<MatchedTxOut>)

  type Held = map<KeyImage, MatchedTxOut>

  datatype WalletState = WalletState(nextBlockIndex: nat, matchedTxOuts: Held)

  /** View-key scanning of one output of a block: not ours, ours, or an error (`Err`). */
  type ViewKeyScan = (nat, TxOut) -> Result<Option<MatchedTxOut>, nat>

  const SCAN_CHUNK_SIZE: nat := 1000

  // ---------------------------------------------------------------------------------------------
  // Block by block
  // ---------------------------------------------------------------------------------------------

  /** The outputs of a block that are ours, in order, or the first scanning error. */
  function Scan(scan: ViewKeyScan, blockIndex: nat, outputs: seq<TxOut>): Result<seq<MatchedTxOut>, nat> {
    if outputs == [] then Ok([])
    else
      var rest := Scan(scan, blockIndex, outputs[..|outputs| - 1]);
      if rest.Err? then rest
      else
        var last := scan(blockIndex, outputs[|outputs| - 1]);
        if last.Err? then Err(last.error)
        else if last.value.Some? then Ok(rest.value + [last.value.value])
        else rest
  }

  /** Every output can be scanned. */
  predicate AllScan(scan: ViewKeyScan, blockIndex: nat, outputs: seq<TxOut>) {
    forall i :: 0 <= i < |outputs| ==> scan(blockIndex, outputs[i]).Ok?
  }

  /** The `i`-th output is the first that cannot be scanned. */
  ghost predicate FirstError(scan: ViewKeyScan, blockIndex: nat, outputs: seq<TxOut>, i: nat, e: nat) {
    i < |outputs| && scan(blockIndex, outputs[i]) == Err(e) && AllScan(scan, blockIndex, outputs[..i])
  }

  /** The output with this match is among the outputs. */
  ghost predicate MatchedIn(scan: ViewKeyScan, blockIndex: nat, outputs: seq<TxOut>, m: MatchedTxOut) {
    exists i :: 0 <= i < |outputs| && scan(blockIndex, outputs[i]) == Ok(Some(m))
  }

  /** Scanning goes through if and only if every output scans, and otherwise gives the first error. */
  lemma {:induction false} ScanErrors(scan: ViewKeyScan, blockIndex: nat, outputs: seq<TxOut>)
    ensures var r := Scan(scan, blockIndex, outputs);
            && (r.Ok? <==> AllScan(scan, blockIndex, outputs))
            && (r.Err? ==> exists i: nat :: FirstError(scan, blockIndex, outputs, i, r.error))
  {
    if outputs != [] {
      var n := |outputs| - 1;
      var rest := Scan(scan, blockIndex, outputs[..n]);
      ScanErrors(scan, blockIndex, outputs[..n]);
      assert outputs == outputs[..n] + [outputs[n]];
      if rest.Err? {
        var i: nat :| FirstError(scan, blockIndex, outputs[..n], i, rest.error);
        assert outputs[..n][..i] == outputs[..i];
        assert FirstError(scan, blockIndex, outputs, i, rest.error);
      } else if scan(blockIndex, outputs[n]).Err? {
        assert FirstError(scan, blockIndex, outputs, n, scan(blockIndex, outputs[n]).error);
      }
    }
  }

  /** What it gives is every match. */
  lemma {:induction false} ScanMatches(scan: ViewKeyScan, blockIndex: nat, outputs: seq<TxOut>, m: MatchedTxOut)
    requires Scan(scan, blockIndex, outputs).Ok?
    ensures m in Scan(scan, blockIndex, outputs).value <==> MatchedIn(scan, blockIndex, outputs, m)
  {
    if outputs != [] {
      var n := |outputs| - 1;
      ScanMatches(scan, blockIndex, outputs[..n], m);
      MatchedInOneMore(scan, blockIndex, outputs[..n], outputs[n], m);
      assert outputs == outputs[..n] + [outputs[n]];
    }
  }

  lemma MatchedInOneMore(scan: ViewKeyScan, blockIndex: nat, outputs: seq<TxOut>, o: TxOut, m: MatchedTxOut)
    ensures MatchedIn(scan, blockIndex, outputs + [o], m)
       <==> MatchedIn(scan, blockIndex, outputs, m) || scan(blockIndex, o) == Ok(Some(m))
  {
    var longer := outputs + [o];
    assert longer[|outputs|] == o;
    if i :| 0 <= i < |outputs| && scan(blockIndex, outputs[i]) == Ok(Some(m)) { assert longer[i] == outputs[i]; }
  }

  /** In the order of the outputs: the matches of two stretches are those of the first, then those of the second. */
  lemma {:induction false} ScanInOrder(scan: ViewKeyScan, blockIndex: nat, a: seq<TxOut>, b: seq<TxOut>)
    requires Scan(scan, blockIndex, a).Ok? && Scan(scan, blockIndex, b).Ok?
    ensures Scan(scan, blockIndex, a + b) == Ok(Scan(scan, blockIndex, a).value + Scan(scan, blockIndex, b).value)
  {
    if b == [] {
      assert a + b == a && Scan(scan, blockIndex, a).value + [] == Scan(scan, blockIndex, a).value;
    } else {
      var n := |b| - 1;
      ScanInOrder(scan, blockIndex, a, b[..n]);
      assert (a + b)[..|a + b| - 1] == a + b[..n];
      var first, second := Scan(scan, blockIndex, a).value, Scan(scan, blockIndex, b[..n]).value;
      var last := scan(blockIndex, b[n]);
      if last.value.Some? { assert first + (second + [last.value.value]) == (first + second) + [last.value.value]; }
    }
  }

  /** What block `j` brings us. */
  function Received(scan: ViewKeyScan, ledger: Ledger, j: nat): seq<MatchedTxOut>
    requires j < |ledger|
  {
    var r := Scan(scan, j, ledger[j].outputs);
    if r.Ok? then r.value else []
  }

  /** The held outputs that a list of key images spends, in the order of the list, each once. */
  function Spent(held: Held, keyImages: seq<KeyImage>): seq<MatchedTxOut> {
    if keyImages == [] then []
    else
      var prefix, k := keyImages[..|keyImages| - 1], keyImages[|keyImages| - 1];
      Spent(held, prefix) + if k in held && k !in prefix then [held[k]] else []
  }

  function Without(held: Held, keyImages: seq<KeyImage>): Held {
    map k | k in held && k !in keyImages :: held[k]
  }

  function WithReceived(held: Held, received: seq<MatchedTxOut>): Held {
    if received == [] then held
    else
      var last := received[|received| - 1];
      WithReceived(held, received[..|received| - 1])[last.keyImage := last]
  }

  /** The outputs held before block `n`, scanning one block after another from `first`. */
  function Fold(scan: ViewKeyScan, ledger: Ledger, first: nat, n: nat): Held
    requires n <= first || n <= |ledger|
    decreases n
  {
    if n <= first then map[]
    else WithReceived(Without(Fold(scan, ledger, first, n - 1), ledger[n - 1].keyImages), Received(scan, ledger, n - 1))
  }

  /** The event for block `j`. */
  function EventOf(scan: ViewKeyScan, ledger: Ledger, first: nat, j: nat): WalletEvent
    requires first <= j < |ledger|
  {
    BlockProcessed(j, Received(scan, ledger, j), Spent(Fold(scan, ledger, first, j), ledger[j].keyImages))
  }

  /** One event for each of the blocks from `start` to before `n`, in order. */
  ghost predicate AreEvents(events: seq<WalletEvent>, scan: ViewKeyScan, ledger: Ledger, first: nat, start: nat, n: nat)
  {
    && first <= start <= n && |events| == n - start && (start < n ==> n <= |ledger|)
    && forall i :: 0 <= i < |events| ==> events[i] == EventOf(scan, ledger, first, start + i)
  }

  lemma {:induction false} FoldStable(scan: ViewKeyScan, ledger: Ledger, more: Ledger, first: nat, n: nat)
    requires n <= first || n <= |ledger|
    ensures Fold(scan, ledger + more, first, n) == Fold(scan, ledger, first, n)
    decreases n
  {
    if first < n {
      FoldStable(scan, ledger, more, first, n - 1);
      assert (ledger + more)[n - 1] == ledger[n - 1];
    }
  }

  lemma EventStable(scan: ViewKeyScan, ledger: Ledger, more: Ledger, first: nat, j: nat)
    requires first <= j < |ledger|
    ensures EventOf(scan, ledger + more, first, j) == EventOf(scan, ledger, first, j)
  {
    FoldStable(scan, ledger, more, first, j);
    assert (ledger + more)[j] == ledger[j];
  }

  lemma EventsStable(events: seq<WalletEvent>, scan: ViewKeyScan, ledger: Ledger, more: Ledger, first: nat,
                     start: nat, n: nat)
    requires AreEvents(events, scan, ledger, first, start, n)
    ensures AreEvents(events, scan, ledger + more, first, start, n)
  {
    forall i | 0 <= i < |events| ensures events[i] == EventOf(scan, ledger + more, first, start + i) {
      EventStable(scan, ledger, more, first, start + i);
    }
  }

  lemma EventsExtend(events: seq<WalletEvent>, event: WalletEvent, scan: ViewKeyScan, ledger: Ledger, first: nat,
                     start: nat, n: nat)
    requires AreEvents(events, scan, ledger, first, start, n)
    requires n < |ledger| && event == EventOf(scan, ledger, first, n)
    ensures AreEvents(events + [event], scan, ledger, first, start, n + 1)
  {
  }

  // ---------------------------------------------------------------------------------------------
  // The scanner
  // ---------------------------------------------------------------------------------------------

  /** No output of block `j` fails to scan. */
  predicate Scans(scan: ViewKeyScan, ledger: Ledger, j: nat)
    requires j < |ledger|
  {
    AllScan(scan, j, ledger[j].outputs)
  }

  predicate ScansThrough(scan: ViewKeyScan, ledger: Ledger, first: nat, last: nat)
    requires last <= |ledger| || last <= first
  {
    forall j: nat :: first <= j < last ==> Scans(scan, ledger, j)
  }

  /** Where a chunk of blocks from `next` on ends. */
  function ChunkEnd(ledger: Ledger, next: nat): (last: nat)
    ensures next <= last && (last <= |ledger| || last == next)
  {
    if next <= |ledger| then Min(|ledger|, next + SCAN_CHUNK_SIZE) else next
  }

  datatype ScannedBlock = ScannedBlock(blockIndex: nat, matchedTxOuts: seq<MatchedTxOut>, keyImages: seq<KeyImage>)

  /** The result of scanning block `j`. */
  function Scanned(scan: ViewKeyScan, ledger: Ledger, j: nat): ScannedBlock
    requires j < |ledger|
  {
    ScannedBlock(j, Received(scan, ledger, j), ledger[j].keyImages)
  }

  class AccountLedgerScanner {
    var ledger: Ledger
    const scan: ViewKeyScan
    const defaultFirstBlockIndex: nat
    var nextBlockIndex: nat
    var matchedTxOuts: Held
    var stateFile: Option<WalletState>
    var events: seq<WalletEvent>
    var sessionStart: nat

    /** A state is the fold over the blocks up to its own index. */
    ghost predicate IsFold(next: nat, held: Held)
      reads this
    {
      && defaultFirstBlockIndex <= next && (defaultFirstBlockIndex < next ==> next <= |ledger|)
      && held == Fold(scan, ledger, defaultFirstBlockIndex, next)
    }

    /**
     * The state in memory and the saved one are folds, and this session's events are one per block,
     * in order, from the block it started at.
     */
    ghost predicate Valid()
      reads this
    {
      && IsFold(nextBlockIndex, matchedTxOuts)
      && (stateFile.Some? ==> IsFold(stateFile.value.nextBlockIndex, stateFile.value.matchedTxOuts))
      && AreEvents(events, scan, ledger, defaultFirstBlockIndex, sessionStart, nextBlockIndex)
    }

    ghost predicate IsAt(m: Marks)
      reads this
    {
      && ledger == m.ledger && nextBlockIndex == m.next && sessionStart == m.session
      && m.saved == (if stateFile.Some? then Some(stateFile.value.nextBlockIndex) else None)
    }

    constructor (ledger: Ledger, scan: ViewKeyScan, defaultFirstBlockIndex: nat)
      ensures Valid() && this.scan == scan && this.defaultFirstBlockIndex == defaultFirstBlockIndex
      ensures IsAt(Marks(ledger, defaultFirstBlockIndex, None, defaultFirstBlockIndex))
    {
      this.ledger, this.scan, this.defaultFirstBlockIndex := ledger, scan, defaultFirstBlockIndex;
      nextBlockIndex, sessionStart := defaultFirstBlockIndex, defaultFirstBlockIndex;
      matchedTxOuts, stateFile, events := map[], None, [];
    }

    /** The ledger grows under the scanner. */
    method Grow(more: Ledger)
      requires Valid()
      modifies this`ledger
      ensures Valid() && ledger == old(ledger) + more
    {
      FoldStable(scan, ledger, more, defaultFirstBlockIndex, nextBlockIndex);
      if stateFile.Some? { FoldStable(scan, ledger, more, defaultFirstBlockIndex, stateFile.value.nextBlockIndex); }
      EventsStable(events, scan, ledger, more, defaultFirstBlockIndex, sessionStart, nextBlockIndex);
      ledger := ledger + more;
    }

    /** The process dies, at any point, and starts again from what it last saved. */
    method Restart()
      requires Valid()
      modifies `nextBlockIndex, `matchedTxOuts, `events, `sessionStart
      ensures Valid() && events == [] && sessionStart == nextBlockIndex
      ensures nextBlockIndex == if stateFile.Some? then stateFile.value.nextBlockIndex else defaultFirstBlockIndex
    {
      if stateFile.Some? {
        nextBlockIndex, matchedTxOuts := stateFile.value.nextBlockIndex, stateFile.value.matchedTxOuts;
      } else {
        nextBlockIndex, matchedTxOuts := defaultFirstBlockIndex, map[];
      }
      events, sessionStart := [], nextBlockIndex;
    }

    method ProcessBlock(blockIndex: nat, block: Block) returns (result: Result<ScannedBlock, nat>)
      ensures var scanned := Scan(scan, blockIndex, block.outputs);
              result == if scanned.Err? then Err(scanned.error)
                        else Ok(ScannedBlock(blockIndex, scanned.value, block.keyImages))
      ensures result.Ok? <==> AllScan(scan, blockIndex, block.outputs)
      ensures result.Err? ==> exists i: nat :: FirstError(scan, blockIndex, block.outputs, i, result.error)
      ensures result.Ok? ==>
                forall m :: m in result.value.matchedTxOuts <==> MatchedIn(scan, blockIndex, block.outputs, m)
    {
      ScanErrors(scan, blockIndex, block.outputs);
      if Scan(scan, blockIndex, block.outputs).Ok? {
        forall m | true
          ensures m in Scan(scan, blockIndex, block.outputs).value <==> MatchedIn(scan, blockIndex, block.outputs, m)
        {
          ScanMatches(scan, blockIndex, block.outputs, m);
        }
      }
      var matched := [];
      for i := 0 to |block.outputs|
        invariant Scan(scan, blockIndex, block.outputs[..i]) == Ok(matched)
      {
        assert block.outputs[..i + 1][..i] == block.outputs[..i];
        var r := scan(blockIndex, block.outputs[i]);
        if r.Err? {
          ScanFails(scan, blockIndex, block.outputs, i + 1);
          return Err(r.error);
        }
        if r.value.Some? { matched := matched + [r.value.value]; }
      }
      assert block.outputs[..|block.outputs|] == block.outputs;
      result := Ok(ScannedBlock(blockIndex, matched, block.keyImages));
    }

    /** Scans the next chunk of blocks; any error leaves the state untouched, to be retried. */
    method ScanBlocks(last: nat) returns (results: Result<seq<ScannedBlock>, nat>)
      requires last <= |ledger|
      ensures results.Ok? <==> ScansThrough(scan, ledger, nextBlockIndex, last)
      ensures results.Ok? ==> |results.value| == if nextBlockIndex <= last then last - nextBlockIndex else 0
      ensures results.Ok? ==> forall i :: 0 <= i < |results.value| ==>
                results.value[i] == Scanned(scan, ledger, nextBlockIndex + i)
    {
      var scanned := [];
      var j := nextBlockIndex;
      while j < last
        invariant nextBlockIndex <= j && (j <= last || j == nextBlockIndex) && |scanned| == j - nextBlockIndex
        invariant forall i: nat :: nextBlockIndex <= i < j ==> Scans(scan, ledger, i)
        invariant forall i :: 0 <= i < |scanned| ==>
                    scanned[i] == Scanned(scan, ledger, nextBlockIndex + i)
      {
        var r := ProcessBlock(j, ledger[j]);
        assert r.Ok? <==> Scans(scan, ledger, j);
        if r.Err? { return Err(r.error); }
        scanned := scanned + [r.value];
        j := j + 1;
      }
      results := Ok(scanned);
    }

    /** Removes what the key images spend from the held outputs. */
    method TakeSpent(keyImages: seq<KeyImage>) returns (spent: seq<MatchedTxOut>)
      modifies `matchedTxOuts
      ensures spent == Spent(old(matchedTxOuts), keyImages)
      ensures matchedTxOuts == Without(old(matchedTxOuts), keyImages)
    {
      spent := [];
      for i := 0 to |keyImages|
        invariant spent == Spent(old(matchedTxOuts), keyImages[..i])
        invariant matchedTxOuts == Without(old(matchedTxOuts), keyImages[..i])
      {
        assert keyImages[..i + 1][..i] == keyImages[..i];
        var k := keyImages[i];
        if k in matchedTxOuts {
          spent := spent + [matchedTxOuts[k]];
          matchedTxOuts := matchedTxOuts - {k};
        }
      }
      assert keyImages[..|keyImages|] == keyImages;
    }

    method Receive(received: seq<MatchedTxOut>)
      modifies `matchedTxOuts
      ensures matchedTxOuts == WithReceived(old(matchedTxOuts), received)
    {
      for i := 0 to |received|
        invariant matchedTxOuts == WithReceived(old(matchedTxOuts), received[..i])
      {
        assert received[..i + 1][..i] == received[..i];
        matchedTxOuts := matchedTxOuts[received[i].keyImage := received[i]];
      }
      assert received[..|received|] == received;
    }

    /** Takes in one scanned block: spends first, then receipts, then the event. */
    method TakeBlock(result: ScannedBlock)
      requires Valid() && nextBlockIndex < |ledger|
      requires result == Scanned(scan, ledger, nextBlockIndex)
      modifies `nextBlockIndex, `matchedTxOuts, `events
      ensures Valid() && nextBlockIndex == old(nextBlockIndex) + 1
    {
      assert result.blockIndex == nextBlockIndex;
      var spent := TakeSpent(result.keyImages);
      Receive(result.matchedTxOuts);
      var event := BlockProcessed(result.blockIndex, result.matchedTxOuts, spent);
      EventsExtend(events, event, scan, ledger, defaultFirstBlockIndex, sessionStart, nextBlockIndex);
      events := events + [event];
      nextBlockIndex := nextBlockIndex + 1;
    }

    /** Takes in the results of a chunk, one after another. */
    method TakeBlocks(results: seq<ScannedBlock>)
      requires Valid() && (results == [] || nextBlockIndex + |results| <= |ledger|)
      requires forall i :: 0 <= i < |results| ==>
                 results[i] == Scanned(scan, ledger, nextBlockIndex + i)
      modifies `nextBlockIndex, `matchedTxOuts, `events
      ensures Valid() && nextBlockIndex == old(nextBlockIndex) + |results|
    {
      for i := 0 to |results|
        invariant Valid() && nextBlockIndex == old(nextBlockIndex) + i
      {
        TakeBlock(results[i]);
      }
    }

    /**
     * One turn of the scanner: it takes in at most a chunk of blocks, saves, and stays the fold over
     * the blocks read. The index check of each result never fails.
     */
    method ScanChunk() returns (ok: bool)
      requires Valid() && |ledger| > 0
      modifies this
      ensures Valid() && unchanged(`ledger, `sessionStart)
      ensures ok <==> ScansThrough(scan, ledger, old(nextBlockIndex), ChunkEnd(ledger, old(nextBlockIndex)))
      ensures ok ==> nextBlockIndex == ChunkEnd(ledger, old(nextBlockIndex))
      ensures ok ==> stateFile == Some(WalletState(nextBlockIndex, matchedTxOuts))
      ensures !ok ==> unchanged(this)
    {
      var last := Min(|ledger| - 1 + 1, nextBlockIndex + SCAN_CHUNK_SIZE);
      assert ChunkEnd(ledger, nextBlockIndex) == if nextBlockIndex <= |ledger| then last else nextBlockIndex;
      var results := ScanBlocks(last);
      if results.Err? { return false; }
      TakeBlocks(results.value);
      stateFile := Some(WalletState(nextBlockIndex, matchedTxOuts));
      ok := true;
    }
  }

  lemma {:induction false} ScanFails(scan: ViewKeyScan, blockIndex: nat, outputs: seq<TxOut>, n: nat)
    requires n <= |outputs| && Scan(scan, blockIndex, outputs[..n]).Err?
    ensures Scan(scan, blockIndex, outputs) == Scan(scan, blockIndex, outputs[..n])
    decreases |outputs|
  {
    if n < |outputs| {
      assert outputs[..|outputs| - 1][..n] == outputs[..n];
      ScanFails(scan, blockIndex, outputs[..|outputs| - 1], n);
    } else {
      assert outputs[..n] == outputs;
    }
  }

  // ---------------------------------------------------------------------------------------------
  // What the fold holds
  // ---------------------------------------------------------------------------------------------

  /** The output is ours and has the key image. */
  ghost predicate Ours(scan: ViewKeyScan, blockIndex: nat, o: TxOut, k: KeyImage) {
    var r := scan(blockIndex, o);
    r.Ok? && r.value.Some? && r.value.value.keyImage == k
  }

  /** Block `j` scans, and one of its outputs is ours and has the key image. */
  ghost predicate Brings(scan: ViewKeyScan, ledger: Ledger, j: nat, k: KeyImage)
    requires j < |ledger|
  {
    Scans(scan, ledger, j) && exists o :: o in ledger[j].outputs && Ours(scan, j, o, k)
  }

  /** The output is the match of the last of the outputs that is ours and has the key image. */
  ghost predicate LastOurs(scan: ViewKeyScan, blockIndex: nat, outputs: seq<TxOut>, k: KeyImage, v: MatchedTxOut) {
    exists i :: 0 <= i < |outputs| && scan(blockIndex, outputs[i]) == Ok(Some(v)) && v.keyImage == k
             && forall i' :: i < i' < |outputs| ==> !Ours(scan, blockIndex, outputs[i'], k)
  }

  /** The last entry with the key image. */
  ghost predicate LastWith(received: seq<MatchedTxOut>, k: KeyImage, v: MatchedTxOut) {
    exists i :: 0 <= i < |received| && received[i] == v && v.keyImage == k
             && forall i' :: i < i' < |received| ==> received[i'].keyImage != k
  }

  /** Received in block `j` and neither spent nor received again in the blocks after it, up to `n`. */
  ghost predicate HeldSince(scan: ViewKeyScan, ledger: Ledger, j: nat, n: nat, k: KeyImage, v: MatchedTxOut)
    requires j < n <= |ledger|
  {
    && Scans(scan, ledger, j) && LastOurs(scan, j, ledger[j].outputs, k, v)
    && QuietSince(scan, ledger, j, n, k)
  }

  /** No block after `j`, up to `n`, spends the key image or brings it again. */
  ghost predicate QuietSince(scan: ViewKeyScan, ledger: Ledger, j: nat, n: nat, k: KeyImage)
    requires n <= |ledger|
  {
    forall j' :: j < j' < n ==> k !in ledger[j'].keyImages && !Brings(scan, ledger, j', k)
  }

  lemma QuietOneMore(scan: ViewKeyScan, ledger: Ledger, j: nat, n: nat, k: KeyImage)
    requires n < |ledger| && QuietSince(scan, ledger, j, n, k)
    requires k !in ledger[n].keyImages && !Brings(scan, ledger, n, k)
    ensures QuietSince(scan, ledger, j, n + 1, k)
  {
  }

  /** Received in block `j` and not spent in the blocks after it, up to `n`. */
  ghost predicate UnspentSince(scan: ViewKeyScan, ledger: Ledger, j: nat, n: nat, k: KeyImage)
    requires j < n <= |ledger|
  {
    Brings(scan, ledger, j, k) && forall j' :: j < j' < n ==> k !in ledger[j'].keyImages
  }

  lemma LastOfLonger(prefix: seq<MatchedTxOut>, last: MatchedTxOut, k: KeyImage, v: MatchedTxOut)
    requires LastWith(prefix, k, v) && last.keyImage != k
    ensures LastWith(prefix + [last], k, v)
  {
    var i :| 0 <= i < |prefix| && prefix[i] == v && v.keyImage == k
      && forall i' :: i < i' < |prefix| ==> prefix[i'].keyImage != k;
    assert (prefix + [last])[i] == v;
  }

  lemma {:induction false} WithReceivedMeaning(held: Held, received: seq<MatchedTxOut>, k: KeyImage)
    ensures k in WithReceived(held, received) <==> k in held || exists m :: m in received && m.keyImage == k
    ensures (exists m :: m in received && m.keyImage == k) ==> LastWith(received, k, WithReceived(held, received)[k])
    ensures k in held && !(exists m :: m in received && m.keyImage == k) ==> WithReceived(held, received)[k] == held[k]
  {
    if received != [] {
      var n := |received| - 1;
      var prefix, last := received[..n], received[n];
      WithReceivedMeaning(held, prefix, k);
      assert received == prefix + [last];
      if last.keyImage == k {
        assert last in received && LastWith(received, k, last);
      } else if exists m :: m in prefix && m.keyImage == k {
        LastOfLonger(prefix, last, k, WithReceived(held, prefix)[k]);
      }
    }
  }

  lemma {:induction false} LastMatch(
    scan: ViewKeyScan, blockIndex: nat, outputs: seq<TxOut>, k: KeyImage, v: MatchedTxOut)
    requires Scan(scan, blockIndex, outputs).Ok? && LastWith(Scan(scan, blockIndex, outputs).value, k, v)
    ensures LastOurs(scan, blockIndex, outputs, k, v)
  {
    var n := |outputs| - 1;
    var prefix, rest := outputs[..n], Scan(scan, blockIndex, outputs[..n]).value;
    assert outputs == prefix + [outputs[n]];
    if Ours(scan, blockIndex, outputs[n], k) {
      LastIs(rest, scan(blockIndex, outputs[n]).value.value, k, v);
    } else {
      var last := scan(blockIndex, outputs[n]).value;
      if last.Some? { LastWasBefore(rest, last.value, k, v); }
      LastMatch(scan, blockIndex, prefix, k, v);
      LastOursStays(scan, blockIndex, prefix, outputs[n], k, v);
    }
  }

  lemma LastIs(prefix: seq<MatchedTxOut>, last: MatchedTxOut, k: KeyImage, v: MatchedTxOut)
    requires LastWith(prefix + [last], k, v) && last.keyImage == k
    ensures v == last
  {
    assert (prefix + [last])[|prefix|] == last;
  }

  lemma LastWasBefore(prefix: seq<MatchedTxOut>, last: MatchedTxOut, k: KeyImage, v: MatchedTxOut)
    requires LastWith(prefix + [last], k, v) && last.keyImage != k
    ensures LastWith(prefix, k, v)
  {
    var s := prefix + [last];
    var i :| 0 <= i < |s| && s[i] == v && v.keyImage == k && forall i' :: i < i' < |s| ==> s[i'].keyImage != k;
    assert prefix[i] == v;
    assert forall i' :: i < i' < |prefix| ==> prefix[i'] == s[i'];
  }

  lemma LastOursStays(scan: ViewKeyScan, blockIndex: nat, prefix: seq<TxOut>, o: TxOut, k: KeyImage, v: MatchedTxOut)
    requires LastOurs(scan, blockIndex, prefix, k, v) && !Ours(scan, blockIndex, o, k)
    ensures LastOurs(scan, blockIndex, prefix + [o], k, v)
  {
    var i :| 0 <= i < |prefix| && scan(blockIndex, prefix[i]) == Ok(Some(v)) && v.keyImage == k
      && forall i' :: i < i' < |prefix| ==> !Ours(scan, blockIndex, prefix[i'], k);
    assert (prefix + [o])[i] == prefix[i];
  }

  /** What the scan of a block gives for a key image, in terms of the outputs of the block. */
  lemma ReceivedMeaning(scan: ViewKeyScan, ledger: Ledger, j: nat, k: KeyImage)
    requires j < |ledger|
    ensures (exists m :: m in Received(scan, ledger, j) && m.keyImage == k) <==> Brings(scan, ledger, j, k)
    ensures forall v :: LastWith(Received(scan, ledger, j), k, v) ==>
              Scans(scan, ledger, j) && LastOurs(scan, j, ledger[j].outputs, k, v)
  {
    var outputs := ledger[j].outputs;
    ScanErrors(scan, j, outputs);
    if Scan(scan, j, outputs).Ok? {
      forall m | m in Received(scan, ledger, j) && m.keyImage == k ensures Brings(scan, ledger, j, k) {
        ScanMatches(scan, j, outputs, m);
        var i :| 0 <= i < |outputs| && scan(j, outputs[i]) == Ok(Some(m));
        assert outputs[i] in outputs && Ours(scan, j, outputs[i], k);
      }
      forall o | o in outputs && Ours(scan, j, o, k)
        ensures exists m :: m in Received(scan, ledger, j) && m.keyImage == k
      {
        var i :| 0 <= i < |outputs| && outputs[i] == o;
        ScanMatches(scan, j, outputs, scan(j, o).value.value);
      }
      forall v | LastWith(Received(scan, ledger, j), k, v) ensures LastOurs(scan, j, outputs, k, v) {
        LastMatch(scan, j, outputs, k, v);
      }
    }
  }

  /** What one more block does to one key image. */
  lemma FoldStep(scan: ViewKeyScan, ledger: Ledger, first: nat, n: nat, k: KeyImage)
    requires first < n <= |ledger|
    ensures var before, after := Fold(scan, ledger, first, n - 1), Fold(scan, ledger, first, n);
            if Brings(scan, ledger, n - 1, k) then
              k in after && LastOurs(scan, n - 1, ledger[n - 1].outputs, k, after[k])
            else
              && (k in after <==> k in before && k !in ledger[n - 1].keyImages)
              && (k in after ==> after[k] == before[k])
  {
    var unspent := Without(Fold(scan, ledger, first, n - 1), ledger[n - 1].keyImages);
    WithReceivedMeaning(unspent, Received(scan, ledger, n - 1), k);
    ReceivedMeaning(scan, ledger, n - 1, k);
  }

  /** The map holds a key image exactly when some scanned block brought it and no later one spent it. */
  lemma {:induction false} FoldDomain(scan: ViewKeyScan, ledger: Ledger, first: nat, n: nat, k: KeyImage)
    requires first <= n <= |ledger|
    ensures k in Fold(scan, ledger, first, n) <==> exists j :: first <= j < n && UnspentSince(scan, ledger, j, n, k)
    decreases n
  {
    if first < n {
      FoldDomain(scan, ledger, first, n - 1, k);
      FoldStep(scan, ledger, first, n, k);
      if Brings(scan, ledger, n - 1, k) {
        assert UnspentSince(scan, ledger, n - 1, n, k);
      } else {
        if k in Fold(scan, ledger, first, n) {
          var j :| first <= j < n - 1 && UnspentSince(scan, ledger, j, n - 1, k);
          assert UnspentSince(scan, ledger, j, n, k);
        }
        if j :| first <= j < n && UnspentSince(scan, ledger, j, n, k) {
          assert j < n - 1 && UnspentSince(scan, ledger, j, n - 1, k);
        }
      }
    }
  }

  /** The output is the one brought last for the key image, and not spent since. */
  ghost predicate HeldBefore(scan: ViewKeyScan, ledger: Ledger, first: nat, n: nat, k: KeyImage, v: MatchedTxOut)
    requires n <= |ledger|
  {
    exists j :: first <= j < n && HeldSince(scan, ledger, j, n, k, v)
  }

  lemma HeldFromLast(scan: ViewKeyScan, ledger: Ledger, first: nat, n: nat, k: KeyImage, v: MatchedTxOut)
    requires first <= n < |ledger| && Scans(scan, ledger, n) && LastOurs(scan, n, ledger[n].outputs, k, v)
    ensures HeldBefore(scan, ledger, first, n + 1, k, v)
  {
    assert HeldSince(scan, ledger, n, n + 1, k, v);
  }

  lemma HeldOneMore(scan: ViewKeyScan, ledger: Ledger, first: nat, n: nat, k: KeyImage, v: MatchedTxOut)
    requires n < |ledger| && HeldBefore(scan, ledger, first, n, k, v)
    requires k !in ledger[n].keyImages && !Brings(scan, ledger, n, k)
    ensures HeldBefore(scan, ledger, first, n + 1, k, v)
  {
    var j :| first <= j < n && HeldSince(scan, ledger, j, n, k, v);
    QuietOneMore(scan, ledger, j, n, k);
    assert HeldSince(scan, ledger, j, n + 1, k, v);
  }

  /** If the fold holds something for the key image, it is the latest output brought. */
  ghost predicate HoldsLatest(scan: ViewKeyScan, ledger: Ledger, first: nat, n: nat, k: KeyImage)
    requires n <= first || n <= |ledger|
  {
    var held := Fold(scan, ledger, first, n);
    k in held ==> n <= |ledger| && HeldBefore(scan, ledger, first, n, k, held[k])
  }

  lemma HoldsLatestStep(scan: ViewKeyScan, ledger: Ledger, first: nat, n: nat, k: KeyImage)
    requires first <= n < |ledger| && HoldsLatest(scan, ledger, first, n, k)
    ensures HoldsLatest(scan, ledger, first, n + 1, k)
  {
    FoldStep(scan, ledger, first, n + 1, k);
    var held := Fold(scan, ledger, first, n + 1);
    if Brings(scan, ledger, n, k) {
      HeldFromLast(scan, ledger, first, n, k, held[k]);
    } else if k in held {
      HeldOneMore(scan, ledger, first, n, k, held[k]);
    }
  }

  /** What it holds for the key image is the latest output brought. */
  lemma FoldValue(scan: ViewKeyScan, ledger: Ledger, first: nat, n: nat, k: KeyImage)
    requires first <= n <= |ledger|
    ensures HoldsLatest(scan, ledger, first, n, k)
  {
    for i := first to n
      invariant HoldsLatest(scan, ledger, first, i, k)
    {
      HoldsLatestStep(scan, ledger, first, i, k);
    }
  }

  /**
   * On a ledger that spends an output only after the block that creates it, the map holds exactly
   * the key images received and not spent.
   */
  lemma HeldIsReceivedUnspent(scan: ViewKeyScan, ledger: Ledger, first: nat, n: nat, k: KeyImage)
    requires first <= n <= |ledger|
    requires forall j, j' ::
               first <= j < n && first <= j' < n && Brings(scan, ledger, j, k) && k in ledger[j'].keyImages ==> j < j'
    ensures k in Fold(scan, ledger, first, n)
       <==> && (exists j :: first <= j < n && Brings(scan, ledger, j, k))
            && !(exists j :: first <= j < n && k in ledger[j].keyImages)
  {
    FoldDomain(scan, ledger, first, n, k);
    if !(exists j' :: first <= j' < n && k in ledger[j'].keyImages) {
      forall j | first <= j < n && Brings(scan, ledger, j, k) ensures UnspentSince(scan, ledger, j, n, k) {}
    }
  }

  /** A block reports as spent exactly the held outputs whose key images it contains. */
  lemma {:induction false} SpentMeaning(held: Held, keyImages: seq<KeyImage>, v: MatchedTxOut)
    requires forall k :: k in held ==> held[k].keyImage == k
    ensures v in Spent(held, keyImages) <==> v.keyImage in keyImages && v.keyImage in held && held[v.keyImage] == v
  {
    if keyImages != [] {
      var n := |keyImages| - 1;
      SpentMeaning(held, keyImages[..n], v);
      assert keyImages == keyImages[..n] + [keyImages[n]];
    }
  }

  /** The event of a block tells its index and, as received, exactly the outputs of the block that are ours. */
  lemma EventReceivedMeaning(scan: ViewKeyScan, ledger: Ledger, first: nat, j: nat, m: MatchedTxOut)
    requires first <= j < |ledger| && Scans(scan, ledger, j)
    ensures var event := EventOf(scan, ledger, first, j);
            event.blockIndex == j && (m in event.receivedTxOuts <==> MatchedIn(scan, j, ledger[j].outputs, m))
  {
    ScanErrors(scan, j, ledger[j].outputs);
    ScanMatches(scan, j, ledger[j].outputs, m);
  }

  lemma EventSpentMeaning(scan: ViewKeyScan, ledger: Ledger, first: nat, j: nat, v: MatchedTxOut)
    requires first <= j < |ledger|
    ensures v in EventOf(scan, ledger, first, j).spentTxOuts
       <==> v.keyImage in ledger[j].keyImages && HeldBefore(scan, ledger, first, j, v.keyImage, v)
  {
    var held, k := Fold(scan, ledger, first, j), v.keyImage;
    forall k' | k' in held ensures held[k'].keyImage == k' { FoldValue(scan, ledger, first, j, k'); }
    SpentMeaning(held, ledger[j].keyImages, v);
    FoldValue(scan, ledger, first, j, k);
    if HeldBefore(scan, ledger, first, j, k, v) {
      var i :| first <= i < j && HeldSince(scan, ledger, i, j, k, v);
      FoldDomain(scan, ledger, first, j, k);
      LastOursBrings(scan, ledger, i, k, v);
      assert UnspentSince(scan, ledger, i, j, k);
      HeldBeforeUnique(scan, ledger, first, j, k, v, held[k]);
    }
  }

  /** Only one output can be the one held for a key image. */
  lemma HeldBeforeUnique(scan: ViewKeyScan, ledger: Ledger, first: nat, n: nat, k: KeyImage,
                         v: MatchedTxOut, v': MatchedTxOut)
    requires n <= |ledger| && HeldBefore(scan, ledger, first, n, k, v) && HeldBefore(scan, ledger, first, n, k, v')
    ensures v == v'
  {
    var i :| first <= i < n && HeldSince(scan, ledger, i, n, k, v);
    var i' :| first <= i' < n && HeldSince(scan, ledger, i', n, k, v');
    LastOursBrings(scan, ledger, i, k, v);
    LastOursBrings(scan, ledger, i', k, v');
    assert i == i';
    LastOursUnique(scan, i, ledger[i].outputs, k, v, v');
  }

  lemma LastOursBrings(scan: ViewKeyScan, ledger: Ledger, j: nat, k: KeyImage, v: MatchedTxOut)
    requires j < |ledger| && Scans(scan, ledger, j) && LastOurs(scan, j, ledger[j].outputs, k, v)
    ensures Brings(scan, ledger, j, k)
  {
    var outputs := ledger[j].outputs;
    var i :| 0 <= i < |outputs| && scan(j, outputs[i]) == Ok(Some(v)) && v.keyImage == k;
    assert outputs[i] in outputs && Ours(scan, j, outputs[i], k);
  }

  lemma LastOursUnique(scan: ViewKeyScan, blockIndex: nat, outputs: seq<TxOut>, k: KeyImage,
                       v: MatchedTxOut, v': MatchedTxOut)
    requires LastOurs(scan, blockIndex, outputs, k, v) && LastOurs(scan, blockIndex, outputs, k, v')
    ensures v == v'
  {
    var i :| 0 <= i < |outputs| && scan(blockIndex, outputs[i]) == Ok(Some(v)) && v.keyImage == k
      && forall x :: i < x < |outputs| ==> !Ours(scan, blockIndex, outputs[x], k);
    var i' :| 0 <= i' < |outputs| && scan(blockIndex, outputs[i']) == Ok(Some(v')) && v'.keyImage == k
      && forall x :: i' < x < |outputs| ==> !Ours(scan, blockIndex, outputs[x], k);
    assert Ours(scan, blockIndex, outputs[i], k) && Ours(scan, blockIndex, outputs[i'], k);
  }

  // ---------------------------------------------------------------------------------------------
  // Whole runs
  // ---------------------------------------------------------------------------------------------

  datatype Action = Growth(blocks: Ledger) | Chunk | Crash

  /** The ledger, the next block, the one last saved, and the one the session started at. */
  datatype Marks = Marks(ledger: Ledger, next: nat, saved: Option<nat>, session: nat)

  /** Where a run of the scanner stands: a chunk moves on if all its blocks scan, a crash goes back to the last save. */
  function Track(scan: ViewKeyScan, ledger: Ledger, first: nat, actions: seq<Action>): Marks {
    if actions == [] then Marks(ledger, first, None, first)
    else Move(scan, first, Track(scan, ledger, first, actions[..|actions| - 1]), actions[|actions| - 1])
  }

  function Move(scan: ViewKeyScan, first: nat, m: Marks, action: Action): Marks {
    match action
    case Growth(blocks) => m.(ledger := m.ledger + blocks)
    case Chunk =>
      var last := ChunkEnd(m.ledger, m.next);
      if ScansThrough(scan, m.ledger, m.next, last) then m.(next := last, saved := Some(last)) else m
    case Crash =>
      var next := if m.saved.Some? then m.saved.value else first;
      m.(next := next, session := next)
  }

  /**
   * Whatever the mix of ledger growth, chunks and restarts, the wallet ends at the block `Track`
   * says, as the block-by-block fold over the blocks before it, and the last session has told of
   * its blocks one by one.
   */
  method Run(ledger: Ledger, scan: ViewKeyScan, first: nat, actions: seq<Action>)
    returns (final: WalletState, events: seq<WalletEvent>, sessionStart: nat)
    requires |ledger| > 0
    ensures var m := Track(scan, ledger, first, actions);
            && final.nextBlockIndex == m.next && sessionStart == m.session
            && (m.next <= first || m.next <= |m.ledger|)
            && final.matchedTxOuts == Fold(scan, m.ledger, first, m.next)
            && AreEvents(events, scan, m.ledger, first, m.session, m.next)
  {
    var wallet := new AccountLedgerScanner(ledger, scan, first);
    for i := 0 to |actions|
      invariant fresh(wallet) && wallet.Valid() && wallet.scan == scan && wallet.defaultFirstBlockIndex == first
      invariant wallet.IsAt(Track(scan, ledger, first, actions[..i])) && |wallet.ledger| > 0
    {
      assert actions[..i + 1][..i] == actions[..i];
      match actions[i]
      case Growth(blocks) => wallet.Grow(blocks);
      case Chunk => var _ := wallet.ScanChunk();
      case Crash => wallet.Restart();
    }
    assert actions[..|actions|] == actions;
    final := WalletState(wallet.nextBlockIndex, wallet.matchedTxOuts);
    events, sessionStart := wallet.events, wallet.sessionStart;
  }

  /** `k` chunks on. */
  function Advance(scan: ViewKeyScan, first: nat, m: Marks, k: nat): Marks {
    if k == 0 then m else Move(scan, first, Advance(scan, first, m, k - 1), Chunk)
  }

  lemma {:induction false} TrackChunks(scan: ViewKeyScan, ledger: Ledger, first: nat, actions: seq<Action>, k: nat)
    ensures Track(scan, ledger, first, actions + seq(k, _ => Chunk))
         == Advance(scan, first, Track(scan, ledger, first, actions), k)
  {
    var all := actions + seq(k, _ => Chunk);
    if k == 0 {
      assert all == actions;
    } else {
      TrackChunks(scan, ledger, first, actions, k - 1);
      assert all[..|all| - 1] == actions + seq(k - 1, _ => Chunk);
    }
  }

  lemma ChunkAdvances(scan: ViewKeyScan, first: nat, m: Marks)
    requires m.next <= |m.ledger| && ScansThrough(scan, m.ledger, m.next, |m.ledger|)
    ensures var m' := Move(scan, first, m, Chunk);
            m'.ledger == m.ledger && m'.next == Min(|m.ledger|, m.next + SCAN_CHUNK_SIZE)
  {
  }

  /** Chunks move on by their size each, to the end of the ledger. */
  lemma {:induction false} ChunksAdvance(scan: ViewKeyScan, first: nat, m: Marks, k: nat)
    requires m.next <= |m.ledger| && ScansThrough(scan, m.ledger, m.next, |m.ledger|)
    ensures var m' := Advance(scan, first, m, k);
            m'.ledger == m.ledger && m'.next == Min(|m.ledger|, m.next + k * SCAN_CHUNK_SIZE)
  {
    if k != 0 {
      ChunksAdvance(scan, first, m, k - 1);
      ChunkAdvances(scan, first, Advance(scan, first, m, k - 1));
    }
  }

  /** A crash right after a chunk that went through loses nothing: the scanner goes on where it was. */
  lemma CrashResumes(scan: ViewKeyScan, ledger: Ledger, first: nat, actions: seq<Action>)
    requires var m := Track(scan, ledger, first, actions);
             ScansThrough(scan, m.ledger, m.next, ChunkEnd(m.ledger, m.next))
    ensures var m := Track(scan, ledger, first, actions + [Chunk]);
            Track(scan, ledger, first, actions + [Chunk, Crash]) == m.(session := m.next)
  {
    assert (actions + [Chunk])[..|actions|] == actions;
    assert (actions + [Chunk, Crash])[..|actions| + 1] == actions + [Chunk];
  }

  lemma {:induction false} TrackInLedger(scan: ViewKeyScan, ledger: Ledger, first: nat, actions: seq<Action>)
    requires first <= |ledger|
    ensures var m := Track(scan, ledger, first, actions);
            m.next <= |m.ledger| && |ledger| <= |m.ledger| && (m.saved.Some? ==> m.saved.value <= |m.ledger|)
  {
    if actions != [] { TrackInLedger(scan, ledger, first, actions[..|actions| - 1]); }
  }

  /**
   * If no block fails to scan, then after any run enough chunks bring the scanner to the end of the
   * ledger.
   */
  lemma ScannerCatchesUp(scan: ViewKeyScan, ledger: Ledger, first: nat, actions: seq<Action>, k: nat)
    requires first <= |ledger|
    requires var m := Track(scan, ledger, first, actions);
             ScansThrough(scan, m.ledger, 0, |m.ledger|) && |m.ledger| <= k * 1000
    ensures var m := Track(scan, ledger, first, actions + seq(k, _ => Chunk));
            m.ledger == Track(scan, ledger, first, actions).ledger && m.next == |m.ledger|
  {
    TrackInLedger(scan, ledger, first, actions);
    TrackChunks(scan, ledger, first, actions, k);
    ChunksAdvance(scan, first, Track(scan, ledger, first, actions), k);
  }
}
