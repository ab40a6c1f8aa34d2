/**
 * The ledger-synchronised book as a system of interleaved steps: the ledger grows, clients add
 * quotes, and a background thread replays the blocks and purges what they spend or outlive.
 */
module SyncedBookSteps {
  import opened Basics
  import opened Quotes
  import opened BookSpec
  import opened Ledgers

  // ---------------------------------------------------------------------------------------------
  // What an add asks of the ledger
  // ---------------------------------------------------------------------------------------------

  function AllOutputs(ledger: Ledger): seq<TxOut> {
    if ledger == [] then [] else AllOutputs(ledger[..|ledger| - 1]) + ledger[|ledger| - 1].outputs
  }

  predicate SpentIn(ledger: Ledger, keyImage: KeyImage) {
    exists j :: 0 <= j < |ledger| && keyImage in ledger[j].keyImages
  }

  /** What is wrong with the ring from its `i`-th member on, if anything. */
  function RingFaultFrom(outputs: seq<TxOut>, sci: Sci, i: nat): Option<Error>
    requires |sci.ring| == |sci.txOutGlobalIndices| && i <= |sci.ring|
    decreases |sci.ring| - i
  {
    if i == |sci.ring| then None
    else if |outputs| <= sci.txOutGlobalIndices[i] then Some(ImplementationSpecific)
    else if outputs[sci.txOutGlobalIndices[i]] != sci.ring[i] then Some(InvalidRing(InvalidMember))
    else RingFaultFrom(outputs, sci, i + 1)
  }

  function RingError(ledger: Ledger, sci: Sci): Option<Error> {
    if |sci.ring| != |sci.txOutGlobalIndices| then Some(InvalidRing(MissingIndex))
    else RingFaultFrom(AllOutputs(ledger), sci, 0)
  }

  /** The ring member is the output that the ledger holds at the claimed index. */
  predicate MemberInLedger(ledger: Ledger, sci: Sci, k: nat)
    requires k < |sci.ring| && k < |sci.txOutGlobalIndices|
  {
    var outputs, index := AllOutputs(ledger), sci.txOutGlobalIndices[k];
    index < |outputs| && outputs[index] == sci.ring[k]
  }

  /** The first `n` ring members are in the ledger. */
  ghost predicate MembersInLedger(ledger: Ledger, sci: Sci, n: nat) {
    n <= |sci.ring| == |sci.txOutGlobalIndices| && forall k: nat :: k < n ==> MemberInLedger(ledger, sci, k)
  }

  /** Every ring member is the output that the ledger holds at the claimed index. */
  ghost predicate RingInLedger(ledger: Ledger, sci: Sci) {
    MembersInLedger(ledger, sci, |sci.ring|)
  }

  lemma {:induction false} RingFaultFromExact(outputs: seq<TxOut>, sci: Sci, i: nat)
    requires |sci.ring| == |sci.txOutGlobalIndices| && i <= |sci.ring|
    ensures RingFaultFrom(outputs, sci, i).None?
       <==> forall k :: i <= k < |sci.ring| ==>
              sci.txOutGlobalIndices[k] < |outputs| && outputs[sci.txOutGlobalIndices[k]] == sci.ring[k]
    decreases |sci.ring| - i
  {
    if i < |sci.ring| { RingFaultFromExact(outputs, sci, i + 1); }
  }

  /** The checks of `add_quote` that come before the inner book is asked, in their order. */
  function Refusal(ledger: Ledger, q: Quote): Option<Error>
    requires |ledger| > 0
  {
    if Expired(q, |ledger| - 1) then Some(QuoteIsStale)
    else if SpentIn(ledger, q.KeyImage()) then Some(QuoteIsStale)
    else RingError(ledger, q.sci)
  }

  // What the checks mean, in terms of the SCI and the blocks themselves.

  /** The SCI's own rules set a tombstone block, and the ledger has reached it. */
  ghost predicate TombstoneReached(ledger: Ledger, sci: Sci) {
    && sci.inputRules.Some? && sci.inputRules.value.maxTombstoneBlock != 0
    && sci.inputRules.value.maxTombstoneBlock < |ledger|
  }

  /** Some block contains the SCI's key image. */
  ghost predicate InputSpent(ledger: Ledger, sci: Sci) {
    exists block :: block in ledger && sci.keyImage in block.keyImages
  }

  /**
   * A quote passes the checks if and only if its tombstone is ahead, its input is unspent and its
   * ring is in the ledger; it is stale if and only if one of the first two fails.
   */
  lemma RefusalExact(ledger: Ledger, q: Quote)
    requires |ledger| > 0
    ensures Refusal(ledger, q).None?
       <==> !TombstoneReached(ledger, q.sci) && !InputSpent(ledger, q.sci) && RingInLedger(ledger, q.sci)
    ensures Refusal(ledger, q) == Some(QuoteIsStale) <==> TombstoneReached(ledger, q.sci) || InputSpent(ledger, q.sci)
    ensures Refusal(ledger, q) == Some(QuoteIsStale) || Refusal(ledger, q) == RingError(ledger, q.sci)
  {
    RingErrorExact(ledger, q.sci);
    RingErrorKinds(ledger, q.sci);
    if j :| 0 <= j < |ledger| && q.KeyImage() in ledger[j].keyImages { assert ledger[j] in ledger; }
  }

  /** The ring member is not what the ledger holds at the claimed index, and it is the first such. */
  ghost predicate FirstFault(ledger: Ledger, sci: Sci, k: nat) {
    && k < |sci.ring| == |sci.txOutGlobalIndices|
    && MembersInLedger(ledger, sci, k) && !MemberInLedger(ledger, sci, k)
  }

  /** Which error a bad ring gives: for its lengths, or for its first bad member. */
  lemma RingErrorKinds(ledger: Ledger, sci: Sci)
    ensures RingError(ledger, sci) == Some(InvalidRing(MissingIndex)) <==> |sci.ring| != |sci.txOutGlobalIndices|
    ensures RingError(ledger, sci) == Some(InvalidRing(InvalidMember))
       <==> exists k: nat :: FirstFault(ledger, sci, k) && sci.txOutGlobalIndices[k] < |AllOutputs(ledger)|
    ensures RingError(ledger, sci) == Some(ImplementationSpecific)
       <==> exists k: nat :: FirstFault(ledger, sci, k) && |AllOutputs(ledger)| <= sci.txOutGlobalIndices[k]
    ensures RingError(ledger, sci).Some? ==>
              RingError(ledger, sci).value.InvalidRing? || RingError(ledger, sci).value.ImplementationSpecific?
  {
    if |sci.ring| == |sci.txOutGlobalIndices| { FaultFrom(ledger, sci, 0); }
  }

  lemma {:induction false} FaultFrom(ledger: Ledger, sci: Sci, i: nat)
    requires MembersInLedger(ledger, sci, i)
    ensures var fault := RingFaultFrom(AllOutputs(ledger), sci, i);
            if fault.None? then RingInLedger(ledger, sci)
            else exists k: nat ::
                   && FirstFault(ledger, sci, k)
                   && fault.value == if sci.txOutGlobalIndices[k] < |AllOutputs(ledger)| then InvalidRing(InvalidMember)
                                     else ImplementationSpecific
    decreases |sci.ring| - i
  {
    if i < |sci.ring| {
      if MemberInLedger(ledger, sci, i) {
        FaultFrom(ledger, sci, i + 1);
      } else {
        assert FirstFault(ledger, sci, i);
      }
    }
  }

  lemma Reassociate(a: seq<TxOut>, b: seq<TxOut>, c: seq<TxOut>)
    ensures (a + b) + c == a + (b + c)
  {
  }

  lemma OutputsOfBlock(block: Block)
    ensures AllOutputs([block]) == block.outputs
  {
    assert AllOutputs([]) == [];
  }

  /** Outputs are numbered through the blocks in order. */
  lemma {:induction false} OutputsInOrder(ledger: Ledger, more: Ledger)
    ensures AllOutputs(ledger + more) == AllOutputs(ledger) + AllOutputs(more)
  {
    if more == [] {
      assert ledger + more == ledger;
    } else {
      var n := |more| - 1;
      OutputsInOrder(ledger, more[..n]);
      assert (ledger + more)[..|ledger + more| - 1] == ledger + more[..n];
      Reassociate(AllOutputs(ledger), AllOutputs(more[..n]), more[n].outputs);
    }
  }

  /** The ledger has spent the quote's input or reached its tombstone block. */
  predicate Stale(ledger: Ledger, q: Quote)
    requires |ledger| > 0
  {
    Expired(q, |ledger| - 1) || SpentIn(ledger, q.KeyImage())
  }

  // ---------------------------------------------------------------------------------------------
  // State and steps
  // ---------------------------------------------------------------------------------------------

  /**
   * An add under way: when it read the tip, when it looked for the key image, and how many ring
   * members it has found. Each is a read of the ledger of its own.
   */
  datatype PendingAdd = PendingAdd(quote: Quote, tipReadAt: nat, checkedAt: Option<nat>, members: nat) {
    /** All checks passed: what is left is the insertion. */
    predicate Ready() {
      checkedAt.Some? && members == |quote.sci.ring| == |quote.sci.txOutGlobalIndices|
    }
  }

  /** Where the thread stands. A removal and the callback that reports it are separate steps. */
  datatype Pc =
    | Top
    | Loading
    | Purging(i: nat)
    | Reporting(i: nat, removed: set<Quote>)
    | Sweeping
    | ReportingSwept(removed: set<Quote>)
    | Publishing
    | Stopped

  /**
   * How a quote came into the book: loaded at the start, or added, with the ledger lengths at its
   * three reads and the thread's progress at the insertion.
   */
  datatype Origin =
    | Loaded
    | Inserted(tipReadAt: nat, checkedAt: nat, ledgerAt: nat, nextAt: nat, purgedAt: nat, sweptAt: nat)

  /**
   * `next`, `height`, `start`, `pc` and `stop` are the thread's; `reported` counts what was passed
   * to the removal callback. `origin`, `ever` and `swept` only record history: the origin of each
   * quote, every quote ever held, and the number of blocks already swept for tombstones.
   */
  datatype State = State(
    ledger: Ledger,
    book: set<Quote>,
    next: nat,
    height: nat,
    start: nat,
    pc: Pc,
    stop: bool,
    reported: multiset<Quote>,
    pending: map<nat, PendingAdd>,
    origin: map<Quote, Origin>,
    ever: set<Quote>,
    swept: nat)

  datatype Step =
    | Append(block: Block)
    | RequestStop
    | Thread
    | ReadTip(client: nat, quote: Quote)
    | CheckImage(client: nat)
    | CheckMember(client: nat)
    | Insert(client: nat)
    | AtomicAdd(quote: Quote)
    | RemoveOutside(quotes: set<Quote>)

  /** Any non-empty ledger and any loaded book. */
  function Init(ledger: Ledger, book: set<Quote>): State {
    State(ledger, book, 0, 0, 0, Top, false, multiset{}, map[], map q | q in book :: Loaded, book, 0)
  }

  /** How many key images of block `next` the thread has removed. */
  function PurgeIndex(pc: Pc): nat {
    match pc
    case Purging(i) => i
    case Reporting(i, _) => i + 1
    case _ => 0
  }

  function InsertQuote(s: State, q: Quote, tipReadAt: nat, checkedAt: nat): State {
    if exists r :: r in s.book && Conflicts(r, q) then s
    else s.(book := s.book + {q},
            ever := s.ever + {q},
            origin := s.origin[q := Inserted(tipReadAt, checkedAt, |s.ledger|, s.next, PurgeIndex(s.pc), s.swept)])
  }

  function SpentBy(book: set<Quote>, keyImage: KeyImage): set<Quote> {
    set q | q in book && q.KeyImage() == keyImage
  }

  /** The quotes expired at the last of the first `next` blocks. */
  function ExpiredBefore(book: set<Quote>, next: nat): set<Quote> {
    set q | q in book && 0 < next && Expired(q, next - 1)
  }

  /** One step of the thread, as its program counter says. */
  function ThreadStep(s: State): State {
    match s.pc
    case Top =>
      if s.stop then s.(pc := Stopped) else s.(start := s.next, pc := Loading)
    case Loading =>
      if s.next < |s.ledger| then s.(pc := Purging(0))
      else s.(pc := if s.next != s.start then Sweeping else Top)
    case Purging(i) =>
      if s.next < |s.ledger| && i < |s.ledger[s.next].keyImages| then
        var removed := SpentBy(s.book, s.ledger[s.next].keyImages[i]);
        s.(book := s.book - removed, pc := Reporting(i, removed))
      else
        s.(next := s.next + 1, pc := if s.stop then Sweeping else Loading)
    case Reporting(i, removed) =>
      s.(reported := s.reported + multiset(removed), pc := Purging(i + 1))
    case Sweeping =>
      var removed := ExpiredBefore(s.book, s.next);
      s.(book := s.book - removed, swept := s.next, pc := ReportingSwept(removed))
    case ReportingSwept(removed) =>
      s.(reported := s.reported + multiset(removed), pc := Publishing)
    case Publishing =>
      s.(height := if 0 < s.next then s.next - 1 else 0, pc := Top)
    case Stopped => s
  }

  /** A step that is not enabled leaves the state as it is. */
  function Next(s: State, step: Step): State
    requires |s.ledger| > 0
    ensures |Next(s, step).ledger| > 0
  {
    match step
    case Append(block) => s.(ledger := s.ledger + [block])
    case RequestStop => s.(stop := true)
    case Thread => ThreadStep(s)
    case ReadTip(c, q) =>
      if c in s.pending || Expired(q, |s.ledger| - 1) then s
      else s.(pending := s.pending[c := PendingAdd(q, |s.ledger|, None, 0)])
    case CheckImage(c) =>
      if c !in s.pending || s.pending[c].checkedAt.Some? then s
      else if SpentIn(s.ledger, s.pending[c].quote.KeyImage()) then s.(pending := s.pending - {c})
      else s.(pending := s.pending[c := s.pending[c].(checkedAt := Some(|s.ledger|))])
    case CheckMember(c) =>
      if c !in s.pending || s.pending[c].checkedAt.None? || s.pending[c].Ready() then s
      else
        var add := s.pending[c];
        var sci := add.quote.sci;
        if |sci.ring| == |sci.txOutGlobalIndices| && add.members < |sci.ring|
           && MemberInLedger(s.ledger, sci, add.members) then
          s.(pending := s.pending[c := add.(members := add.members + 1)])
        else s.(pending := s.pending - {c})
    case Insert(c) =>
      if c !in s.pending || !s.pending[c].Ready() then s
      else
        var add := s.pending[c];
        InsertQuote(s.(pending := s.pending - {c}), add.quote, add.tipReadAt, add.checkedAt.value)
    case AtomicAdd(q) =>
      if Refusal(s.ledger, q).Some? then s
      else InsertQuote(s, q, |s.ledger|, |s.ledger|)
    case RemoveOutside(quotes) => s.(book := s.book - quotes)
  }

  function Exec(s: State, steps: seq<Step>): (r: State)
    requires |s.ledger| > 0
    ensures |r.ledger| > 0
  {
    if steps == [] then s else Next(Exec(s, steps[..|steps| - 1]), steps[|steps| - 1])
  }

  // ---------------------------------------------------------------------------------------------
  // What every interleaving keeps
  // ---------------------------------------------------------------------------------------------

  /** The thread is done with the `i`-th key image of block `j`, having reached (`next`, `index`). */
  predicate DoneAt(next: nat, index: nat, j: nat, i: nat) {
    j < next || (j == next && i < index)
  }

  predicate Purged(s: State, j: nat, i: nat) {
    DoneAt(s.next, PurgeIndex(s.pc), j, i)
  }

  /** The key image of `q` is the `i`-th of block `j`, and the thread is done with it. */
  ghost predicate SpentAndPurged(s: State, q: Quote, j: nat, i: nat) {
    j < |s.ledger| && i < |s.ledger[j].keyImages| && s.ledger[j].keyImages[i] == q.KeyImage() && Purged(s, j, i)
  }

  /**
   * The race: the add checked the ledger before block `j` was in it, and inserted after the thread
   * was done with that key image.
   */
  ghost predicate RacedPurge(o: Origin, j: nat, i: nat) {
    o.Inserted? && o.checkedAt <= j && DoneAt(o.nextAt, o.purgedAt, j, i)
  }

  /** The race with the sweep: tip read before the tombstone block, insertion after the last sweep. */
  ghost predicate RacedSweep(s: State, q: Quote, o: Origin) {
    o.Inserted? && o.tipReadAt <= q.Tombstone() && o.sweptAt == s.swept
  }

  ghost predicate ThreadInv(s: State) {
    && 0 < |s.ledger|
    && s.start <= s.next <= |s.ledger|
    && s.swept <= s.next
    && (0 < s.height ==> s.height < s.swept)
    && (s.pc.Purging? ==> s.next < |s.ledger| && s.pc.i <= |s.ledger[s.next].keyImages|)
    && (s.pc.Reporting? ==> s.next < |s.ledger| && s.pc.i < |s.ledger[s.next].keyImages|)
    && (s.pc.Sweeping? ==> 0 < s.next)
    && (s.pc.ReportingSwept? || s.pc.Publishing? ==> 0 < s.swept == s.next)
  }

  /** An add under way passed its checks when it says. */
  ghost predicate PendingOk(ledger: Ledger, add: PendingAdd) {
    && 0 < add.tipReadAt <= |ledger|
    && !Expired(add.quote, add.tipReadAt - 1)
    && (if add.checkedAt.None? then add.members == 0
        else
          && add.tipReadAt <= add.checkedAt.value <= |ledger|
          && !SpentIn(ledger[..add.checkedAt.value], add.quote.KeyImage())
          && (0 < add.members || add.Ready() ==> MembersInLedger(ledger, add.quote.sci, add.members)))
  }

  ghost predicate PendingInv(s: State) {
    forall c :: c in s.pending ==> PendingOk(s.ledger, s.pending[c])
  }

  /** Each quote in the book has an origin, and an inserted one passed its checks when it says. */
  ghost predicate OriginInv(s: State) {
    forall q :: q in s.book ==>
      && q in s.origin
      && (var o := s.origin[q];
          o.Inserted? ==>
            && 0 < o.tipReadAt <= o.checkedAt <= o.ledgerAt <= |s.ledger|
            && o.nextAt <= o.ledgerAt && (0 < o.purgedAt ==> o.nextAt < o.ledgerAt)
            && o.sweptAt <= o.ledgerAt
            && !Expired(q, o.tipReadAt - 1)
            && !SpentIn(s.ledger[..o.checkedAt], q.KeyImage())
            && RingInLedger(s.ledger, q.sci))
  }

  ghost predicate LeftoversRaced(s: State) {
    forall q, j, i :: q in s.book && SpentAndPurged(s, q, j, i) ==> q in s.origin && RacedPurge(s.origin[q], j, i)
  }

  ghost predicate ExpiredRaced(s: State) {
    forall q :: q in s.book && 0 < s.swept && Expired(q, s.swept - 1) ==> q in s.origin && RacedSweep(s, q, s.origin[q])
  }

  ghost predicate Inv(s: State) {
    ThreadInv(s) && PendingInv(s) && OriginInv(s) && LeftoversRaced(s) && ExpiredRaced(s)
  }

  lemma InitInv(ledger: Ledger, book: set<Quote>)
    requires |ledger| > 0
    ensures Inv(Init(ledger, book))
  {
  }

  lemma OutputsGrow(ledger: Ledger, block: Block)
    ensures AllOutputs(ledger) <= AllOutputs(ledger + [block])
  {
    assert (ledger + [block])[..|ledger|] == ledger;
  }

  /** A ring member found stays where it is. */
  lemma MembersStay(ledger: Ledger, block: Block, sci: Sci, n: nat)
    requires MembersInLedger(ledger, sci, n)
    ensures MembersInLedger(ledger + [block], sci, n)
  {
    OutputsGrow(ledger, block);
    forall k: nat | k < n ensures MemberInLedger(ledger + [block], sci, k) {
      assert MemberInLedger(ledger, sci, k);
    }
  }

  lemma PendingOkStays(ledger: Ledger, block: Block, add: PendingAdd)
    requires PendingOk(ledger, add)
    ensures PendingOk(ledger + [block], add)
  {
    if 0 < add.members || add.Ready() { MembersStay(ledger, block, add.quote.sci, add.members); }
    if add.checkedAt.Some? { assert (ledger + [block])[..add.checkedAt.value] == ledger[..add.checkedAt.value]; }
  }

  lemma AppendKeepsInv(s: State, block: Block)
    requires Inv(s)
    ensures Inv(Next(s, Append(block)))
  {
    var s' := Next(s, Append(block));
    forall c | c in s'.pending
      ensures PendingOk(s'.ledger, s'.pending[c])
    {
      PendingOkStays(s.ledger, block, s.pending[c]);
    }
    forall q | q in s.book && s.origin[q].Inserted? ensures RingInLedger(s'.ledger, q.sci) {
      MembersStay(s.ledger, block, q.sci, |q.sci.ring|);
    }
    forall n | 0 <= n <= |s.ledger| ensures s'.ledger[..n] == s.ledger[..n] {}
  }

  /** A removal of quotes, by whomever, breaks nothing as long as the rest stays. */
  lemma RemovalKeepsInv(s: State, quotes: set<Quote>)
    requires Inv(s)
    ensures Inv(s.(book := s.book - quotes))
  {
  }

  lemma NotSpentBefore(ledger: Ledger, n: nat, keyImage: KeyImage, j: nat)
    requires n <= |ledger| && !SpentIn(ledger[..n], keyImage)
    requires j < |ledger| && keyImage in ledger[j].keyImages
    ensures n <= j
  {
    forall m {:trigger ledger[m]} | 0 <= m < n ensures ledger[..n][m] == ledger[m] {}
  }

  /** The quote passed its checks: not expired at the tip read, not spent up to the check, its ring in the ledger. */
  ghost predicate Checked(s: State, q: Quote, tipReadAt: nat, checkedAt: nat) {
    && 0 < tipReadAt <= checkedAt <= |s.ledger|
    && !Expired(q, tipReadAt - 1) && !SpentIn(s.ledger[..checkedAt], q.KeyImage())
    && RingInLedger(s.ledger, q.sci)
  }

  lemma InsertKeepsOrigins(s: State, q: Quote, tipReadAt: nat, checkedAt: nat)
    requires Inv(s) && Checked(s, q, tipReadAt, checkedAt)
    ensures OriginInv(InsertQuote(s, q, tipReadAt, checkedAt)) && ExpiredRaced(InsertQuote(s, q, tipReadAt, checkedAt))
  {
  }

  lemma InsertLeftoversRaced(s: State, q: Quote, tipReadAt: nat, checkedAt: nat)
    requires Inv(s) && Checked(s, q, tipReadAt, checkedAt)
    ensures LeftoversRaced(InsertQuote(s, q, tipReadAt, checkedAt))
  {
    var s' := InsertQuote(s, q, tipReadAt, checkedAt);
    forall j: nat, i: nat | q in s'.book && SpentAndPurged(s', q, j, i) && s' != s
      ensures RacedPurge(s'.origin[q], j, i)
    {
      NotSpentBefore(s.ledger, checkedAt, q.KeyImage(), j);
    }
  }

  lemma InsertKeepsInv(s: State, q: Quote, tipReadAt: nat, checkedAt: nat)
    requires Inv(s) && Checked(s, q, tipReadAt, checkedAt)
    ensures Inv(InsertQuote(s, q, tipReadAt, checkedAt))
  {
    InsertKeepsOrigins(s, q, tipReadAt, checkedAt);
    InsertLeftoversRaced(s, q, tipReadAt, checkedAt);
  }

  /** The ledger, the pending adds and the history of the quotes stay as they are, and the book only shrinks. */
  ghost predicate Shrinks(s: State, s': State) {
    s'.ledger == s.ledger && s'.pending == s.pending && s'.origin == s.origin && s'.ever == s.ever && s'.book <= s.book
  }

  lemma ShrinkingKeeps(s: State, s': State)
    requires Shrinks(s, s') && PendingInv(s) && OriginInv(s)
    ensures PendingInv(s') && OriginInv(s')
  {
  }

  lemma ThreadShrinks(s: State)
    requires ThreadInv(s)
    ensures Shrinks(s, ThreadStep(s)) && ThreadInv(ThreadStep(s))
  {
    match s.pc {
      case Purging(i) => if i < |s.ledger[s.next].keyImages| { PurgeStep(s, i); }
      case Reporting(i, removed) => ReportStep(s, i, removed);
      case _ =>
    }
  }

  lemma PurgeStep(s: State, i: nat)
    requires ThreadInv(s) && s.pc == Purging(i) && i < |s.ledger[s.next].keyImages|
    ensures var removed := SpentBy(s.book, s.ledger[s.next].keyImages[i]);
            ThreadStep(s) == s.(book := s.book - removed, pc := Reporting(i, removed))
  {
  }

  lemma ReportStep(s: State, i: nat, removed: set<Quote>)
    requires s.pc == Reporting(i, removed)
    ensures ThreadStep(s) == s.(reported := s.reported + multiset(removed), pc := Purging(i + 1))
  {
  }

  lemma SweepStep(s: State)
    requires s.pc == Sweeping
    ensures var removed := ExpiredBefore(s.book, s.next);
            ThreadStep(s) == s.(book := s.book - removed, swept := s.next, pc := ReportingSwept(removed))
  {
  }

  /** The thread's progress changes only when it removes a key image or leaves a block. */
  lemma ProgressStep(s: State, j: nat, i: nat)
    requires ThreadInv(s) && j < |s.ledger| && i < |s.ledger[j].keyImages|
    ensures Purged(ThreadStep(s), j, i) ==> Purged(s, j, i) || (s.pc == Purging(i) && j == s.next)
  {
  }

  /** What the thread is newly done with after a step is gone from the book. */
  lemma ThreadPurges(s: State, q: Quote, j: nat, i: nat)
    requires Inv(s)
    requires q in ThreadStep(s).book && SpentAndPurged(ThreadStep(s), q, j, i)
    ensures q in s.book && SpentAndPurged(s, q, j, i)
  {
    ThreadShrinks(s);
    ProgressStep(s, j, i);
    if s.pc == Purging(i) && j == s.next { PurgeStep(s, i); }
  }

  lemma ThreadSweeps(s: State)
    requires Inv(s)
    ensures ExpiredRaced(ThreadStep(s))
  {
    ThreadShrinks(s);
  }

  lemma ThreadKeepsInv(s: State)
    requires Inv(s)
    ensures Inv(ThreadStep(s))
  {
    var s' := ThreadStep(s);
    ThreadShrinks(s);
    ShrinkingKeeps(s, s');
    ThreadSweeps(s);
    forall q, j: nat, i: nat | q in s'.book && SpentAndPurged(s', q, j, i)
      ensures q in s'.origin && RacedPurge(s'.origin[q], j, i)
    {
      ThreadPurges(s, q, j, i);
    }
  }

  lemma SetPendingKeepsInv(s: State, pending: map<nat, PendingAdd>)
    requires Inv(s) && forall c :: c in pending ==> PendingOk(s.ledger, pending[c])
    ensures Inv(s.(pending := pending))
  {
  }

  lemma RingErrorExact(ledger: Ledger, sci: Sci)
    ensures RingError(ledger, sci).None? <==> RingInLedger(ledger, sci)
  {
    if |sci.ring| == |sci.txOutGlobalIndices| {
      var outputs := AllOutputs(ledger);
      RingFaultFromExact(outputs, sci, 0);
      assert forall k: nat :: k < |sci.ring| ==> (
        MemberInLedger(ledger, sci, k)
        <==> sci.txOutGlobalIndices[k] < |outputs| && outputs[sci.txOutGlobalIndices[k]] == sci.ring[k]);
    }
  }

  lemma CheckImageKeepsInv(s: State, c: nat)
    requires Inv(s)
    ensures Inv(Next(s, CheckImage(c)))
  {
    assert s.ledger[..|s.ledger|] == s.ledger;
    SetPendingKeepsInv(s, Next(s, CheckImage(c)).pending);
  }

  lemma CheckMemberKeepsInv(s: State, c: nat)
    requires Inv(s)
    ensures Inv(Next(s, CheckMember(c)))
  {
    SetPendingKeepsInv(s, Next(s, CheckMember(c)).pending);
  }

  lemma AtomicAddKeepsInv(s: State, q: Quote)
    requires Inv(s)
    ensures Inv(Next(s, AtomicAdd(q)))
  {
    if Refusal(s.ledger, q).None? {
      assert s.ledger[..|s.ledger|] == s.ledger;
      RingErrorExact(s.ledger, q.sci);
      InsertKeepsInv(s, q, |s.ledger|, |s.ledger|);
    }
  }

  lemma InsertStepKeepsInv(s: State, c: nat)
    requires Inv(s)
    ensures Inv(Next(s, Insert(c)))
  {
    if c in s.pending && s.pending[c].Ready() {
      var add := s.pending[c];
      SetPendingKeepsInv(s, s.pending - {c});
      InsertKeepsInv(s.(pending := s.pending - {c}), add.quote, add.tipReadAt, add.checkedAt.value);
    }
  }

  lemma ReadTipKeepsInv(s: State, c: nat, q: Quote)
    requires Inv(s)
    ensures Inv(Next(s, ReadTip(c, q)))
  {
    SetPendingKeepsInv(s, Next(s, ReadTip(c, q)).pending);
  }

  lemma NextKeepsInv(s: State, step: Step)
    requires Inv(s)
    ensures Inv(Next(s, step))
  {
    match step {
      case Append(block) => AppendKeepsInv(s, block);
      case RequestStop =>
      case Thread => ThreadKeepsInv(s);
      case ReadTip(c, q) => ReadTipKeepsInv(s, c, q);
      case CheckImage(c) => CheckImageKeepsInv(s, c);
      case CheckMember(c) => CheckMemberKeepsInv(s, c);
      case Insert(c) => InsertStepKeepsInv(s, c);
      case AtomicAdd(q) => AtomicAddKeepsInv(s, q);
      case RemoveOutside(quotes) => RemovalKeepsInv(s, quotes);
    }
  }

  lemma {:induction false} ExecKeepsInv(s: State, steps: seq<Step>)
    requires Inv(s)
    ensures Inv(Exec(s, steps))
  {
    if steps != [] {
      ExecKeepsInv(s, steps[..|steps| - 1]);
      NextKeepsInv(Exec(s, steps[..|steps| - 1]), steps[|steps| - 1]);
    }
  }
}
