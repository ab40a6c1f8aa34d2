/** The client-facing service: a batch of SCIs becomes quotes, and one aligned response. */
module ClientService {
  import opened Basics
  import opened Sequences
  import opened Quotes
  import opened BookSpec
  import opened Ledgers
  import opened SyncedBookSteps
  import opened SyncedBook
  import opened SciAdds
  import opened BotResponses
  import opened BotSpec
  import opened BotLists

  /** A request with this many quotes is already too long. */
  const MAX_SIMULTANEOUS_QUOTES: nat := 30

  datatype RpcStatus = InvalidArgument | Internal

  function StatusOf(error: Error): StatusCode {
    match error
    case SciInvalid(_) => InvalidSci
    case UnsupportedSci(_) => UnsupportedSciCode
    case QuoteAlreadyExists(_) => AlreadyExists
    case QuoteIsStale => IsStale
    case InvalidRing(_) => InvalidSci
    case _ => Other
  }

  /** The status code and the quote of one result; an error other than a conflict has no quote. */
  function EntryOf(result: AddReply): (StatusCode, Option<Quote>) {
    match result
    case Ok(quote) => (StatusCode.Created, Some(quote))
    case Err(QuoteAlreadyExists(existing)) => (AlreadyExists, Some(existing))
    case Err(error) => (StatusOf(error), None)
  }

  function MessageOf(describe: Error -> string, result: AddReply): string {
    if result.Ok? then "" else describe(result.error)
  }

  /** The response tells of each result at its index. */
  ghost predicate Tells(resp: SubmitQuotesResponse, results: seq<AddReply>, describe: Error -> string) {
    && Aligned(resp, |results|)
    && forall i :: 0 <= i < |results| ==>
         && (resp.statusCodes[i], resp.quotes[i]) == EntryOf(results[i])
         && resp.errorMessages[i] == MessageOf(describe, results[i])
  }

  /** The smallest base amount the server takes for a token. */
  function MinimumFor(minimums: map<u64, u64>, tokenId: u64): nat {
    if tokenId in minimums then minimums[tokenId] else 0
  }

  /** The job of an SCI: refused by the validator for its volume, or to be added. */
  function JobOf(minimums: map<u64, u64>, sci: Sci, timestamp: u64): Job {
    if sci.pseudoOutput.value < MinimumFor(minimums, sci.pseudoOutput.tokenId) then Err(UnsupportedSci(VolumeTooSmall))
    else Ok((sci, timestamp))
  }

  function JobsOf(minimums: map<u64, u64>, scis: seq<Sci>, timestamp: u64): (jobs: seq<Job>)
    ensures |jobs| == |scis| && forall i :: 0 <= i < |scis| ==> jobs[i] == JobOf(minimums, scis[i], timestamp)
  {
    seq(|scis|, i requires 0 <= i < |scis| => JobOf(minimums, scis[i], timestamp))
  }

  predicate Converts(req: seq<Option<Sci>>) {
    forall i :: 0 <= i < |req| ==> req[i].Some?
  }

  /** The SCIs of a request that converts. */
  function Converted(req: seq<Option<Sci>>): (scis: seq<Sci>)
    requires Converts(req)
    ensures |scis| == |req| && forall i :: 0 <= i < |req| ==> req[i] == Some(scis[i])
  {
    seq(|req|, i requires 0 <= i < |req| => req[i].value)
  }

  class ClientService {
    const book: SynchronizedQuoteBook
    const minimums: map<u64, u64>
    /** The text of an error. */
    const describe: Error -> string
    /** The quotes put on the message bus, which peers and subscribers hear of. */
    var announced: seq<Quote>

    constructor (book: SynchronizedQuoteBook, minimums: map<u64, u64>, describe: Error -> string)
      ensures this.book == book && this.minimums == minimums && announced == []
    {
      this.book, this.minimums, this.describe := book, minimums, describe;
      announced := [];
    }

    /**
     * Takes a batch. `clock` is the time in nanoseconds if it can be read; an entry that does not
     * convert to an SCI is `None`. Either the whole request is refused and nothing changes, or
     * every SCI is answered at its index, whatever the order in which the adds ran.
     */
    method SubmitQuotes(req: seq<Option<Sci>>, clock: Option<u64>, ghost pool: set<Sci>)
      returns (resp: Result<SubmitQuotesResponse, RpcStatus>, ghost results: seq<AddReply>)
      requires book.Valid() && |book.ledger| > 0
      requires Sane(pool) && Sound(book.inner.Contents(), pool)
      requires forall i :: 0 <= i < |req| && req[i].Some? ==> req[i].value in pool
      modifies this, book, book.inner
      ensures book.Valid() && book.ledger == old(book.ledger) && Sound(book.inner.Contents(), pool)
      ensures resp.Err? <==> |req| >= 30 || clock.None? || !Converts(req)
      ensures resp.Err? ==>
                resp.error == if |req| < 30 && clock.None? then Internal else InvalidArgument
      ensures resp.Err? ==> book.inner.Contents() == old(book.inner.Contents()) && announced == old(announced)
      ensures resp.Ok? ==>
                && SettledAll(JudgedAll(book.ledger, JobsOf(minimums, Converted(req), clock.value)),
                              old(book.inner.Contents()), book.inner.Contents(), results)
                && Tells(resp.value, results, describe)
                && announced == old(announced) + Winners(results)
    {
      results := [];
      if |req| >= MAX_SIMULTANEOUS_QUOTES { return Err(InvalidArgument), results; }
      if clock.None? { return Err(Internal), results; }
      if !Converts(req) { return Err(InvalidArgument), results; }
      var found := AddAll(book, JobsOf(minimums, Converted(req), clock.value), pool);
      var response := Respond(found);
      resp, results := Ok(response), found;
    }

    /** Fills the three lists of the response and announces the new quotes, in the order of the results. */
    method Respond(results: seq<AddReply>) returns (resp: SubmitQuotesResponse)
      modifies this
      ensures Tells(resp, results, describe)
      ensures announced == old(announced) + Winners(results)
    {
      var statusCodes, errorMessages, quotes := [], [], [];
      for i := 0 to |results|
        invariant Tells(SubmitQuotesResponse(statusCodes, errorMessages, quotes), results[..i], describe)
        invariant announced == old(announced) + Winners(results[..i])
      {
        assert results[..i + 1][..i] == results[..i];
        match results[i] {
          case Ok(quote) =>
            statusCodes := statusCodes + [StatusCode.Created];
            errorMessages := errorMessages + [""];
            quotes := quotes + [Some(quote)];
            announced := announced + [quote];
          case Err(error) =>
            errorMessages := errorMessages + [describe(error)];
            statusCodes := statusCodes + [StatusOf(error)];
            quotes := quotes + [if error.QuoteAlreadyExists? then Some(error.existing) else None];
        }
      }
      assert results[..|results|] == results;
      resp := SubmitQuotesResponse(statusCodes, errorMessages, quotes);
    }
  }

  /** The server has a minimum for the token, and the SCI offers less. */
  ghost predicate TooSmall(minimums: map<u64, u64>, sci: Sci) {
    sci.pseudoOutput.tokenId in minimums && sci.pseudoOutput.value < minimums[sci.pseudoOutput.tokenId]
  }

  /** The ring has a wrong length, or its first bad member is another output than the ledger's. */
  ghost predicate RingInvalid(ledger: Ledger, sci: Sci) {
    || |sci.ring| != |sci.txOutGlobalIndices|
    || exists k: nat :: FirstFault(ledger, sci, k) && sci.txOutGlobalIndices[k] < |AllOutputs(ledger)|
  }

  /** The first bad member of the ring has an index that the ledger has not reached. */
  ghost predicate RingUnknown(ledger: Ledger, sci: Sci) {
    exists k: nat :: FirstFault(ledger, sci, k) && |AllOutputs(ledger)| <= sci.txOutGlobalIndices[k]
  }

  /** The ledger has spent the input or reached the tombstone block. */
  ghost predicate Outdated(ledger: Ledger, sci: Sci) {
    TombstoneReached(ledger, sci) || InputSpent(ledger, sci)
  }

  /** Nothing but a quote in the book stands against the SCI. */
  ghost predicate Welcome(ledger: Ledger, minimums: map<u64, u64>, sci: Sci) {
    !TooSmall(minimums, sci) && Supported(sci) && !Outdated(ledger, sci) && RingInLedger(ledger, sci)
  }

  /** What the judgement of an SCI is, in terms of the SCI, the minimums and the ledger. */
  lemma JudgementMeaning(ledger: Ledger, minimums: map<u64, u64>, sci: Sci, timestamp: u64)
    requires |ledger| > 0
    ensures var r := Judged(ledger, JobOf(minimums, sci, timestamp));
            && (r.Ok? <==> Welcome(ledger, minimums, sci))
            && (r.Ok? ==> r == QuoteNew(sci, timestamp))
            && (r.Err? ==> StatusCodeMeans(StatusOf(r.error), ledger, minimums, sci))
  {
    QuotesAreSupported(sci, timestamp);
    var made := QuoteNew(sci, timestamp);
    if made.Err? {
      QuoteErrors(sci, timestamp);
    } else {
      RefusalMeaning(ledger, made.value);
    }
  }

  /** A refusal by the ledger is for staleness, for a bad ring or for an unknown one. */
  lemma RefusalMeaning(ledger: Ledger, q: Quote)
    requires |ledger| > 0
    ensures var e := Refusal(ledger, q);
            && (e.None? <==> !Outdated(ledger, q.sci) && RingInLedger(ledger, q.sci))
            && (e.Some? ==>
                  || (StatusOf(e.value) == IsStale && Outdated(ledger, q.sci))
                  || (StatusOf(e.value) == InvalidSci && !Outdated(ledger, q.sci) && RingInvalid(ledger, q.sci))
                  || (StatusOf(e.value) == Other && !Outdated(ledger, q.sci) && RingUnknown(ledger, q.sci)))
  {
    RefusalExact(ledger, q);
    RingErrorKinds(ledger, q.sci);
    if RingError(ledger, q.sci).Some? { RingErrorSides(ledger, q.sci); }
  }

  lemma RingErrorSides(ledger: Ledger, sci: Sci)
    requires RingError(ledger, sci).Some?
    ensures var e := RingError(ledger, sci).value;
            (e.InvalidRing? && RingInvalid(ledger, sci)) || (e.ImplementationSpecific? && RingUnknown(ledger, sci))
  {
    RingErrorKinds(ledger, sci);
    var e := RingError(ledger, sci).value;
    if e.InvalidRing? { assert e.fault.MissingIndex? || e.fault.InvalidMember?; }
  }

  /** What a status code other than created and known already tells the client. */
  ghost predicate StatusCodeMeans(code: StatusCode, ledger: Ledger, minimums: map<u64, u64>, sci: Sci) {
    match code
    case UnsupportedSciCode =>
      TooSmall(minimums, sci) || (sci.validation.None? && !Supported(sci) && !Unrevealed(sci))
    case InvalidSci =>
      && !TooSmall(minimums, sci)
      && (sci.validation.Some? || (Supported(sci) && !Outdated(ledger, sci) && RingInvalid(ledger, sci)))
    case IsStale => !TooSmall(minimums, sci) && Supported(sci) && Outdated(ledger, sci)
    case Other =>
      && !TooSmall(minimums, sci)
      && (|| (sci.validation.None? && Unrevealed(sci))
          || (Supported(sci) && !Outdated(ledger, sci) && RingUnknown(ledger, sci)))
    case _ => false
  }

  /**
   * What a client reads off the response: an SCI is created or known already if and only if nothing
   * but a quote in the book stands against it, and every other status tells what does.
   */
  lemma StatusSaysWhy(resp: SubmitQuotesResponse, results: seq<AddReply>, ledger: Ledger, minimums: map<u64, u64>,
                      scis: seq<Sci>, timestamp: u64, before: set<Quote>, after: set<Quote>,
                      describe: Error -> string, i: nat)
    requires |ledger| > 0 && Tells(resp, results, describe) && i < |scis|
    requires SettledAll(JudgedAll(ledger, JobsOf(minimums, scis, timestamp)), before, after, results)
    ensures var code := resp.statusCodes[i];
            && (code.Created? || code.AlreadyExists? <==> Welcome(ledger, minimums, scis[i]))
            && (code.Created? || code.AlreadyExists? || StatusCodeMeans(code, ledger, minimums, scis[i]))
  {
    var judged := JudgedAll(ledger, JobsOf(minimums, scis, timestamp));
    JudgementMeaning(ledger, minimums, scis[i], timestamp);
    assert Answered(judged[i], before, after, results[i]);
  }

  /** The book holds a quote for the pair and the input of an SCI that nothing else stands against. */
  ghost predicate HeldFor(ledger: Ledger, minimums: map<u64, u64>, sci: Sci, r: Quote) {
    && Welcome(ledger, minimums, sci) && r.KeyImage() == sci.keyImage
    && forall t: u64 :: QuoteNew(sci, t).Ok? ==> r.pair == QuoteNew(sci, t).value.pair
  }

  /** Such an SCI is answered as known already, with that quote. */
  lemma HeldIsReported(resp: SubmitQuotesResponse, results: seq<AddReply>, ledger: Ledger, minimums: map<u64, u64>,
                       scis: seq<Sci>, timestamp: u64, before: set<Quote>, after: set<Quote>,
                       describe: Error -> string, i: nat, r: Quote)
    requires |ledger| > 0 && Tells(resp, results, describe) && i < |scis| && BookInv(after)
    requires SettledAll(JudgedAll(ledger, JobsOf(minimums, scis, timestamp)), before, after, results)
    requires r in before && HeldFor(ledger, minimums, scis[i], r)
    ensures resp.statusCodes[i].AlreadyExists? && resp.quotes[i] == Some(r)
  {
    var judged := JudgedAll(ledger, JobsOf(minimums, scis, timestamp));
    JudgementMeaning(ledger, minimums, scis[i], timestamp);
    CandidateIsGenuine(ledger, scis[i], timestamp);
    HeldBeforeWins(judged, before, after, results, i, r);
  }

  // ---------------------------------------------------------------------------------------------
  // The bot against this service
  // ---------------------------------------------------------------------------------------------

  /** A response is well formed, and reports as created only what was submitted and as known what was held. */
  lemma ResponseSuitsBot(resp: SubmitQuotesResponse, results: seq<AddReply>, ledger: Ledger, minimums: map<u64, u64>,
                         scis: seq<Sci>, timestamp: u64, before: set<Quote>, after: set<Quote>,
                         describe: Error -> string)
    requires |ledger| > 0 && Tells(resp, results, describe)
    requires SettledAll(JudgedAll(ledger, JobsOf(minimums, scis, timestamp)), before, after, results) && BookInv(after)
    ensures WellFormed(resp, |scis|) && Honest(resp, scis) && Reports(resp, scis, ledger, minimums, before)
  {
    forall i: nat, r | i < |scis| && r in before && HeldFor(ledger, minimums, scis[i], r)
      ensures resp.statusCodes[i].AlreadyExists? && resp.quotes[i] == Some(r)
    {
      HeldIsReported(resp, results, ledger, minimums, scis, timestamp, before, after, describe, i, r);
    }
    CreatedIsSubmitted(resp, results, ledger, minimums, scis, timestamp, before, after, describe);
  }

  lemma CreatedIsSubmitted(resp: SubmitQuotesResponse, results: seq<AddReply>, ledger: Ledger, minimums: map<u64, u64>,
                           scis: seq<Sci>, timestamp: u64, before: set<Quote>, after: set<Quote>,
                           describe: Error -> string)
    requires |ledger| > 0 && Tells(resp, results, describe)
    requires SettledAll(JudgedAll(ledger, JobsOf(minimums, scis, timestamp)), before, after, results)
    ensures WellFormed(resp, |scis|) && Honest(resp, scis)
  {
    var judged := JudgedAll(ledger, JobsOf(minimums, scis, timestamp));
    forall i | 0 <= i < |scis| && resp.statusCodes[i].Created?
      ensures resp.quotes[i].Some? && resp.quotes[i].value.sci == scis[i]
    {
      assert Answered(judged[i], before, after, results[i]);
      assert results[i].Ok? && results[i] == judged[i];
      CandidateIsGenuine(ledger, scis[i], timestamp);
    }
  }

  function AsRequest(scis: seq<Sci>): (req: seq<Option<Sci>>)
    ensures |req| == |scis| && forall i :: 0 <= i < |scis| ==> req[i] == Some(scis[i])
  {
    seq(|scis|, i requires 0 <= i < |scis| => Some(scis[i]))
  }

  /** Every SCI for whose input the book held a quote is answered with it. */
  ghost predicate Reports(resp: SubmitQuotesResponse, scis: seq<Sci>, ledger: Ledger, minimums: map<u64, u64>,
                          book: set<Quote>)
    requires Aligned(resp, |scis|)
  {
    forall i: nat, r :: i < |scis| && r in book && HeldFor(ledger, minimums, scis[i], r) ==>
      resp.statusCodes[i].AlreadyExists? && resp.quotes[i] == Some(r)
  }

  /** One request of the bot: refused as a whole, or answered in a way that suits the bot. */
  method Ask(service: ClientService, scis: seq<Sci>, clock: Option<u64>, ghost pool: set<Sci>)
    returns (received: Option<SubmitQuotesResponse>)
    requires service.book.Valid() && |service.book.ledger| > 0
    requires Sane(pool) && Sound(service.book.inner.Contents(), pool)
    requires forall i :: 0 <= i < |scis| ==> scis[i] in pool
    modifies service, service.book, service.book.inner
    ensures service.book.Valid() && Sound(service.book.inner.Contents(), pool)
    ensures received.None? <==> |scis| >= MAX_SIMULTANEOUS_QUOTES || clock.None?
    ensures received.Some? ==> WellFormed(received.value, |scis|) && Honest(received.value, scis)
    ensures received.Some? ==>
              Reports(received.value, scis, service.book.ledger, service.minimums, old(service.book.inner.Contents()))
    ensures service.book.ledger == old(service.book.ledger)
  {
    ghost var before := service.book.inner.Contents();
    var answer, results := service.SubmitQuotes(AsRequest(scis), clock, pool);
    if answer.Err? { return None; }
    assert Converted(AsRequest(scis)) == scis;
    ResponseSuitsBot(answer.value, results, service.book.ledger, service.minimums, scis, clock.value,
                     before, service.book.inner.Contents(), service.describe);
    received := Some(answer.value);
  }

  /**
   * The bot submits its queue to this service: the bot's assertion holds, the queue is emptied
   * into the accepted and the rejected, and nothing is lost, neither then nor when the service
   * refuses the request.
   */
  method SubmitToService(bot: LiquidityBotTask, service: ClientService, clock: Option<u64>, botClock: nat -> u64,
                         ghost pool: set<Sci>)
    returns (ending: Ending, resp: Option<SubmitQuotesResponse>)
    requires bot.Valid() && service.book.Valid() && |service.book.ledger| > 0
    requires Sane(pool) && Sound(service.book.inner.Contents(), pool)
    requires forall i :: 0 <= i < |bot.pending| ==> bot.pending[i].sci in pool
    modifies bot, service, service.book, service.book.inner
    ensures bot.Valid() && service.book.Valid() && Sound(service.book.inner.Contents(), pool)
    ensures bot.Model() == AfterSubmit(old(bot.Model()), resp, botClock) && bot.fate.lost == old(bot.fate.lost)
    ensures !ending.Panicked?
    ensures ending.Failed? <==> old(bot.pending) != [] && (|old(bot.pending)| >= MAX_SIMULTANEOUS_QUOTES || clock.None?)
    ensures ending.Failed? ==> bot.Model() == old(bot.Model())
    ensures ending.Done? && old(bot.pending) != [] ==>
              bot.pending == [] && resp.Some? && WellFormed(resp.value, |old(bot.pending)|)
    ensures resp.Some? ==> forall i: nat, r ::
              && i < |old(bot.pending)| && r in old(service.book.inner.Contents())
              && HeldFor(service.book.ledger, service.minimums, old(bot.pending)[i].sci, r) ==>
                ListedTxOut(old(bot.pending)[i].matched, r, botClock(i)) in bot.listed
  {
    resp := None;
    if bot.pending == [] { return Done, resp; }
    ghost var before := service.book.inner.Contents();
    resp := Ask(service, PendingScis(bot.pending), clock, pool);
    SubmitLoses(bot.Model(), resp, botClock);
    if resp.Some? {
      HonestEnding(resp.value, PendingScis(bot.pending));
      SubmitListsHeld(bot.Model(), resp.value, botClock, service.book.ledger, service.minimums, before);
    }
    ending := bot.SubmitPendingTxOuts(resp, botClock);
  }

  /**
   * The bot submits again what is due: its assertion holds, what is due is emptied into the
   * accepted and the rejected, and nothing is lost, neither then nor when the service refuses the
   * request.
   */
  method ResubmitToService(bot: LiquidityBotTask, service: ClientService, olderThan: nat, now: u64,
                           clock: Option<u64>, botClock: nat -> u64, ghost pool: set<Sci>)
    returns (ending: Ending, resp: Option<SubmitQuotesResponse>)
    requires bot.Valid() && service.book.Valid() && |service.book.ledger| > 0
    requires Sane(pool) && Sound(service.book.inner.Contents(), pool)
    requires forall l :: l in bot.listed ==> l.quote.sci in pool
    modifies bot, service, service.book, service.book.inner
    ensures bot.Valid() && service.book.Valid() && Sound(service.book.inner.Contents(), pool)
    ensures bot.Model() == AfterResubmit(old(bot.Model()), olderThan, now, resp, botClock)
    ensures bot.fate.lost == old(bot.fate.lost)
    ensures !ending.Panicked?
    ensures var due := Filter(old(bot.listed), DueAt(now, olderThan));
            && (ending.Failed? <==> due != [] && (|due| >= MAX_SIMULTANEOUS_QUOTES || clock.None?))
            && (ending.Done? && due != [] ==> resp.Some? && WellFormed(resp.value, |due|))
            && (resp.Some? ==> forall i: nat, r ::
                  && i < |due| && r in old(service.book.inner.Contents())
                  && HeldFor(service.book.ledger, service.minimums, due[i].quote.sci, r) ==>
                    ListedTxOut(due[i].matched, r, botClock(i)) in bot.listed)
  {
    var due := Filter(bot.listed, DueAt(now, olderThan));
    FilterElements(bot.listed, DueAt(now, olderThan));
    resp := None;
    ghost var before := service.book.inner.Contents();
    if due != [] {
      assert forall i :: 0 <= i < |due| ==> due[i] in due;
      resp := Ask(service, ListedScis(due), clock, pool);
      if resp.Some? {
        HonestEnding(resp.value, ListedScis(due));
        ResubmitListsHeld(bot.Model(), olderThan, now, resp.value, botClock,
                          service.book.ledger, service.minimums, before);
      }
    }
    ResubmitLoses(bot.Model(), olderThan, now, resp, botClock);
    ending := bot.ResubmitListedTxOuts(olderThan, now, resp, botClock);
  }

  /** An output for whose input the service held a quote ends up listed with that quote. */
  lemma SubmitListsHeld(bot: Bot, resp: SubmitQuotesResponse, clock: nat -> u64,
                        ledger: Ledger, minimums: map<u64, u64>, book: set<Quote>)
    requires bot.pending != [] && Distinct(bot.pending, bot.listed) && WellFormed(resp, |bot.pending|)
    requires Honest(resp, PendingScis(bot.pending)) && Reports(resp, PendingScis(bot.pending), ledger, minimums, book)
    ensures forall i: nat, r ::
              i < |bot.pending| && r in book && HeldFor(ledger, minimums, bot.pending[i].sci, r) ==>
                ListedTxOut(bot.pending[i].matched, r, clock(i)) in AfterSubmit(bot, Some(resp), clock).listed
  {
    var scis := PendingScis(bot.pending);
    forall i: nat, r | i < |bot.pending| && r in book && HeldFor(ledger, minimums, bot.pending[i].sci, r)
      ensures ListedTxOut(bot.pending[i].matched, r, clock(i)) in AfterSubmit(bot, Some(resp), clock).listed
    {
      forall j: nat | j <= i ensures Passes(resp, scis, j) { HonestPasses(resp, scis, j); }
      assert HeldFor(ledger, minimums, scis[i], r);
      SubmitEntry(bot, resp, clock, i);
    }
  }

  lemma ResubmitListsHeld(bot: Bot, olderThan: nat, now: u64, resp: SubmitQuotesResponse, clock: nat -> u64,
                          ledger: Ledger, minimums: map<u64, u64>, book: set<Quote>)
    requires Distinct(bot.pending, bot.listed)
    requires var due := Filter(bot.listed, DueAt(now, olderThan));
             && WellFormed(resp, |due|) && Honest(resp, ListedScis(due))
             && Reports(resp, ListedScis(due), ledger, minimums, book)
    ensures var due := Filter(bot.listed, DueAt(now, olderThan));
            forall i: nat, r ::
              i < |due| && r in book && HeldFor(ledger, minimums, due[i].quote.sci, r) ==>
                ListedTxOut(due[i].matched, r, clock(i)) in AfterResubmit(bot, olderThan, now, Some(resp), clock).listed
  {
    var due := Filter(bot.listed, DueAt(now, olderThan));
    var scis := ListedScis(due);
    forall i: nat, r | i < |due| && r in book && HeldFor(ledger, minimums, due[i].quote.sci, r)
      ensures ListedTxOut(due[i].matched, r, clock(i)) in AfterResubmit(bot, olderThan, now, Some(resp), clock).listed
    {
      forall j: nat | j <= i ensures Passes(resp, scis, j) { HonestPasses(resp, scis, j); }
      assert HeldFor(ledger, minimums, scis[i], r);
      ResubmitEntry(bot, olderThan, now, resp, clock, i);
    }
  }
}
