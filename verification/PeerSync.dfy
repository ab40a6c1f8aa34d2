/** Peers: what a node answers to its peers, what it takes from gossip, and how it syncs with one of them. */
module PeerSync {
  import opened Basics
  import opened Sequences
  import opened Quotes
  import opened BookSpec
  import opened Ledgers
  import opened SqliteRows
  import opened SyncedBookSteps
  import opened SyncedBook
  import opened SciAdds

  const MAX_QUOTES_PER_REQUEST: nat := 100

  /** The answers of a peer whose book does not change meanwhile; a number stands for an RPC error. */
  datatype Peer = Peer(
    allQuoteIds: Result<seq<QuoteId>, nat>,
    quotesById: seq<QuoteId> -> Result<seq<Result<Option<Quote>, nat>>, nat>)

  // ---------------------------------------------------------------------------------------------
  // The answering side
  // ---------------------------------------------------------------------------------------------

  ghost predicate Holds(book: set<Quote>, id: QuoteId) {
    exists q :: q in book && q.id == id
  }

  ghost predicate ListsIds(book: set<Quote>, ids: seq<QuoteId>) {
    forall id :: id in ids <==> Holds(book, id)
  }

  /** The ids of one book that the other does not hold. */
  ghost predicate ListsMissing(local: set<Quote>, remote: set<Quote>, ids: seq<QuoteId>) {
    forall id :: id in ids <==> Holds(remote, id) && !Holds(local, id)
  }

  method AnswerAllQuoteIds(book: SynchronizedQuoteBook) returns (ids: seq<QuoteId>)
    requires book.Valid()
    ensures ListsIds(book.inner.Contents(), ids)
  {
    ids := book.inner.GetQuoteIds(None);
  }

  /** Looks each id up, or refuses a request for too many. */
  method AnswerQuotesById(book: SynchronizedQuoteBook, ids: seq<QuoteId>)
    returns (resp: Result<seq<Option<Quote>>, nat>)
    requires book.Valid()
    ensures resp.Ok? <==> |ids| <= 100
    ensures resp.Ok? ==>
              && |resp.value| == |ids|
              && forall i :: 0 <= i < |ids| ==> Finds(book.inner.Contents(), ids[i], resp.value[i])
  {
    if |ids| > MAX_QUOTES_PER_REQUEST { return Err(0); }
    var quotes := [];
    for i := 0 to |ids|
      invariant |quotes| == i && forall k :: 0 <= k < i ==> Finds(book.inner.Contents(), ids[k], quotes[k])
    {
      var found := book.inner.GetQuoteById(ids[i]);
      quotes := quotes + [found];
    }
    resp := Ok(quotes);
  }

  /** A peer that answers as above from a book, over calls that do not fail. */
  ghost predicate AnswersFrom(peer: Peer, book: set<Quote>) {
    && peer.allQuoteIds.Ok? && ListsIds(book, peer.allQuoteIds.value)
    && forall ids :: |ids| <= MAX_QUOTES_PER_REQUEST ==>
         var resp := peer.quotesById(ids);
         && resp.Ok? && |resp.value| == |ids|
         && forall i :: 0 <= i < |ids| ==> resp.value[i].Ok? && Finds(book, ids[i], resp.value[i].value)
  }

  /** If the peer answers the ids with a quote at `i`, its SCI is in the pool. */
  ghost predicate Sends(peer: Peer, ids: seq<QuoteId>, i: nat, pool: set<Sci>) {
    var resp := peer.quotesById(ids);
    resp.Ok? && i < |resp.value| && resp.value[i].Ok? && resp.value[i].value.Some? ==>
      resp.value[i].value.value.sci in pool
  }

  /** Every SCI the peer may send is in the pool. */
  ghost predicate SendsFrom(peer: Peer, pool: set<Sci>) {
    forall ids, i: nat :: Sends(peer, ids, i, pool)
  }

  /**
   * The answers of a node to its peers, as a function of the request: the list of its ids, and for
   * each id asked for what a lookup in the book finds.
   */
  method AsPeer(book: SynchronizedQuoteBook, ghost pool: set<Sci>) returns (peer: Peer)
    requires book.Valid() && Sound(book.inner.Contents(), pool)
    ensures AnswersFrom(peer, book.inner.Contents()) && SendsFrom(peer, pool)
  {
    var ids := AnswerAllQuoteIds(book);
    var byId: map<QuoteId, Quote> := map[];
    for i := 0 to |ids|
      invariant forall id :: id in byId <==> id in ids[..i]
      invariant forall id :: id in byId ==> byId[id] in book.inner.Contents() && byId[id].id == id
    {
      assert ids[..i + 1] == ids[..i] + [ids[i]];
      assert ids[i] in ids;
      var found := book.inner.GetQuoteById(ids[i]);
      byId := byId[ids[i] := found.value];
    }
    assert ids[..|ids|] == ids;
    peer := Peer(Ok(ids), asked => AnswerFrom(byId, asked));
    LookupAnswers(byId, book.inner.Contents());
    forall asked, i: nat | true ensures Sends(peer, asked, i, pool) {}
  }

  /** A request for too many ids is refused; otherwise each id is looked up. */
  function AnswerFrom(byId: map<QuoteId, Quote>, ids: seq<QuoteId>): Result<seq<Result<Option<Quote>, nat>>, nat> {
    if |ids| > MAX_QUOTES_PER_REQUEST then Err(0)
    else Ok(seq(|ids|, i requires 0 <= i < |ids| => Ok(if ids[i] in byId then Some(byId[ids[i]]) else None)))
  }

  lemma LookupAnswers(byId: map<QuoteId, Quote>, book: set<Quote>)
    requires forall id :: id in byId <==> Holds(book, id)
    requires forall id :: id in byId ==> byId[id] in book && byId[id].id == id
    ensures forall ids, i :: |ids| <= MAX_QUOTES_PER_REQUEST && 0 <= i < |ids| ==>
              AnswerFrom(byId, ids).value[i].Ok? && Finds(book, ids[i], AnswerFrom(byId, ids).value[i].value)
  {
    forall ids, i | |ids| <= MAX_QUOTES_PER_REQUEST && 0 <= i < |ids|
      ensures AnswerFrom(byId, ids).value[i].Ok? && Finds(book, ids[i], AnswerFrom(byId, ids).value[i].value)
    {
      assert ids[i] in byId <==> Holds(book, ids[i]);
    }
  }

  // ---------------------------------------------------------------------------------------------
  // Gossip
  // ---------------------------------------------------------------------------------------------

  /**
   * Takes a quote from gossip: only its SCI and timestamp are used. The answer says whether the
   * rest of what the peer sent agreed.
   */
  method HandleSciQuoteAdded(book: SynchronizedQuoteBook, remote: Quote, ghost pool: set<Sci>)
    returns (reply: Result<bool, Error>, ghost added: AddReply)
    requires book.Valid() && |book.ledger| > 0
    requires Sane(pool) && Sound(book.inner.Contents(), pool) && remote.sci in pool
    modifies book, book.inner
    ensures book.Valid() && book.ledger == old(book.ledger) && Sound(book.inner.Contents(), pool)
    ensures AddSciEffect(Candidate(book.ledger, remote.sci, remote.timestamp),
                         old(book.inner.Contents()), book.inner.Contents(), added)
    ensures reply.Ok? <==> added.Ok?
    ensures reply.Err? ==> reply.error == added.error
    ensures reply.Ok? ==> (reply.value <==> Genuine(remote))
  {
    var local := AddSci(book, remote.sci, remote.timestamp, pool);
    added := local;
    if local.Err? { return Err(local.error), added; }
    CandidateIsGenuine(book.ledger, remote.sci, remote.timestamp);
    reply := Ok(remote == local.value);
  }

  // ---------------------------------------------------------------------------------------------
  // Sync
  // ---------------------------------------------------------------------------------------------

  datatype Tally = Tally(added: nat, duplicates: nat, missing: nat, errors: nat)

  function JobOfAnswer(answer: Result<Option<Quote>, nat>): Job {
    match answer
    case Ok(Some(quote)) => Ok((quote.sci, quote.timestamp))
    case Ok(None) => Err(QuoteNotFound)
    case Err(_) => Err(ImplementationSpecific)
  }

  /** What one request yields; a request that fails, or is answered at the wrong length, yields nothing. */
  function JobsOfChunk(peer: Peer, ids: seq<QuoteId>): seq<Job> {
    var resp := peer.quotesById(ids);
    if resp.Err? || |resp.value| != |ids| then []
    else seq(|ids|, i requires 0 <= i < |ids| => JobOfAnswer(resp.value[i]))
  }

  /** One request. An answer of the wrong length is an error. */
  method FetchQuotes(peer: Peer, ids: seq<QuoteId>) returns (jobs: Option<seq<Job>>)
    ensures jobs.Some? <==> peer.quotesById(ids).Ok? && |peer.quotesById(ids).value| == |ids|
    ensures JobsOfChunk(peer, ids) == if jobs.Some? then jobs.value else []
  {
    var resp := peer.quotesById(ids);
    if resp.Err? || |resp.value| != |ids| { return None; }
    jobs := Some(seq(|ids|, i requires 0 <= i < |ids| => JobOfAnswer(resp.value[i])));
  }

  /** The job for an id is the add of the book's quote with that id. */
  ghost predicate JobFor(book: set<Quote>, id: QuoteId, job: Job) {
    exists q :: q in book && q.id == id && job == Ok((q.sci, q.timestamp))
  }

  /** The number of ids asked for by the first `k` requests. */
  function Asked(ids: seq<QuoteId>, k: nat): (n: nat)
    ensures n <= |ids|
  {
    Min(k * MAX_QUOTES_PER_REQUEST, |ids|)
  }

  /** What is to be added after the first `k` requests, each for a chunk of the ids. */
  function Collected(peer: Peer, ids: seq<QuoteId>, k: nat): seq<Job> {
    if k == 0 then []
    else Collected(peer, ids, k - 1) + JobsOfChunk(peer, ids[Asked(ids, k - 1)..Asked(ids, k)])
  }

  function Requests(ids: seq<QuoteId>): (k: nat)
    ensures Asked(ids, k) == |ids| && (0 < k ==> Asked(ids, k - 1) < |ids|)
  {
    (|ids| + MAX_QUOTES_PER_REQUEST - 1) / MAX_QUOTES_PER_REQUEST
  }

  /** Requests the ids chunk by chunk. */
  method FetchMissing(peer: Peer, missing: seq<QuoteId>) returns (jobs: seq<Job>)
    ensures jobs == Collected(peer, missing, Requests(missing))
  {
    jobs := [];
    for k := 0 to Requests(missing)
      invariant jobs == Collected(peer, missing, k)
    {
      var fetched := FetchQuotes(peer, missing[Asked(missing, k)..Asked(missing, k + 1)]);
      if fetched.Some? { jobs := jobs + fetched.value; }
    }
  }

  lemma {:induction false} CollectedOver(peer: Peer, ids: seq<QuoteId>, k: nat, pool: set<Sci>)
    requires SendsFrom(peer, pool)
    ensures Over(Collected(peer, ids, k), pool)
  {
    if k != 0 {
      CollectedOver(peer, ids, k - 1, pool);
      ChunkOver(peer, ids[Asked(ids, k - 1)..Asked(ids, k)], pool);
    }
  }

  lemma ChunkOver(peer: Peer, ids: seq<QuoteId>, pool: set<Sci>)
    requires SendsFrom(peer, pool)
    ensures Over(JobsOfChunk(peer, ids), pool)
  {
    var resp := peer.quotesById(ids);
    if resp.Ok? && |resp.value| == |ids| {
      forall i: nat | i < |ids| && JobOfAnswer(resp.value[i]).Ok? ensures JobOfAnswer(resp.value[i]).value.0 in pool {
        assert Sends(peer, ids, i, pool);
      }
    }
  }

  /** Each job is for its id. */
  ghost predicate JobsFor(book: set<Quote>, ids: seq<QuoteId>, jobs: seq<Job>) {
    |jobs| == |ids| && forall i :: 0 <= i < |ids| ==> JobFor(book, ids[i], jobs[i])
  }

  /** From a peer that answers, every id of its book yields its quote: no chunk is too long for it. */
  lemma {:induction false} CollectedAnswers(peer: Peer, remote: set<Quote>, ids: seq<QuoteId>, k: nat)
    requires AnswersFrom(peer, remote) && forall id :: id in ids ==> Holds(remote, id)
    ensures JobsFor(remote, ids[..Asked(ids, k)], Collected(peer, ids, k))
  {
    if k != 0 {
      var first, chunk := ids[..Asked(ids, k - 1)], ids[Asked(ids, k - 1)..Asked(ids, k)];
      assert ids[..Asked(ids, k)] == first + chunk;
      CollectedAnswers(peer, remote, ids, k - 1);
      ChunkAnswers(peer, remote, chunk);
      JobsForConcat(remote, first, Collected(peer, ids, k - 1), chunk, JobsOfChunk(peer, chunk));
    }
  }

  lemma JobsForConcat(book: set<Quote>, ids: seq<QuoteId>, jobs: seq<Job>, ids': seq<QuoteId>, jobs': seq<Job>)
    requires JobsFor(book, ids, jobs) && JobsFor(book, ids', jobs')
    ensures JobsFor(book, ids + ids', jobs + jobs')
  {
  }

  lemma ChunkAnswers(peer: Peer, remote: set<Quote>, ids: seq<QuoteId>)
    requires AnswersFrom(peer, remote) && |ids| <= MAX_QUOTES_PER_REQUEST
    requires forall id :: id in ids ==> Holds(remote, id)
    ensures JobsFor(remote, ids, JobsOfChunk(peer, ids))
  {
    var resp := peer.quotesById(ids);
    forall i | 0 <= i < |ids| ensures JobFor(remote, ids[i], JobOfAnswer(resp.value[i])) {
      assert ids[i] in ids && Finds(remote, ids[i], resp.value[i].value);
    }
  }

  ghost predicate Ascending(ids: seq<QuoteId>) {
    forall i, j :: 0 <= i < j < |ids| ==> ids[i] < ids[j]
  }

  lemma {:induction false} LeastExists(ids: set<QuoteId>, some: QuoteId)
    requires some in ids
    ensures exists least :: least in ids && forall id :: id in ids ==> least <= id
    decreases some
  {
    if smaller :| smaller in ids && smaller < some {
      LeastExists(ids, smaller);
    } else {
      assert forall id :: id in ids ==> some <= id;
    }
  }

  method Least(ids: set<QuoteId>) returns (least: QuoteId)
    requires ids != {}
    ensures least in ids && forall id :: id in ids ==> least <= id
  {
    var some :| some in ids;
    LeastExists(ids, some);
    least :| least in ids && forall id :: id in ids ==> least <= id;
  }

  lemma AscendingAppend(ids: seq<QuoteId>, last: QuoteId)
    requires Ascending(ids) && forall id :: id in ids ==> id < last
    ensures Ascending(ids + [last])
  {
    assert forall i :: 0 <= i < |ids| ==> ids[i] in ids;
  }

  /** The remote ids that are not local, in ascending order. */
  method Difference(remote: seq<QuoteId>, local: seq<QuoteId>) returns (missing: seq<QuoteId>)
    ensures Ascending(missing)
    ensures forall id :: id in missing <==> id in remote && id !in local
  {
    var todo := set id | id in remote && id !in local;
    missing := [];
    while todo != {}
      invariant Ascending(missing)
      invariant forall id :: id in remote && id !in local <==> id in missing || id in todo
      invariant forall id, id' :: id in missing && id' in todo ==> id < id'
    {
      var least := Least(todo);
      AscendingAppend(missing, least);
      missing := missing + [least];
      todo := todo - {least};
    }
  }

  function IsDuplicate(): AddReply -> bool { (r: AddReply) => r.Err? && r.error.QuoteAlreadyExists? }

  function IsMissing(): AddReply -> bool { (r: AddReply) => r == Err(QuoteNotFound) }

  function IsFailure(): AddReply -> bool {
    (r: AddReply) => r.Err? && !r.error.QuoteAlreadyExists? && !r.error.QuoteNotFound?
  }

  /** The four counters: every result is counted in exactly one. */
  method Tabulate(results: seq<AddReply>) returns (tally: Tally)
    ensures tally.added == |Winners(results)|
    ensures tally.duplicates == |Filter(results, IsDuplicate())|
    ensures tally.missing == |Filter(results, IsMissing())|
    ensures tally.errors == |Filter(results, IsFailure())|
    ensures tally.added + tally.duplicates + tally.missing + tally.errors == |results|
  {
    var added, duplicates, missing, errors := 0, 0, 0, 0;
    for i := 0 to |results|
      invariant added == |Winners(results[..i])| && duplicates == |Filter(results[..i], IsDuplicate())|
      invariant missing == |Filter(results[..i], IsMissing())| && errors == |Filter(results[..i], IsFailure())|
      invariant added + duplicates + missing + errors == i
    {
      assert results[..i + 1][..i] == results[..i];
      match results[i]
      case Ok(_) => added := added + 1;
      case Err(QuoteAlreadyExists(_)) => duplicates := duplicates + 1;
      case Err(QuoteNotFound) => missing := missing + 1;
      case Err(_) => errors := errors + 1;
    }
    assert results[..|results|] == results;
    tally := Tally(added, duplicates, missing, errors);
  }

  /**
   * In which counter an answer of the peer ends up: an id it does not have is missing, an error of
   * its own is an error, and a quote is added or a duplicate if its SCI is supported and the ledger
   * does not refuse it, and an error otherwise.
   */
  lemma AnswerIsCounted(ledger: Ledger, answer: Result<Option<Quote>, nat>,
                        before: set<Quote>, after: set<Quote>, reply: AddReply)
    requires |ledger| > 0 && Answered(Judged(ledger, JobOfAnswer(answer)), before, after, reply)
    ensures IsMissing()(reply) <==> answer == Ok(None)
    ensures answer.Err? ==> IsFailure()(reply)
    ensures answer.Ok? && answer.value.Some? ==>
              var sci := answer.value.value.sci;
              reply.Ok? || IsDuplicate()(reply)
              <==> && Supported(sci) && !TombstoneReached(ledger, sci) && !InputSpent(ledger, sci)
                   && RingInLedger(ledger, sci)
  {
    if answer.Ok? && answer.value.Some? {
      var q := answer.value.value;
      QuotesAreSupported(q.sci, q.timestamp);
      var made := QuoteNew(q.sci, q.timestamp);
      if made.Ok? {
        RefusalExact(ledger, made.value);
        RingErrorKinds(ledger, q.sci);
      }
    }
  }

  ghost function Cover(book: set<Quote>): set<(Pair, KeyImage)> {
    set q | q in book :: (q.pair, q.KeyImage())
  }

  /** What a sync makes of two books: nothing local is lost, nothing invented, every input on offer covered. */
  ghost predicate Synced(local: set<Quote>, remote: set<Quote>, after: set<Quote>) {
    BookInv(after) && local <= after <= local + remote && Cover(after) == Cover(local) + Cover(remote)
  }

  /** All quotes of the book pass the ledger's checks. */
  ghost predicate Current(ledger: Ledger, book: set<Quote>)
    requires |ledger| > 0
  {
    forall q :: q in book ==> Refusal(ledger, q).None?
  }

  /**
   * Takes from the peer what is not in the local book. Whatever the peer answers, local quotes
   * stay and the book stays sound; if it serves a book that is sound and current, the two are
   * synced, nothing fails, and the counter of added quotes is the growth of the book.
   */
  method SyncQuotesFromPeer(book: SynchronizedQuoteBook, peer: Peer, ghost remote: set<Quote>, ghost pool: set<Sci>)
    returns (tally: Result<Tally, nat>)
    requires book.Valid() && |book.ledger| > 0
    requires Sane(pool) && Sound(book.inner.Contents(), pool) && SendsFrom(peer, pool)
    modifies book, book.inner
    ensures book.Valid() && book.ledger == old(book.ledger)
    ensures Sound(book.inner.Contents(), pool) && old(book.inner.Contents()) <= book.inner.Contents()
    ensures tally.Err? <==> peer.allQuoteIds.Err?
    ensures tally.Err? ==> book.inner.Contents() == old(book.inner.Contents())
    ensures tally.Ok? ==> |book.inner.Contents()| == |old(book.inner.Contents())| + tally.value.added
    ensures AnswersFrom(peer, remote) && Sound(remote, pool) && Current(book.ledger, remote) ==>
              && Synced(old(book.inner.Contents()), remote, book.inner.Contents())
              && tally.value.missing == 0 && tally.value.errors == 0
              && tally.value.added + tally.value.duplicates == |Ids(remote) - Ids(old(book.inner.Contents()))|
  {
    ghost var before := book.inner.Contents();
    if peer.allQuoteIds.Err? { return Err(peer.allQuoteIds.error); }
    var local := AnswerAllQuoteIds(book);
    var missing := Difference(peer.allQuoteIds.value, local);
    var jobs := FetchMissing(peer, missing);
    CollectedOver(peer, missing, Requests(missing), pool);
    var results := AddAll(book, jobs, pool);
    var counted := Tabulate(results);
    ghost var judged := JudgedAll(book.ledger, jobs);
    GrowthIsWinners(judged, before, book.inner.Contents(), results);
    if AnswersFrom(peer, remote) && Sound(remote, pool) && Current(book.ledger, remote) {
      MissingCount(before, remote, missing);
      CollectedAnswers(peer, remote, missing, Requests(missing));
      assert missing[..|missing|] == missing;
      JobsJudged(book.ledger, remote, missing, jobs);
      SyncMeaning(before, remote, book.inner.Contents(), missing, judged, results, pool);
    }
    tally := Ok(counted);
  }

  ghost function Ids(book: set<Quote>): set<QuoteId> {
    set q | q in book :: q.id
  }

  lemma MissingCount(local: set<Quote>, remote: set<Quote>, missing: seq<QuoteId>)
    requires Ascending(missing) && ListsMissing(local, remote, missing)
    ensures |missing| == |Ids(remote) - Ids(local)|
  {
    forall id | true ensures id in missing <==> id in Ids(remote) - Ids(local) {
      assert id in missing <==> Holds(remote, id) && !Holds(local, id);
    }
    assert Elements(missing) == Ids(remote) - Ids(local);
    NoDuplicatesSize(missing);
  }

  /** The quotes of a sound and current book come through judgement as they are. */
  ghost predicate JudgedFrom(remote: set<Quote>, missing: seq<QuoteId>, judged: seq<AddReply>) {
    |judged| == |missing| && forall i :: 0 <= i < |missing| ==>
      judged[i].Ok? && judged[i].value in remote && judged[i].value.id == missing[i]
  }

  lemma JobsJudged(ledger: Ledger, remote: set<Quote>, missing: seq<QuoteId>, jobs: seq<Job>)
    requires |ledger| > 0 && Current(ledger, remote) && forall q :: q in remote ==> Genuine(q)
    requires JobsFor(remote, missing, jobs)
    ensures JudgedFrom(remote, missing, JudgedAll(ledger, jobs))
  {
    forall i | 0 <= i < |missing|
      ensures var j := Judged(ledger, jobs[i]); j.Ok? && j.value in remote && j.value.id == missing[i]
    {
      assert JobFor(remote, missing[i], jobs[i]);
      var q :| q in remote && q.id == missing[i] && jobs[i] == Ok((q.sci, q.timestamp));
      GenuineIsCandidate(ledger, q);
    }
  }

  lemma SyncMeaning(local: set<Quote>, remote: set<Quote>, after: set<Quote>, missing: seq<QuoteId>,
                    judged: seq<AddReply>, results: seq<AddReply>, pool: set<Sci>)
    requires Sane(pool) && Sound(local, pool) && Sound(remote, pool) && BookInv(after)
    requires ListsMissing(local, remote, missing)
    requires JudgedFrom(remote, missing, judged)
    requires SettledAll(judged, local, after, results)
    ensures Synced(local, remote, after)
    ensures Filter(results, IsMissing()) == [] && Filter(results, IsFailure()) == []
  {
    NothingFails(judged, local, after, results);
    NothingInvented(local, remote, after, missing, judged, results);
    forall q | q in remote ensures exists r :: r in after && Conflicts(r, q) {
      RemoteIsCovered(local, remote, after, missing, judged, results, pool, q);
    }
    CoverIsUnion(local, remote, after);
  }

  /** Acceptable quotes are added or known already. */
  lemma NothingFails(judged: seq<AddReply>, before: set<Quote>, after: set<Quote>, results: seq<AddReply>)
    requires SettledAll(judged, before, after, results) && forall i :: 0 <= i < |judged| ==> judged[i].Ok?
    ensures Filter(results, IsMissing()) == [] && Filter(results, IsFailure()) == []
  {
    forall r | r in results ensures r.Ok? || r.error.QuoteAlreadyExists? {
      var i :| 0 <= i < |results| && results[i] == r;
      assert Answered(judged[i], before, after, results[i]);
    }
    FilterElements(results, IsMissing());
    FilterElements(results, IsFailure());
    Inhabited(Filter(results, IsMissing()));
    Inhabited(Filter(results, IsFailure()));
  }

  lemma Inhabited<T>(s: seq<T>)
    ensures s == [] || s[0] in s
  {
  }

  lemma NothingInvented(local: set<Quote>, remote: set<Quote>, after: set<Quote>, missing: seq<QuoteId>,
                        judged: seq<AddReply>, results: seq<AddReply>)
    requires JudgedFrom(remote, missing, judged) && SettledAll(judged, local, after, results)
    ensures after <= local + remote
  {
    forall q | q in after && q !in local ensures q in remote {
      var i :| 0 <= i < |results| && results[i] == Ok(q);
      assert Answered(judged[i], local, after, results[i]);
    }
  }

  /** A remote quote is covered: by the local quote with its id, or by the winner of the adds. */
  lemma RemoteIsCovered(local: set<Quote>, remote: set<Quote>, after: set<Quote>, missing: seq<QuoteId>,
                        judged: seq<AddReply>, results: seq<AddReply>, pool: set<Sci>, q: Quote)
    requires Sane(pool) && Sound(local, pool) && Sound(remote, pool) && q in remote
    requires ListsMissing(local, remote, missing)
    requires JudgedFrom(remote, missing, judged) && SettledAll(judged, local, after, results)
    ensures exists r :: r in after && Conflicts(r, q)
  {
    assert Holds(remote, q.id);
    if Holds(local, q.id) {
      var r :| r in local && r.id == q.id;
      assert Conflicts(r, q);
    } else {
      assert q.id in missing;
      var i :| 0 <= i < |missing| && missing[i] == q.id;
      assert judged[i] == Ok(q);
      assert Answered(judged[i], local, after, results[i]);
      assert Conflicts(q, q);
    }
  }

  lemma CoverIsUnion(local: set<Quote>, remote: set<Quote>, after: set<Quote>)
    requires local <= after <= local + remote
    requires forall q :: q in remote ==> exists r :: r in after && Conflicts(r, q)
    ensures Cover(after) == Cover(local) + Cover(remote)
  {
    forall c | c in Cover(remote) ensures c in Cover(after) {
      var q :| q in remote && c == (q.pair, q.KeyImage());
      var r :| r in after && Conflicts(r, q);
      assert (r.pair, r.KeyImage()) in Cover(after);
    }
    forall c | c in Cover(local) ensures c in Cover(after) {
      var q :| q in local && c == (q.pair, q.KeyImage());
      assert (q.pair, q.KeyImage()) in Cover(after);
    }
    forall c | c in Cover(after) ensures c in Cover(local) + Cover(remote) {
      var q :| q in after && c == (q.pair, q.KeyImage());
    }
  }

  // ---------------------------------------------------------------------------------------------
  // Convergence
  // ---------------------------------------------------------------------------------------------

  /** No input is on offer in both books under different quotes. */
  ghost predicate Agree(a: set<Quote>, b: set<Quote>) {
    forall q, r :: q in a && r in b && Conflicts(q, r) ==> q == r
  }

  /** A sync makes the exact union, timestamps included, just when the books agree. */
  lemma SyncIsUnion(a: set<Quote>, b: set<Quote>, a': set<Quote>)
    requires BookInv(a) && BookInv(b) && Synced(a, b, a')
    ensures a' == a + b <==> Agree(a, b)
  {
    if Agree(a, b) {
      forall q | q in b ensures q in a' {
        assert (q.pair, q.KeyImage()) in Cover(b);
        assert (q.pair, q.KeyImage()) in Cover(a');
        var r :| r in a' && (r.pair, r.KeyImage()) == (q.pair, q.KeyImage());
        assert Conflicts(r, q);
      }
      assert a' == a + b;
    }
  }

  lemma ConvergeToUnion(a: set<Quote>, b: set<Quote>, a': set<Quote>, b': set<Quote>)
    requires BookInv(a) && BookInv(b) && Synced(a, b, a') && Synced(b, a', b')
    ensures a' == b' == a + b <==> Agree(a, b)
  {
    SyncIsUnion(a, b, a');
    SyncIsUnion(b, a', b');
    if Agree(a, b) { assert Agree(b, a') && b + a' == a + b; }
  }

  /** One node syncs from another on the same ledger, which answers from its book and does not change. */
  method SyncFrom(a: SynchronizedQuoteBook, b: SynchronizedQuoteBook, ghost pool: set<Sci>)
    returns (tally: Result<Tally, nat>)
    requires a.Valid() && b.Valid() && a != b && a.inner != b.inner
    requires a.ledger == b.ledger && |a.ledger| > 0
    requires Sane(pool) && Sound(a.inner.Contents(), pool) && Sound(b.inner.Contents(), pool)
    requires Current(a.ledger, a.inner.Contents()) && Current(a.ledger, b.inner.Contents())
    modifies a, a.inner
    ensures a.Valid() && a.ledger == old(a.ledger)
    ensures Sound(a.inner.Contents(), pool) && Current(a.ledger, a.inner.Contents())
    ensures Synced(old(a.inner.Contents()), b.inner.Contents(), a.inner.Contents())
    ensures tally.Ok? && tally.value.missing == 0 && tally.value.errors == 0
  {
    ghost var before := a.inner.Contents();
    var peer := AsPeer(b, pool);
    tally := SyncQuotesFromPeer(a, peer, b.inner.Contents(), pool);
    UnionIsCurrent(a.ledger, before, b.inner.Contents(), a.inner.Contents());
  }

  /**
   * Two nodes on one ledger sync, the first from the second and then the second from the first.
   * Both end up covering every input that either had on offer, neither loses a quote, and they end
   * up as one book, the exact union, just when no input was on offer in both under different quotes.
   */
  method SyncBothWays(a: SynchronizedQuoteBook, b: SynchronizedQuoteBook, ghost pool: set<Sci>)
    returns (first: Result<Tally, nat>, second: Result<Tally, nat>)
    requires a.Valid() && b.Valid() && a != b && a.inner != b.inner
    requires a.ledger == b.ledger && |a.ledger| > 0
    requires Sane(pool) && Sound(a.inner.Contents(), pool) && Sound(b.inner.Contents(), pool)
    requires Current(a.ledger, a.inner.Contents()) && Current(a.ledger, b.inner.Contents())
    modifies a, a.inner, b, b.inner
    ensures a.Valid() && b.Valid() && a.ledger == b.ledger == old(a.ledger)
    ensures Converged(old(a.inner.Contents()), old(b.inner.Contents()), a.inner.Contents(), b.inner.Contents())
    ensures first.Ok? && first.value.missing == 0 && first.value.errors == 0
    ensures second.Ok? && second.value.missing == 0 && second.value.errors == 0
  {
    ghost var inA, inB := a.inner.Contents(), b.inner.Contents();
    first := SyncFrom(a, b, pool);
    ghost var inA' := a.inner.Contents();
    second := SyncFrom(b, a, pool);
    Converges(inA, inB, inA', b.inner.Contents());
  }

  /** What two syncs leave: equal covers, no loss, and the exact union just when the books agreed. */
  ghost predicate Converged(a: set<Quote>, b: set<Quote>, a': set<Quote>, b': set<Quote>) {
    && a <= a' && b <= b'
    && Cover(a') == Cover(b') == Cover(a) + Cover(b)
    && (a' == b' == a + b <==> Agree(a, b))
  }

  lemma Converges(a: set<Quote>, b: set<Quote>, a': set<Quote>, b': set<Quote>)
    requires BookInv(a) && BookInv(b) && Synced(a, b, a') && Synced(b, a', b')
    ensures Converged(a, b, a', b')
  {
    ConvergeToUnion(a, b, a', b');
  }

  lemma UnionIsCurrent(ledger: Ledger, local: set<Quote>, remote: set<Quote>, after: set<Quote>)
    requires |ledger| > 0 && Current(ledger, local) && Current(ledger, remote) && after <= local + remote
    ensures Current(ledger, after)
  {
  }

  // ---------------------------------------------------------------------------------------------
  // Where quotes come from
  // ---------------------------------------------------------------------------------------------

  /** What can happen to a node's book: adds of a client, a peer or gossip, removals, and a restart. */
  datatype Event =
    | Adds(ledger: Ledger, jobs: seq<Job>)
    | Removal(gone: set<Quote>)
    | Reload

  ghost predicate Happens(before: set<Quote>, event: Event, after: set<Quote>) {
    match event
    case Adds(ledger, jobs) =>
      |ledger| > 0 && exists results :: SettledAll(JudgedAll(ledger, jobs), before, after, results)
    case Removal(gone) => after == before - gone
    case Reload => forall q :: q in after ==> exists r :: r in before && FromRow(ToRow(r)) == Ok(q)
  }

  /** A single add, as gossip makes it, is a batch of one. */
  lemma OneAddHappens(ledger: Ledger, sci: Sci, timestamp: u64, before: set<Quote>, after: set<Quote>, reply: AddReply)
    requires |ledger| > 0 && AddSciEffect(Candidate(ledger, sci, timestamp), before, after, reply)
    ensures Happens(before, Adds(ledger, [Ok((sci, timestamp))]), after)
  {
    var judged := JudgedAll(ledger, [Ok((sci, timestamp))]);
    assert judged[0] == Candidate(ledger, sci, timestamp);
    assert [reply][0] == reply;
    assert SettledAll(judged, before, after, [reply]);
  }

  lemma EventKeepsGenuine(before: set<Quote>, event: Event, after: set<Quote>)
    requires Happens(before, event, after) && forall q :: q in before ==> Genuine(q)
    ensures forall q :: q in after ==> Genuine(q)
  {
    match event
    case Removal(_) =>
    case Adds(ledger, jobs) =>
      var judged := JudgedAll(ledger, jobs);
      var results :| SettledAll(judged, before, after, results);
      forall q | q in after && q !in before ensures Genuine(q) {
        var i :| 0 <= i < |results| && results[i] == Ok(q);
        assert Answered(judged[i], before, after, results[i]);
        CandidateIsGenuine(ledger, jobs[i].value.0, jobs[i].value.1);
      }
    case Reload =>
      forall q | q in after ensures Genuine(q) {
        var r :| r in before && FromRow(ToRow(r)) == Ok(q);
        ReloadKeepsGenuine(r);
      }
  }

  /** Whatever happens to a node that starts empty, each of its quotes is the one its SCI and timestamp determine. */
  lemma {:induction false} EveryQuoteIsGenuine(books: seq<set<Quote>>, events: seq<Event>, q: Quote)
    requires |books| == |events| + 1 && books[0] == {}
    requires forall i :: 0 <= i < |events| ==> Happens(books[i], events[i], books[i + 1])
    requires q in books[|events|]
    ensures Genuine(q)
    decreases |events|
  {
    var n := |events| - 1;
    if n >= 0 {
      forall r | r in books[n] ensures Genuine(r) { EveryQuoteIsGenuine(books[..n + 1], events[..n], r); }
      EventKeepsGenuine(books[n], events[n], books[n + 1]);
    }
  }
}
