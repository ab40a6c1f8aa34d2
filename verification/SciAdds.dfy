/**
 * Adding SCIs, one or many at a time. A client's batch and a sync with a peer both run their adds
 * in parallel; the ledger check of an add does not depend on the others and the insertion is under
 * the book's lock, so a schedule is an order of the adds, and it is left open here.
 */
module SciAdds {
  import opened Basics
  import opened Sequences
  import opened Quotes
  import opened BookSpec
  import opened Ledgers
  import opened SyncedBookSteps
  import opened SyncedBook

  /** The quote an SCI becomes, or the first error on the way to the inner book. */
  function Candidate(ledger: Ledger, sci: Sci, timestamp: u64): Result<Quote, Error>
    requires |ledger| > 0
  {
    var made := QuoteNew(sci, timestamp);
    if made.Err? then made
    else if Refusal(ledger, made.value).Some? then Err(Refusal(ledger, made.value).value)
    else made
  }

  /** Whatever else came with an SCI, the quote made of it is the one the SCI and the timestamp determine. */
  lemma CandidateIsGenuine(ledger: Ledger, sci: Sci, timestamp: u64)
    requires |ledger| > 0 && Candidate(ledger, sci, timestamp).Ok?
    ensures var q := Candidate(ledger, sci, timestamp).value;
            Genuine(q) && q.sci == sci && q.timestamp == timestamp && Refusal(ledger, q).None?
  {
  }

  /** The other way round: a genuine quote that the ledger does not refuse comes out as it is. */
  lemma GenuineIsCandidate(ledger: Ledger, q: Quote)
    requires |ledger| > 0 && Genuine(q) && Refusal(ledger, q).None?
    ensures Candidate(ledger, q.sci, q.timestamp) == Ok(q)
  {
  }

  /** SCIs whose digests tell them apart and of which none makes a quote of nothing for nothing. */
  ghost predicate Sane(pool: set<Sci>) {
    && (forall a, b :: a in pool && b in pool && a.digest == b.digest ==> a == b)
    && (forall sci, t: u64 :: sci in pool && QuoteNew(sci, t).Ok? ==> !QuoteNew(sci, t).value.Degenerate())
  }

  /** A book of genuine quotes over the pool. */
  ghost predicate Sound(book: set<Quote>, pool: set<Sci>) {
    BookInv(book) && forall q :: q in book ==> Genuine(q) && q.sci in pool
  }

  lemma SoundFits(book: set<Quote>, pool: set<Sci>, q: Quote)
    requires Sane(pool) && Sound(book, pool) && Genuine(q) && q.sci in pool
    ensures !q.Degenerate() && IdFits(q, book)
  {
    GenuineIdsFit(q, book);
  }

  /** What an add answers: the quote it made, or an error. */
  type AddReply = Result<Quote, Error>

  /** An add decided on before the book is asked (`Err`), or an SCI to add with its timestamp. */
  type Job = Result<(Sci, u64), Error>

  function Judged(ledger: Ledger, job: Job): AddReply
    requires |ledger| > 0
  {
    if job.Err? then Err(job.error) else Candidate(ledger, job.value.0, job.value.1)
  }

  /** One add: an error is passed on, a conflict names the quote in the way, and otherwise the quote is in. */
  ghost predicate AddSciEffect(judged: AddReply, before: set<Quote>, after: set<Quote>, reply: AddReply) {
    if judged.Err? then after == before && reply == judged
    else if exists r :: r in before && Conflicts(r, judged.value) then
      && after == before
      && reply.Err? && reply.error.QuoteAlreadyExists?
      && reply.error.existing in before && Conflicts(reply.error.existing, judged.value)
    else after == before + {judged.value} && reply == judged
  }

  method AddSci(book: SynchronizedQuoteBook, sci: Sci, timestamp: u64, ghost pool: set<Sci>)
    returns (reply: AddReply)
    requires book.Valid() && |book.ledger| > 0
    requires Sane(pool) && Sound(book.inner.Contents(), pool) && sci in pool
    modifies book, book.inner
    ensures book.Valid() && book.ledger == old(book.ledger)
    ensures Sound(book.inner.Contents(), pool)
    ensures AddSciEffect(Candidate(book.ledger, sci, timestamp),
                         old(book.inner.Contents()), book.inner.Contents(), reply)
  {
    var made := QuoteNew(sci, timestamp);
    if made.Err? { return made; }
    SoundFits(book.inner.Contents(), pool, made.value);
    var added := book.AddQuote(made.value);
    reply := if added.Err? then Err(added.error) else made;
  }

  // ---------------------------------------------------------------------------------------------
  // Many adds
  // ---------------------------------------------------------------------------------------------

  /** The adds `results` speaks of are settled: each has the reply it is owed, and the book grew by the winners. */
  ghost predicate Settled(judged: seq<AddReply>, before: set<Quote>, after: set<Quote>, results: map<nat, AddReply>) {
    && before <= after
    && (forall i :: i in results ==> i < |judged| && Answered(judged[i], before, after, results[i]))
    && (forall q :: q in after && q !in before ==> exists i :: i in results && results[i] == Ok(q))
    && (forall i, j :: i in results && j in results && i != j && results[i].Ok? && results[j].Ok?
          ==> !Conflicts(results[i].value, results[j].value))
  }

  /** The reply to one add: its own error, itself as a newcomer, or the quote of the book it conflicts with. */
  ghost predicate Answered(judged: AddReply, before: set<Quote>, after: set<Quote>, reply: AddReply) {
    if judged.Err? then reply == judged
    else if reply.Ok? then
      reply == judged && judged.value in after && forall r :: r in before ==> !Conflicts(r, judged.value)
    else
      reply.error.QuoteAlreadyExists? && reply.error.existing in after && Conflicts(reply.error.existing, judged.value)
  }

  lemma SettleOne(judged: seq<AddReply>, before: set<Quote>, mid: set<Quote>, after: set<Quote>,
                  results: map<nat, AddReply>, i: nat, reply: AddReply)
    requires Settled(judged, before, mid, results) && i < |judged| && i !in results
    requires AddSciEffect(judged[i], mid, after, reply)
    ensures Settled(judged, before, after, results[i := reply])
  {
    var longer := results[i := reply];
    assert longer[i] == reply;
    forall q | q in after && q !in before ensures exists k :: k in longer && longer[k] == Ok(q) {
      if q in mid {
        var k :| k in results && results[k] == Ok(q);
        assert longer[k] == Ok(q);
      }
    }
    if reply.Ok? {
      forall k | k in results && results[k].Ok?
        ensures !Conflicts(results[k].value, reply.value) && !Conflicts(reply.value, results[k].value)
      {
        assert Answered(judged[k], before, mid, results[k]);
      }
    }
  }

  /** No two of the quotes added conflict. */
  ghost predicate NoneConflict(results: seq<AddReply>) {
    forall i, j :: 0 <= i < j < |results| && results[i].Ok? && results[j].Ok? ==>
      !Conflicts(results[i].value, results[j].value)
  }

  ghost predicate SettledAll(judged: seq<AddReply>, before: set<Quote>, after: set<Quote>, results: seq<AddReply>) {
    && |results| == |judged|
    && before <= after
    && (forall i :: 0 <= i < |judged| ==> Answered(judged[i], before, after, results[i]))
    && (forall q :: q in after && q !in before ==> Ok(q) in results)
    && NoneConflict(results)
  }

  function JudgedAll(ledger: Ledger, jobs: seq<Job>): (judged: seq<AddReply>)
    requires |ledger| > 0
    ensures |judged| == |jobs| && forall i :: 0 <= i < |jobs| ==> judged[i] == Judged(ledger, jobs[i])
  {
    seq(|jobs|, i requires 0 <= i < |jobs| => Judged(ledger, jobs[i]))
  }

  ghost predicate Over(jobs: seq<Job>, pool: set<Sci>) {
    forall i :: 0 <= i < |jobs| && jobs[i].Ok? ==> jobs[i].value.0 in pool
  }

  function Indices(n: nat): (indices: set<nat>)
    ensures forall i: nat :: i in indices <==> i < n
  {
    if n == 0 then {} else Indices(n - 1) + {n - 1}
  }

  /** Runs the jobs in any order and returns their results in the order of the jobs. */
  method AddAll(book: SynchronizedQuoteBook, jobs: seq<Job>, ghost pool: set<Sci>) returns (results: seq<AddReply>)
    requires book.Valid() && |book.ledger| > 0
    requires Sane(pool) && Sound(book.inner.Contents(), pool) && Over(jobs, pool)
    modifies book, book.inner
    ensures book.Valid() && book.ledger == old(book.ledger)
    ensures Sound(book.inner.Contents(), pool)
    ensures SettledAll(JudgedAll(book.ledger, jobs), old(book.inner.Contents()), book.inner.Contents(), results)
  {
    ghost var before, judged := book.inner.Contents(), JudgedAll(book.ledger, jobs);
    var todo := Indices(|jobs|);
    var done: map<nat, AddReply> := map[];
    while todo != {}
      invariant book.Valid() && book.ledger == old(book.ledger) && Sound(book.inner.Contents(), pool)
      invariant forall i: nat :: i < |jobs| <==> i in todo || i in done
      invariant todo !! done.Keys
      invariant Settled(judged, before, book.inner.Contents(), done)
    {
      var i :| i in todo;
      ghost var mid := book.inner.Contents();
      var reply;
      if jobs[i].Err? {
        reply := Err(jobs[i].error);
      } else {
        reply := AddSci(book, jobs[i].value.0, jobs[i].value.1, pool);
      }
      SettleOne(judged, before, mid, book.inner.Contents(), done, i, reply);
      done := done[i := reply];
      todo := todo - {i};
    }
    results := seq(|jobs|, i requires 0 <= i < |jobs| && i in done => done[i]);
  }

  // ---------------------------------------------------------------------------------------------
  // What every schedule agrees on
  // ---------------------------------------------------------------------------------------------

  /**
   * Of the acceptable adds for one pair and key image that the book did not hold, exactly one
   * wins; every other is told of that winner.
   */
  lemma ExactlyOneWinner(judged: seq<AddReply>, before: set<Quote>, after: set<Quote>, results: seq<AddReply>, i: nat)
    returns (w: nat)
    requires SettledAll(judged, before, after, results) && BookInv(after)
    requires i < |judged| && judged[i].Ok?
    requires forall r :: r in before ==> !Conflicts(r, judged[i].value)
    ensures w < |judged| && judged[w].Ok? && Conflicts(judged[w].value, judged[i].value)
    ensures results[w] == judged[w]
    ensures forall j :: 0 <= j < |judged| && j != w && judged[j].Ok? && Conflicts(judged[j].value, judged[i].value)
              ==> results[j] == Err(QuoteAlreadyExists(judged[w].value))
  {
    assert Answered(judged[i], before, after, results[i]);
    var winner := if results[i].Ok? then results[i].value else results[i].error.existing;
    assert winner in after && Conflicts(winner, judged[i].value);
    assert winner !in before;
    w :| 0 <= w < |results| && results[w] == Ok(winner);
    assert Answered(judged[w], before, after, results[w]);
    forall j | 0 <= j < |judged| && j != w && judged[j].Ok? && Conflicts(judged[j].value, judged[i].value)
      ensures results[j] == Err(QuoteAlreadyExists(winner))
    {
      assert Answered(judged[j], before, after, results[j]);
      assert Conflicts(judged[j].value, winner) && Conflicts(winner, judged[j].value);
    }
  }

  /** An acceptable add for what the book held already is told of the quote that was there. */
  lemma HeldBeforeWins(judged: seq<AddReply>, before: set<Quote>, after: set<Quote>, results: seq<AddReply>, i: nat,
                       r: Quote)
    requires SettledAll(judged, before, after, results) && BookInv(after)
    requires i < |judged| && judged[i].Ok? && r in before && Conflicts(r, judged[i].value)
    ensures results[i] == Err(QuoteAlreadyExists(r))
  {
    assert Answered(judged[i], before, after, results[i]);
  }

  /** The quotes created, in the order of the results. */
  function Winners(results: seq<AddReply>): seq<Quote> {
    if results == [] then []
    else
      var rest, last := Winners(results[..|results| - 1]), results[|results| - 1];
      if last.Ok? then rest + [last.value] else rest
  }

  lemma {:induction false} WinnersElements(results: seq<AddReply>)
    ensures forall q :: q in Winners(results) <==> Ok(q) in results
  {
    if results != [] {
      var prefix, last := results[..|results| - 1], results[|results| - 1];
      assert results == prefix + [last];
      WinnersElements(prefix);
    }
  }

  lemma {:induction false} WinnersOnce(results: seq<AddReply>)
    requires NoneConflict(results)
    ensures NoDuplicates(Winners(results))
  {
    if results != [] {
      var prefix, last := results[..|results| - 1], results[|results| - 1];
      assert forall k :: 0 <= k < |prefix| ==> prefix[k] == results[k];
      WinnersOnce(prefix);
      WinnersElements(prefix);
    }
  }

  /** The book grew by exactly the created quotes, each created once. */
  lemma GrowthIsWinners(judged: seq<AddReply>, before: set<Quote>, after: set<Quote>, results: seq<AddReply>)
    requires SettledAll(judged, before, after, results)
    ensures NoDuplicates(Winners(results))
    ensures Elements(Winners(results)) == after - before
    ensures |after| == |before| + |Winners(results)|
  {
    WinnersOnce(results);
    WinnersElements(results);
    forall q | q in Winners(results) ensures q in after && q !in before {
      var i :| 0 <= i < |results| && results[i] == Ok(q);
      assert Answered(judged[i], before, after, results[i]);
      assert Conflicts(q, q);
    }
    NoDuplicatesSize(Winners(results));
    assert after == before + (after - before);
  }
}
