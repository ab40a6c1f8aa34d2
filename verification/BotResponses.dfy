/**
 * The liquidity bot's two lists of outputs, the responses of the DEQS to its submissions, and where
 * a response sends what was submitted.
 */
module BotResponses {
  import opened Basics
  import opened Quotes
  import opened LedgerScanner

  datatype PendingTxOut = PendingTxOut(matched: MatchedTxOut, sci: Sci) {
    function Key(): KeyImage { matched.keyImage }
  }

  datatype ListedTxOut = ListedTxOut(matched: MatchedTxOut, quote: Quote, lastSubmittedAt: u64) {
    function Key(): KeyImage { matched.keyImage }
  }

  datatype StatusCode = Created | AlreadyExists | IsStale | InvalidSci | UnsupportedSciCode | Other

  /** A response of the DEQS; a quote that does not convert back from its message is `None`. */
  datatype SubmitQuotesResponse = SubmitQuotesResponse(
    statusCodes: seq<StatusCode>,
    errorMessages: seq<string>,
    quotes: seq<Option<Quote>>)

  /** How a method of the bot ends: normally, with an error, or at a failed assertion. */
  datatype Ending = Done | Failed | Panicked

  /** `sanity_check_submit_quotes_response`. */
  predicate Aligned(resp: SubmitQuotesResponse, expected: nat) {
    |resp.statusCodes| == expected && |resp.errorMessages| == expected && |resp.quotes| == expected
  }

  predicate Accepted(code: StatusCode) { code.Created? || code.AlreadyExists? }

  /** The lists are aligned with the request and every entry created or known already carries a quote. */
  ghost predicate WellFormed(resp: SubmitQuotesResponse, expected: nat) {
    && Aligned(resp, expected)
    && forall i :: 0 <= i < expected && (resp.statusCodes[i].Created? || resp.statusCodes[i].AlreadyExists?) ==>
         resp.quotes[i].Some?
  }

  /** A quote reported as created is for the SCI that was submitted. */
  ghost predicate Honest(resp: SubmitQuotesResponse, scis: seq<Sci>) {
    forall i :: 0 <= i < |scis| && i < |resp.statusCodes| && i < |resp.quotes| ==>
      resp.statusCodes[i].Created? && resp.quotes[i].Some? ==> resp.quotes[i].value.sci == scis[i]
  }

  function PendingScis(pending: seq<PendingTxOut>): (scis: seq<Sci>)
    ensures |scis| == |pending| && forall i :: 0 <= i < |pending| ==> scis[i] == pending[i].sci
  {
    seq(|pending|, i requires 0 <= i < |pending| => pending[i].sci)
  }

  function ListedScis(listed: seq<ListedTxOut>): (scis: seq<Sci>)
    ensures |scis| == |listed| && forall i :: 0 <= i < |listed| ==> scis[i] == listed[i].quote.sci
  {
    seq(|listed|, i requires 0 <= i < |listed| => listed[i].quote.sci)
  }

  // ---------------------------------------------------------------------------------------------
  // How far the loop over a response gets
  // ---------------------------------------------------------------------------------------------

  /** The loop stops at an accepted entry whose quote does not convert or is created for another SCI. */
  predicate StopsAt(resp: SubmitQuotesResponse, scis: seq<Sci>, i: nat)
    requires Aligned(resp, |scis|) && i < |scis|
  {
    && Accepted(resp.statusCodes[i])
    && (resp.quotes[i].None? || (resp.statusCodes[i].Created? && resp.quotes[i].value.sci != scis[i]))
  }

  /** The first entry from `i` on that stops the loop, or the length. */
  function StopIndex(resp: SubmitQuotesResponse, scis: seq<Sci>, i: nat): (k: nat)
    requires Aligned(resp, |scis|) && i <= |scis|
    ensures i <= k <= |scis| && (k < |scis| ==> StopsAt(resp, scis, k))
    ensures forall j: nat :: i <= j < k ==> !StopsAt(resp, scis, j)
    decreases |scis| - i
  {
    if i == |scis| || StopsAt(resp, scis, i) then i else StopIndex(resp, scis, i + 1)
  }

  function Stop(resp: SubmitQuotesResponse, scis: seq<Sci>): nat
    requires Aligned(resp, |scis|)
  {
    StopIndex(resp, scis, 0)
  }

  /** An entry that does not convert is an error; one created for another SCI fails an assertion. */
  function EndingAt(resp: SubmitQuotesResponse, scis: seq<Sci>, k: nat): Ending
    requires Aligned(resp, |scis|) && k <= |scis|
  {
    if k == |scis| then Done else if resp.quotes[k].None? then Failed else Panicked
  }

  /** The entry created or known already carries a quote, and if created, that of the SCI submitted. */
  ghost predicate Passes(resp: SubmitQuotesResponse, scis: seq<Sci>, i: nat)
    requires Aligned(resp, |scis|) && i < |scis|
  {
    var code, quote := resp.statusCodes[i], resp.quotes[i];
    code.Created? || code.AlreadyExists? ==> quote.Some? && (code.Created? ==> quote.value.sci == scis[i])
  }

  /** The entries before `k` pass and `k` does not. */
  ghost predicate StopsFirstAt(resp: SubmitQuotesResponse, scis: seq<Sci>, k: nat)
    requires Aligned(resp, |scis|)
  {
    k < |scis| && !Passes(resp, scis, k) && forall j: nat :: j < k ==> Passes(resp, scis, j)
  }

  /** The loop gets past an entry if and only if it and all before it pass. */
  lemma StopMeaning(resp: SubmitQuotesResponse, scis: seq<Sci>, i: nat)
    requires Aligned(resp, |scis|) && i < |scis|
    ensures i < Stop(resp, scis) <==> forall j: nat :: j <= i ==> Passes(resp, scis, j)
  {
    var k := Stop(resp, scis);
    forall j: nat | j < |scis| ensures Passes(resp, scis, j) <==> !StopsAt(resp, scis, j) {}
  }

  /**
   * It ends normally if and only if all entries pass, with an error if the first that does not has
   * no quote, and at the assertion if that one was created for another SCI.
   */
  lemma EndingMeaning(resp: SubmitQuotesResponse, scis: seq<Sci>)
    requires Aligned(resp, |scis|)
    ensures var ending := EndingAt(resp, scis, Stop(resp, scis));
            && (ending.Done? <==> forall i: nat :: i < |scis| ==> Passes(resp, scis, i))
            && (ending.Failed? <==> exists k: nat :: StopsFirstAt(resp, scis, k) && resp.quotes[k].None?)
            && (ending.Panicked? <==> exists k: nat :: StopsFirstAt(resp, scis, k) && resp.quotes[k].Some?)
  {
    var k := Stop(resp, scis);
    forall j: nat | j < |scis| ensures Passes(resp, scis, j) <==> !StopsAt(resp, scis, j) {}
    if k < |scis| { assert StopsFirstAt(resp, scis, k); }
  }

  /** Against an honest response no assertion fails, and the loop gets through exactly if it is well formed. */
  lemma HonestEnding(resp: SubmitQuotesResponse, scis: seq<Sci>)
    requires Aligned(resp, |scis|) && Honest(resp, scis)
    ensures !EndingAt(resp, scis, Stop(resp, scis)).Panicked?
    ensures Stop(resp, scis) == |scis| <==> WellFormed(resp, |scis|)
  {
    var k := Stop(resp, scis);
    if k == |scis| {
      forall i: nat | i < |scis| && Accepted(resp.statusCodes[i]) ensures resp.quotes[i].Some? {
        assert !StopsAt(resp, scis, i);
      }
    }
  }

  lemma HonestPasses(resp: SubmitQuotesResponse, scis: seq<Sci>, i: nat)
    requires WellFormed(resp, |scis|) && Honest(resp, scis) && i < |scis|
    ensures Passes(resp, scis, i)
  {
  }

  // ---------------------------------------------------------------------------------------------
  // Where a response sends what was submitted
  // ---------------------------------------------------------------------------------------------

  /** The first `n` pending outputs that the response accepts, now listed with the quote it returned. */
  function NewlyListed(pending: seq<PendingTxOut>, resp: SubmitQuotesResponse, clock: nat -> u64,
                       n: nat): seq<ListedTxOut>
    requires n <= |pending| && Aligned(resp, |pending|)
  {
    if n == 0 then []
    else if Accepted(resp.statusCodes[n - 1]) && resp.quotes[n - 1].Some? then
      NewlyListed(pending, resp, clock, n - 1)
      + [ListedTxOut(pending[n - 1].matched, resp.quotes[n - 1].value, clock(n - 1))]
    else NewlyListed(pending, resp, clock, n - 1)
  }

  /** The first `n` pending outputs that the response rejects. */
  function Rejected(pending: seq<PendingTxOut>, resp: SubmitQuotesResponse, n: nat): seq<PendingTxOut>
    requires n <= |pending| && Aligned(resp, |pending|)
  {
    if n == 0 then []
    else if Accepted(resp.statusCodes[n - 1]) then Rejected(pending, resp, n - 1)
    else Rejected(pending, resp, n - 1) + [pending[n - 1]]
  }

  /** The first `n` resubmitted outputs that the response accepts, with its quote and the new time. */
  function StillListed(listed: seq<ListedTxOut>, resp: SubmitQuotesResponse, clock: nat -> u64,
                       n: nat): seq<ListedTxOut>
    requires n <= |listed| && Aligned(resp, |listed|)
  {
    if n == 0 then []
    else if Accepted(resp.statusCodes[n - 1]) && resp.quotes[n - 1].Some? then
      StillListed(listed, resp, clock, n - 1)
      + [listed[n - 1].(quote := resp.quotes[n - 1].value, lastSubmittedAt := clock(n - 1))]
    else StillListed(listed, resp, clock, n - 1)
  }

  /** The first `n` resubmitted outputs that the response rejects. */
  function Unlisted(listed: seq<ListedTxOut>, resp: SubmitQuotesResponse, n: nat): seq<ListedTxOut>
    requires n <= |listed| && Aligned(resp, |listed|)
  {
    if n == 0 then []
    else if Accepted(resp.statusCodes[n - 1]) then Unlisted(listed, resp, n - 1)
    else Unlisted(listed, resp, n - 1) + [listed[n - 1]]
  }

  /** The listed output is what entry `j` makes of pending output `j`. */
  ghost predicate ListedBy(pending: seq<PendingTxOut>, resp: SubmitQuotesResponse, clock: nat -> u64,
                           j: nat, l: ListedTxOut)
    requires Aligned(resp, |pending|) && j < |pending|
  {
    && (resp.statusCodes[j].Created? || resp.statusCodes[j].AlreadyExists?) && resp.quotes[j].Some?
    && l == ListedTxOut(pending[j].matched, resp.quotes[j].value, clock(j))
  }

  /** The newly listed outputs are exactly those of the entries created or known already. */
  lemma {:induction false} NewlyListedExactly(
    pending: seq<PendingTxOut>, resp: SubmitQuotesResponse, clock: nat -> u64, n: nat, l: ListedTxOut)
    requires n <= |pending| && Aligned(resp, |pending|)
    ensures l in NewlyListed(pending, resp, clock, n)
       <==> exists j: nat :: j < n && ListedBy(pending, resp, clock, j, l)
  {
    if n != 0 {
      NewlyListedExactly(pending, resp, clock, n - 1, l);
      assert ListedBy(pending, resp, clock, n - 1, l) ==> l in NewlyListed(pending, resp, clock, n);
    }
  }

  /** The listed output is what entry `j` makes of listed output `j`. */
  ghost predicate RefreshedBy(listed: seq<ListedTxOut>, resp: SubmitQuotesResponse, clock: nat -> u64,
                              j: nat, l: ListedTxOut)
    requires Aligned(resp, |listed|) && j < |listed|
  {
    && (resp.statusCodes[j].Created? || resp.statusCodes[j].AlreadyExists?) && resp.quotes[j].Some?
    && l == ListedTxOut(listed[j].matched, resp.quotes[j].value, clock(j))
  }

  lemma {:induction false} StillListedExactly(
    listed: seq<ListedTxOut>, resp: SubmitQuotesResponse, clock: nat -> u64, n: nat, l: ListedTxOut)
    requires n <= |listed| && Aligned(resp, |listed|)
    ensures l in StillListed(listed, resp, clock, n)
       <==> exists j: nat :: j < n && RefreshedBy(listed, resp, clock, j, l)
  {
    if n != 0 {
      StillListedExactly(listed, resp, clock, n - 1, l);
      assert RefreshedBy(listed, resp, clock, n - 1, l) ==> l in StillListed(listed, resp, clock, n);
    }
  }

  /** How often an output occurs in a list. */
  function Times(s: seq<MatchedTxOut>, m: MatchedTxOut): nat {
    if s == [] then 0 else Times(s[..|s| - 1], m) + if s[|s| - 1] == m then 1 else 0
  }

  function PendingOuts(s: seq<PendingTxOut>): (r: seq<MatchedTxOut>)
    ensures |r| == |s| && forall i :: 0 <= i < |s| ==> r[i] == s[i].matched
  {
    seq(|s|, i requires 0 <= i < |s| => s[i].matched)
  }

  function ListedOuts(s: seq<ListedTxOut>): (r: seq<MatchedTxOut>)
    ensures |r| == |s| && forall i :: 0 <= i < |s| ==> r[i] == s[i].matched
  {
    seq(|s|, i requires 0 <= i < |s| => s[i].matched)
  }

  function PendingCount(s: seq<PendingTxOut>, m: MatchedTxOut): nat { Times(PendingOuts(s), m) }

  function ListedCount(s: seq<ListedTxOut>, m: MatchedTxOut): nat { Times(ListedOuts(s), m) }

  lemma {:induction false} TimesConcat(a: seq<MatchedTxOut>, b: seq<MatchedTxOut>, m: MatchedTxOut)
    ensures Times(a + b, m) == Times(a, m) + Times(b, m)
  {
    if b == [] {
      assert a + b == a;
    } else {
      TimesConcat(a, b[..|b| - 1], m);
      assert (a + b)[..|a + b| - 1] == a + b[..|b| - 1];
    }
  }

  lemma {:induction false} TimesPositive(s: seq<MatchedTxOut>, m: MatchedTxOut)
    ensures 0 < Times(s, m) <==> m in s
  {
    if s != [] {
      TimesPositive(s[..|s| - 1], m);
      assert s == s[..|s| - 1] + [s[|s| - 1]];
    }
  }

  lemma PendingConcat(a: seq<PendingTxOut>, b: seq<PendingTxOut>, m: MatchedTxOut)
    ensures PendingCount(a + b, m) == PendingCount(a, m) + PendingCount(b, m)
  {
    assert PendingOuts(a + b) == PendingOuts(a) + PendingOuts(b);
    TimesConcat(PendingOuts(a), PendingOuts(b), m);
  }

  lemma ListedConcat(a: seq<ListedTxOut>, b: seq<ListedTxOut>, m: MatchedTxOut)
    ensures ListedCount(a + b, m) == ListedCount(a, m) + ListedCount(b, m)
  {
    assert ListedOuts(a + b) == ListedOuts(a) + ListedOuts(b);
    TimesConcat(ListedOuts(a), ListedOuts(b), m);
  }

  lemma PendingAppend(s: seq<PendingTxOut>, x: PendingTxOut, m: MatchedTxOut)
    ensures PendingCount(s + [x], m) == PendingCount(s, m) + if x.matched == m then 1 else 0
  {
    assert PendingOuts(s + [x])[..|s|] == PendingOuts(s);
  }

  lemma ListedAppend(s: seq<ListedTxOut>, x: ListedTxOut, m: MatchedTxOut)
    ensures ListedCount(s + [x], m) == ListedCount(s, m) + if x.matched == m then 1 else 0
  {
    assert ListedOuts(s + [x])[..|s|] == ListedOuts(s);
  }

  lemma PendingPrefix(s: seq<PendingTxOut>, n: nat, m: MatchedTxOut)
    requires 0 < n <= |s|
    ensures PendingCount(s[..n], m) == PendingCount(s[..n - 1], m) + if s[n - 1].matched == m then 1 else 0
  {
    assert s[..n] == s[..n - 1] + [s[n - 1]];
    PendingAppend(s[..n - 1], s[n - 1], m);
  }

  lemma ListedPrefix(s: seq<ListedTxOut>, n: nat, m: MatchedTxOut)
    requires 0 < n <= |s|
    ensures ListedCount(s[..n], m) == ListedCount(s[..n - 1], m) + if s[n - 1].matched == m then 1 else 0
  {
    assert s[..n] == s[..n - 1] + [s[n - 1]];
    ListedAppend(s[..n - 1], s[n - 1], m);
  }

  /** Up to where the loop gets, each submitted output goes to exactly one of listed or rejected. */
  lemma {:induction false} SubmittedIsListedOrDropped(
    pending: seq<PendingTxOut>, resp: SubmitQuotesResponse, clock: nat -> u64, n: nat, m: MatchedTxOut)
    requires Aligned(resp, |pending|) && n <= Stop(resp, PendingScis(pending))
    ensures PendingCount(pending[..n], m)
         == ListedCount(NewlyListed(pending, resp, clock, n), m) + PendingCount(Rejected(pending, resp, n), m)
  {
    if n != 0 {
      SubmittedIsListedOrDropped(pending, resp, clock, n - 1, m);
      PendingPrefix(pending, n, m);
      assert !StopsAt(resp, PendingScis(pending), n - 1);
      var p := pending[n - 1];
      if Accepted(resp.statusCodes[n - 1]) {
        var l := ListedTxOut(p.matched, resp.quotes[n - 1].value, clock(n - 1));
        ListedAppend(NewlyListed(pending, resp, clock, n - 1), l, m);
      } else {
        PendingAppend(Rejected(pending, resp, n - 1), p, m);
      }
    }
  }

  /** The same for outputs submitted again. */
  lemma {:induction false} ResubmittedIsListedOrDropped(
    listed: seq<ListedTxOut>, resp: SubmitQuotesResponse, clock: nat -> u64, n: nat, m: MatchedTxOut)
    requires Aligned(resp, |listed|) && n <= Stop(resp, ListedScis(listed))
    ensures ListedCount(listed[..n], m)
         == ListedCount(StillListed(listed, resp, clock, n), m) + ListedCount(Unlisted(listed, resp, n), m)
  {
    if n != 0 {
      ResubmittedIsListedOrDropped(listed, resp, clock, n - 1, m);
      ListedPrefix(listed, n, m);
      assert !StopsAt(resp, ListedScis(listed), n - 1);
      var l := listed[n - 1];
      if Accepted(resp.statusCodes[n - 1]) {
        var updated := l.(quote := resp.quotes[n - 1].value, lastSubmittedAt := clock(n - 1));
        ListedAppend(StillListed(listed, resp, clock, n - 1), updated, m);
      } else {
        ListedAppend(Unlisted(listed, resp, n - 1), l, m);
      }
    }
  }

  /** An output of a submission is listed, rejected, or among those from where the loop stopped. */
  lemma SubmittedOrLost(pending: seq<PendingTxOut>, resp: SubmitQuotesResponse, clock: nat -> u64, m: MatchedTxOut)
    requires Aligned(resp, |pending|)
    ensures var k := Stop(resp, PendingScis(pending));
            PendingCount(pending, m) ==
              ListedCount(NewlyListed(pending, resp, clock, k), m) + PendingCount(Rejected(pending, resp, k), m)
              + PendingCount(pending[k..], m)
  {
    var k := Stop(resp, PendingScis(pending));
    SubmittedIsListedOrDropped(pending, resp, clock, k, m);
    assert pending == pending[..k] + pending[k..];
    PendingConcat(pending[..k], pending[k..], m);
  }

  lemma ResubmittedOrLost(listed: seq<ListedTxOut>, resp: SubmitQuotesResponse, clock: nat -> u64, m: MatchedTxOut)
    requires Aligned(resp, |listed|)
    ensures var k := Stop(resp, ListedScis(listed));
            ListedCount(listed, m) ==
              ListedCount(StillListed(listed, resp, clock, k), m) + ListedCount(Unlisted(listed, resp, k), m)
              + ListedCount(listed[k..], m)
  {
    var k := Stop(resp, ListedScis(listed));
    ResubmittedIsListedOrDropped(listed, resp, clock, k, m);
    assert listed == listed[..k] + listed[k..];
    ListedConcat(listed[..k], listed[k..], m);
  }

  /** Every submitted output ends up listed or rejected. */
  ghost predicate SubmitKeepsAll(pending: seq<PendingTxOut>, resp: SubmitQuotesResponse, clock: nat -> u64)
    requires Aligned(resp, |pending|)
  {
    var k := Stop(resp, PendingScis(pending));
    forall m :: PendingCount(pending, m)
             == ListedCount(NewlyListed(pending, resp, clock, k), m) + PendingCount(Rejected(pending, resp, k), m)
  }

  ghost predicate ResubmitKeepsAll(listed: seq<ListedTxOut>, resp: SubmitQuotesResponse, clock: nat -> u64)
    requires Aligned(resp, |listed|)
  {
    var k := Stop(resp, ListedScis(listed));
    forall m :: ListedCount(listed, m)
             == ListedCount(StillListed(listed, resp, clock, k), m) + ListedCount(Unlisted(listed, resp, k), m)
  }

  /** An aligned and honest response loses no submitted output if and only if it is well formed. */
  lemma SubmitLossExact(pending: seq<PendingTxOut>, resp: SubmitQuotesResponse, clock: nat -> u64)
    requires Aligned(resp, |pending|) && Honest(resp, PendingScis(pending))
    ensures SubmitKeepsAll(pending, resp, clock) <==> WellFormed(resp, |pending|)
  {
    var k := Stop(resp, PendingScis(pending));
    HonestEnding(resp, PendingScis(pending));
    forall m | true ensures k == |pending| ==> PendingCount(pending[k..], m) == 0 {}
    forall m | true
      ensures PendingCount(pending, m)
           == ListedCount(NewlyListed(pending, resp, clock, k), m) + PendingCount(Rejected(pending, resp, k), m)
              + PendingCount(pending[k..], m)
    {
      SubmittedOrLost(pending, resp, clock, m);
    }
    if k < |pending| {
      var m := pending[k].matched;
      assert PendingOuts(pending[k..])[0] == m;
      TimesPositive(PendingOuts(pending[k..]), m);
      assert PendingCount(pending[k..], m) > 0;
    }
  }

  /** The same for a response to outputs submitted again. */
  lemma ResubmitLossExact(listed: seq<ListedTxOut>, resp: SubmitQuotesResponse, clock: nat -> u64)
    requires Aligned(resp, |listed|) && Honest(resp, ListedScis(listed))
    ensures ResubmitKeepsAll(listed, resp, clock) <==> WellFormed(resp, |listed|)
  {
    var k := Stop(resp, ListedScis(listed));
    HonestEnding(resp, ListedScis(listed));
    forall m | true ensures k == |listed| ==> ListedCount(listed[k..], m) == 0 {}
    forall m | true
      ensures ListedCount(listed, m)
           == ListedCount(StillListed(listed, resp, clock, k), m) + ListedCount(Unlisted(listed, resp, k), m)
              + ListedCount(listed[k..], m)
    {
      ResubmittedOrLost(listed, resp, clock, m);
    }
    if k < |listed| {
      var m := listed[k].matched;
      assert ListedOuts(listed[k..])[0] == m;
      TimesPositive(ListedOuts(listed[k..]), m);
      assert ListedCount(listed[k..], m) > 0;
    }
  }
}
