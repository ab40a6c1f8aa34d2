/** The race between an add and the thread is real: for every quote the ledger accepts, a run that leaks it. */
module SyncedBookRace {
  import opened Basics
  import opened Quotes
  import opened Ledgers
  import opened SyncedBookSteps
  import opened SyncedBookTheorems
  import opened SyncedBook

  /** A client's add that has found `n` ring members, with nothing else going on. */
  ghost function Found(ledger: Ledger, q: Quote, n: nat): State {
    Init(ledger, {}).(pending := map[1 := PendingAdd(q, |ledger|, Some(|ledger|), n)])
  }

  /** The same with all checks passed. */
  ghost function CheckedOnce(ledger: Ledger, q: Quote): State {
    Found(ledger, q, |q.sci.ring|)
  }

  lemma ReachesImageCheck(ledger: Ledger, q: Quote)
    requires |ledger| > 0 && Refusal(ledger, q).None?
    ensures Reaches(Init(ledger, {}), Found(ledger, q, 0), false)
  {
    var s0 := Init(ledger, {});
    var s1 := s0.(pending := s0.pending[1 := PendingAdd(q, |ledger|, None, 0)]);
    assert Next(s0, ReadTip(1, q)) == s1;
    assert Next(s1, CheckImage(1)) == Found(ledger, q, 0) by {
      assert s1.pending[1 := PendingAdd(q, |ledger|, Some(|ledger|), 0)] == Found(ledger, q, 0).pending;
    }
    ReachesSelf(s0, false);
    ReachesNext(s0, s0, ReadTip(1, q), false);
    ReachesNext(s0, s1, CheckImage(1), false);
  }

  lemma FindsMember(ledger: Ledger, q: Quote, n: nat)
    requires |ledger| > 0 && RingInLedger(ledger, q.sci) && n < |q.sci.ring|
    ensures Next(Found(ledger, q, n), CheckMember(1)) == Found(ledger, q, n + 1)
  {
    var s := Found(ledger, q, n);
    assert MemberInLedger(ledger, q.sci, n);
    assert s.pending[1 := s.pending[1].(members := n + 1)] == Found(ledger, q, n + 1).pending;
  }

  lemma ReachesMember(ledger: Ledger, q: Quote, n: nat)
    requires |ledger| > 0 && RingInLedger(ledger, q.sci) && n < |q.sci.ring|
    requires Reaches(Init(ledger, {}), Found(ledger, q, n), false)
    ensures Reaches(Init(ledger, {}), Found(ledger, q, n + 1), false)
  {
    FindsMember(ledger, q, n);
    ReachesNext(Init(ledger, {}), Found(ledger, q, n), CheckMember(1), false);
  }

  lemma ReachesChecked(ledger: Ledger, q: Quote)
    requires |ledger| > 0 && Refusal(ledger, q).None?
    ensures Reaches(Init(ledger, {}), CheckedOnce(ledger, q), false)
  {
    RingErrorExact(ledger, q.sci);
    ReachesImageCheck(ledger, q);
    for n := 0 to |q.sci.ring|
      invariant Reaches(Init(ledger, {}), Found(ledger, q, n), false)
    {
      ReachesMember(ledger, q, n);
    }
  }

  /** Then another client adds the same quote, and a block spends it. */
  ghost function SpentMeanwhile(ledger: Ledger, q: Quote): State {
    var s := InsertQuote(CheckedOnce(ledger, q), q, |ledger|, |ledger|);
    s.(ledger := ledger + [Block([q.KeyImage()], [])])
  }

  lemma ReachesSpent(ledger: Ledger, q: Quote)
    requires |ledger| > 0 && Refusal(ledger, q).None?
    ensures Reaches(Init(ledger, {}), SpentMeanwhile(ledger, q), false)
  {
    var s0, s1 := Init(ledger, {}), CheckedOnce(ledger, q);
    var s2 := InsertQuote(s1, q, |ledger|, |ledger|);
    ReachesChecked(ledger, q);
    AddAccepted(s1, q);
    ReachesNext(s0, s1, AtomicAdd(q), false);
    ReachesNext(s0, s2, Append(Block([q.KeyImage()], [])), false);
  }

  lemma AddAccepted(s: State, q: Quote)
    requires |s.ledger| > 0 && Refusal(s.ledger, q).None?
    ensures Next(s, AtomicAdd(q)) == InsertQuote(s, q, |s.ledger|, |s.ledger|)
  {
  }

  /** One turn of the thread then removes and reports it. */
  lemma TurnRemoves(ledger: Ledger, q: Quote)
    requires |ledger| > 0
    ensures var s := SpentMeanwhile(ledger, q); var t := AfterTurn(s);
            && Reaches(s, t, true) && Shrinks(s, t)
            && t.book == {} && t.reported[q] == 1 && t.height == |ledger|
  {
    var s := SpentMeanwhile(ledger, q);
    var t := AfterTurn(s);
    assert s.book == {q} && s.ever == {q};
    assert Conserved(s);
    TurnIsRun(s);
    var steps: seq<Step> :| t == Exec(s, steps) && forall k :: 0 <= k < |steps| ==> steps[k].Thread?;
    ConservedAlone(s, steps);
    TurnMeaning(s, q);
    assert q.KeyImage() in s.ledger[|ledger|].keyImages;
    assert SpentSince(s.ledger, s.next, q);
    assert Places(t, q) == One(q in t.ever);
  }

  /** In the book though reported removed, and spent in the block of the published height. */
  ghost predicate Leaked(s: State, q: Quote) {
    q in s.book && s.reported[q] == 1 && 0 < s.height < |s.ledger| && q.KeyImage() in s.ledger[s.height].keyImages
  }

  /** The first client's insertion, checked long ago, puts it back. */
  lemma InsertLeaks(ledger: Ledger, q: Quote, t: State)
    requires |ledger| > 0 && |q.sci.ring| == |q.sci.txOutGlobalIndices| && Shrinks(SpentMeanwhile(ledger, q), t)
    requires t.book == {} && t.reported[q] == 1 && t.height == |ledger|
    ensures Leaked(Next(t, Insert(1)), q)
  {
    assert t.ledger[|ledger|] == Block([q.KeyImage()], []);
  }

  /**
   * For every ledger and every quote it accepts there is a run in which the quote is added, spent,
   * purged and reported, and is then put back by a second add of it that had passed its checks
   * before the spending block.
   */
  lemma RaceHappens(ledger: Ledger, q: Quote)
    requires |ledger| > 0 && Refusal(ledger, q).None?
    ensures exists s :: Reaches(Init(ledger, {}), s, false) && Leaked(s, q)
  {
    var t := ReachesRemoved(ledger, q);
    ReachesNext(Init(ledger, {}), t, Insert(1), false);
    RingErrorExact(ledger, q.sci);
    InsertLeaks(ledger, q, t);
  }

  lemma ReachesRemoved(ledger: Ledger, q: Quote) returns (t: State)
    requires |ledger| > 0 && Refusal(ledger, q).None?
    ensures Reaches(Init(ledger, {}), t, false) && Shrinks(SpentMeanwhile(ledger, q), t)
    ensures t.book == {} && t.reported[q] == 1 && t.height == |ledger|
  {
    var s := SpentMeanwhile(ledger, q);
    t := AfterTurn(s);
    ReachesSpent(ledger, q);
    TurnRemoves(ledger, q);
    var steps: seq<Step> :| t == Exec(s, steps);
    ReachesThrough(Init(ledger, {}), s, steps);
  }
}
