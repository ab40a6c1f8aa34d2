/**
 * The ledger-synchronised book as code: the add with its checks, and the thread that loads blocks,
 * purges, sweeps and publishes. Every method is a run of `SyncedBookSteps`.
 */
module SyncedBook {
  import opened Basics
  import opened Sequences
  import opened Quotes
  import opened BookSpec
  import opened Ledgers
  import opened InMemoryBook
  import opened SyncedBookSteps
  import opened SyncedBookTheorems

  class SynchronizedQuoteBook {
    var ledger: Ledger
    const inner: InMemoryQuoteBook
    var next: nat
    var height: nat
    var stop: bool
    var reported: seq<Quote>
    ghost var model: State

    ghost predicate Valid()
      reads this, inner
    {
      && inner.Valid() && ThreadInv(model)
      && model.ledger == ledger && model.book == inner.Contents()
      && model.next == next && model.height == height && model.stop == stop
      && model.reported == multiset(reported)
    }

    constructor (ledger: Ledger, inner: InMemoryQuoteBook)
      requires |ledger| > 0 && inner.Valid()
      ensures Valid() && this.inner == inner && model == Init(ledger, inner.Contents())
    {
      this.ledger, this.inner := ledger, inner;
      next, height, stop, reported := 0, 0, false, [];
      model := Init(ledger, inner.Contents());
    }

    /** The first thing wrong with the quote's ring, if anything: none exactly when every member is in the ledger. */
    method ValidateQuoteRingMembers(q: Quote) returns (fault: Option<Error>)
      ensures fault == RingError(ledger, q.sci)
      ensures fault.None? <==> RingInLedger(ledger, q.sci)
    {
      RingErrorExact(ledger, q.sci);
      var indices, ring := q.sci.txOutGlobalIndices, q.sci.ring;
      if |ring| != |indices| {
        return Some(InvalidRing(MissingIndex));
      }
      var outputs := AllOutputs(ledger);
      for i := 0 to |ring|
        invariant RingFaultFrom(outputs, q.sci, 0) == RingFaultFrom(outputs, q.sci, i)
      {
        if |outputs| <= indices[i] { return Some(ImplementationSpecific); }
        if outputs[indices[i]] != ring[i] { return Some(InvalidRing(InvalidMember)); }
      }
      fault := None;
    }

    method AddQuote(q: Quote) returns (reply: Result<(), Error>)
      requires Valid() && !q.Degenerate() && IdFits(q, inner.Contents())
      modifies this, inner
      ensures Valid() && model == Next(old(model), AtomicAdd(q))
      ensures Refusal(ledger, q).Some? ==>
                reply == Err(Refusal(ledger, q).value) && inner.Contents() == old(inner.Contents())
      ensures (&& !TombstoneReached(ledger, q.sci) && !InputSpent(ledger, q.sci) && RingInLedger(ledger, q.sci)
               && forall r :: r in old(inner.Contents()) ==> !Conflicts(r, q)) ==>
                reply == Ok(()) && q in inner.Contents()
      ensures TombstoneReached(ledger, q.sci) || InputSpent(ledger, q.sci) ==> reply == Err(QuoteIsStale)
      ensures Refusal(ledger, q).None? ==> AddEffect(old(inner.Contents()), q, inner.Contents(), reply)
      ensures unchanged(`ledger, `next, `height, `stop, `reported)
    {
      RefusalExact(ledger, q);
      if q.sci.inputRules.Some? && q.Tombstone() != 0 && |ledger| - 1 >= q.Tombstone() {
        return Err(QuoteIsStale);
      }
      if SpentIn(ledger, q.KeyImage()) {
        return Err(QuoteIsStale);
      }
      var fault := ValidateQuoteRingMembers(q);
      if fault.Some? {
        return Err(fault.value);
      }
      reply := inner.AddQuote(q);
      model := Next(model, AtomicAdd(q));
    }

    /**
     * One block: remove the quotes it spends, one key image after another, each removal handed to
     * the callback. Returns whether there was a block to load.
     */
    method LoadBlockData() returns (mayHaveMoreWork: bool)
      requires Valid() && model.pc == Loading
      modifies this, inner
      ensures Valid() && model == AfterLoad(old(model))
      ensures mayHaveMoreWork == (old(next) < |ledger|)
      ensures unchanged(`ledger, `height, `stop)
    {
      mayHaveMoreWork := next < |ledger|;
      if mayHaveMoreWork {
        PurgeBlock(ledger[next].keyImages);
        next := next + 1;
      }
      LoadShape(model);
      model := AfterLoad(model);
    }

    /** The loop over the key images of the block just fetched. */
    method PurgeBlock(images: seq<KeyImage>)
      requires inner.Valid() && model.book == inner.Contents() && model.reported == multiset(reported)
      requires model.next < |model.ledger| && images == model.ledger[model.next].keyImages
      modifies this`reported, inner
      ensures inner.Valid()
      ensures AfterImages(model, |images|).book == inner.Contents()
      ensures AfterImages(model, |images|).reported == multiset(reported)
    {
      for i := 0 to |images|
        invariant inner.Valid()
        invariant AfterImages(model, i).book == inner.Contents() && AfterImages(model, i).reported == multiset(reported)
      {
        var quotes := inner.RemoveQuotesByKeyImage(images[i]);
        NextImage(model, i, inner.Contents(), quotes);
        reported := reported + quotes;
      }
    }

    /** Remove the expired quotes, report them, publish the last block read. */
    method Sweep()
      requires Valid() && model.pc == Sweeping
      modifies this, inner
      ensures Valid() && model == AfterSweep(old(model))
      ensures unchanged(`ledger, `next, `stop)
    {
      var quotes := inner.RemoveQuotesByTombstoneBlock(next - 1);
      SweptQuotes(model, inner.Contents(), quotes);
      reported := reported + quotes;
      height := next - 1;
      model := AfterSweep(model);
    }

    /** One turn of the thread's outer loop, with nothing else running. */
    method RunOnce()
      requires Valid() && model.pc == Top && !stop
      modifies this, inner
      ensures Valid() && model == AfterTurn(old(model))
      ensures unchanged(`ledger, `stop)
    {
      ghost var start := model.(start := next, pc := Loading);
      model := start;
      var startingBlockIndex := next;
      var more := LoadBlockData();
      while more
        invariant Valid() && unchanged(`ledger, `height, `stop)
        invariant model.start == startingBlockIndex <= next
        invariant more ==> model.pc == Loading
        invariant AfterLoads(start) == if more then AfterLoads(model) else model
        invariant !more ==> model.pc == (if next != startingBlockIndex then Sweeping else Top)
        decreases |ledger| - next, more
      {
        more := LoadBlockData();
      }
      if next != startingBlockIndex {
        Sweep();
      }
    }
  }

  // ---------------------------------------------------------------------------------------------
  // What the methods compute
  // ---------------------------------------------------------------------------------------------

  /** After the first `n` key images of block `next`. */
  ghost function AfterImages(s: State, n: nat): (t: State)
    requires s.next < |s.ledger| && n <= |s.ledger[s.next].keyImages|
    ensures t == s.(book := t.book, reported := t.reported, pc := Purging(n))
  {
    if n == 0 then s.(pc := Purging(0))
    else
      var t := AfterImages(s, n - 1);
      var removed := SpentBy(t.book, s.ledger[s.next].keyImages[n - 1]);
      t.(book := t.book - removed, reported := t.reported + multiset(removed), pc := Purging(n))
  }

  /** The inner book's removal of the next key image is the next step of `AfterImages`. */
  lemma NextImage(s: State, i: nat, contents: set<Quote>, quotes: seq<Quote>)
    requires s.next < |s.ledger| && i < |s.ledger[s.next].keyImages|
    requires PurgeEffect(AfterImages(s, i).book, HasKeyImage(s.ledger[s.next].keyImages[i]), contents, quotes)
    ensures AfterImages(s, i + 1).book == contents
    ensures AfterImages(s, i + 1).reported == AfterImages(s, i).reported + multiset(quotes)
  {
    NoDuplicatesMultiset(quotes);
    assert Elements(quotes) == SpentBy(AfterImages(s, i).book, s.ledger[s.next].keyImages[i]);
  }

  /** After one call of `load_block_data`, and the loop's look at the stop flag. */
  ghost function AfterLoad(s: State): State {
    if s.next < |s.ledger| then
      AfterImages(s, |s.ledger[s.next].keyImages|).(next := s.next + 1, pc := if s.stop then Sweeping else Loading)
    else s.(pc := if s.next != s.start then Sweeping else Top)
  }

  /** A load moves on by the block it found, and no other field but the book and the reports changes. */
  lemma LoadShape(s: State)
    requires ThreadInv(s) && s.pc == Loading
    ensures var t := AfterLoad(s);
            && ThreadInv(t) && t.ledger == s.ledger && t.height == s.height && t.stop == s.stop
            && t.next == (if s.next < |s.ledger| then s.next + 1 else s.next)
            && (s.next == |s.ledger| ==> t.book == s.book && t.reported == s.reported)
            && (s.next < |s.ledger| ==>
                  && t.book == AfterImages(s, |s.ledger[s.next].keyImages|).book
                  && t.reported == AfterImages(s, |s.ledger[s.next].keyImages|).reported)
  {
  }

  /** After loading all blocks, the thread not being asked to stop. */
  ghost function AfterLoads(s: State): State
    decreases |s.ledger| - s.next
  {
    if s.next < |s.ledger| then AfterLoads(AfterLoad(s)) else AfterLoad(s)
  }

  ghost function AfterSweep(s: State): State {
    var removed := ExpiredBefore(s.book, s.next);
    s.(book := s.book - removed, swept := s.next, reported := s.reported + multiset(removed),
       height := if 0 < s.next then s.next - 1 else 0, pc := Top)
  }

  /** The inner book's removal of the expired quotes is the sweep. */
  lemma SweptQuotes(s: State, contents: set<Quote>, quotes: seq<Quote>)
    requires 0 < s.next && PurgeEffect(s.book, ExpiredAt(s.next - 1), contents, quotes)
    ensures AfterSweep(s).book == contents && AfterSweep(s).reported == s.reported + multiset(quotes)
  {
    assert Elements(quotes) == ExpiredBefore(s.book, s.next);
    NoDuplicatesMultiset(quotes);
  }

  /** After one turn of the outer loop. */
  ghost function AfterTurn(s: State): State {
    var t := AfterLoads(s.(start := s.next, pc := Loading));
    if t.next != s.next then AfterSweep(t) else t
  }

  // ---------------------------------------------------------------------------------------------
  // The thread's steps, one by one
  // ---------------------------------------------------------------------------------------------

  lemma StepTo(start: State, s: State, t: State)
    requires |start.ledger| > 0 && ThreadInv(s) && Reaches(start, s, true) && t == ThreadStep(s)
    ensures ThreadInv(t) && Reaches(start, t, true)
  {
    ThreadShrinks(s);
    ReachesNext(start, s, Thread, true);
  }

  lemma BeginTurn(start: State, s: State)
    requires |start.ledger| > 0 && ThreadInv(s) && Reaches(start, s, true) && s.pc == Top && !s.stop
    ensures var t := s.(start := s.next, pc := Loading); ThreadInv(t) && Reaches(start, t, true)
  {
    StepTo(start, s, s.(start := s.next, pc := Loading));
  }

  lemma FetchBlock(start: State, s: State)
    requires |start.ledger| > 0 && ThreadInv(s) && Reaches(start, s, true) && s.pc == Loading && s.next < |s.ledger|
    ensures var t := s.(pc := Purging(0)); ThreadInv(t) && Reaches(start, t, true)
  {
    StepTo(start, s, s.(pc := Purging(0)));
  }

  lemma NoBlock(start: State, s: State)
    requires |start.ledger| > 0 && ThreadInv(s) && Reaches(start, s, true) && s.pc == Loading && |s.ledger| <= s.next
    ensures var t := s.(pc := if s.next != s.start then Sweeping else Top); ThreadInv(t) && Reaches(start, t, true)
  {
    StepTo(start, s, s.(pc := if s.next != s.start then Sweeping else Top));
  }

  lemma PurgeOne(start: State, s: State, i: nat)
    requires |start.ledger| > 0 && ThreadInv(s) && Reaches(start, s, true)
    requires s.pc == Purging(i) && i < |s.ledger[s.next].keyImages|
    ensures var removed := SpentBy(s.book, s.ledger[s.next].keyImages[i]);
            var t := s.(book := s.book - removed, reported := s.reported + multiset(removed), pc := Purging(i + 1));
            ThreadInv(t) && Reaches(start, t, true)
  {
    var removed := SpentBy(s.book, s.ledger[s.next].keyImages[i]);
    var u := s.(book := s.book - removed, pc := Reporting(i, removed));
    PurgeStep(s, i);
    StepTo(start, s, u);
    ReportStep(u, i, removed);
    StepTo(start, u, u.(reported := s.reported + multiset(removed), pc := Purging(i + 1)));
  }

  lemma EndBlock(start: State, s: State)
    requires |start.ledger| > 0 && ThreadInv(s) && Reaches(start, s, true)
    requires s.pc.Purging? && s.pc.i == |s.ledger[s.next].keyImages|
    ensures var t := s.(next := s.next + 1, pc := if s.stop then Sweeping else Loading);
            ThreadInv(t) && Reaches(start, t, true)
  {
    StepTo(start, s, s.(next := s.next + 1, pc := if s.stop then Sweeping else Loading));
  }

  lemma SweepSteps(start: State, s: State)
    requires |start.ledger| > 0 && ThreadInv(s) && Reaches(start, s, true) && s.pc == Sweeping
    ensures var removed := ExpiredBefore(s.book, s.next);
            var t := s.(book := s.book - removed, swept := s.next, reported := s.reported + multiset(removed),
                        height := s.next - 1, pc := Top);
            ThreadInv(t) && Reaches(start, t, true)
  {
    var removed := ExpiredBefore(s.book, s.next);
    var u := s.(book := s.book - removed, swept := s.next, pc := ReportingSwept(removed));
    StepTo(start, s, u);
    var v := u.(reported := s.reported + multiset(removed), pc := Publishing);
    StepTo(start, u, v);
    StepTo(start, v, v.(height := s.next - 1, pc := Top));
  }

  // ---------------------------------------------------------------------------------------------
  // A turn is a run of the step system, and what it does to the book
  // ---------------------------------------------------------------------------------------------

  lemma {:induction false} ImagesReached(start: State, s: State, n: nat)
    requires |start.ledger| > 0 && ThreadInv(s) && Reaches(start, s, true) && s.pc == Loading
    requires s.next < |s.ledger| && n <= |s.ledger[s.next].keyImages|
    ensures ThreadInv(AfterImages(s, n)) && Reaches(start, AfterImages(s, n), true)
  {
    if n == 0 {
      FetchBlock(start, s);
    } else {
      ImagesReached(start, s, n - 1);
      PurgeOne(start, AfterImages(s, n - 1), n - 1);
    }
  }

  lemma LoadReached(start: State, s: State)
    requires |start.ledger| > 0 && ThreadInv(s) && Reaches(start, s, true) && s.pc == Loading
    ensures ThreadInv(AfterLoad(s)) && Reaches(start, AfterLoad(s), true)
  {
    if s.next < |s.ledger| {
      var n := |s.ledger[s.next].keyImages|;
      ImagesReached(start, s, n);
      EndBlock(start, AfterImages(s, n));
    } else {
      NoBlock(start, s);
    }
  }

  lemma {:induction false} LoadsReached(start: State, s: State)
    requires |start.ledger| > 0 && ThreadInv(s) && Reaches(start, s, true) && s.pc == Loading && !s.stop
    ensures var t := AfterLoads(s);
            && ThreadInv(t) && Reaches(start, t, true)
            && t.start == s.start && t.next == |t.ledger| && t.pc == (if t.next != t.start then Sweeping else Top)
    decreases |s.ledger| - s.next
  {
    LoadReached(start, s);
    if s.next < |s.ledger| { LoadsReached(start, AfterLoad(s)); }
  }

  /** One undisturbed turn of the code is a run of the thread's steps. */
  lemma TurnIsRun(s: State)
    requires ThreadInv(s) && s.pc == Top && !s.stop
    ensures Reaches(s, AfterTurn(s), true) && ThreadInv(AfterTurn(s)) && AfterTurn(s).pc == Top
  {
    ReachesSelf(s, true);
    BeginTurn(s, s);
    var t := s.(start := s.next, pc := Loading);
    LoadsReached(s, t);
    if AfterLoads(t).next != s.next { SweepSteps(s, AfterLoads(t)); }
  }

  lemma {:induction false} ImagesMeaning(s: State, n: nat, q: Quote)
    requires s.next < |s.ledger| && n <= |s.ledger[s.next].keyImages|
    ensures q in AfterImages(s, n).book <==> q in s.book && q.KeyImage() !in s.ledger[s.next].keyImages[..n]
  {
    if n != 0 {
      ImagesMeaning(s, n - 1, q);
      var images := s.ledger[s.next].keyImages;
      assert images[..n] == images[..n - 1] + [images[n - 1]];
    }
  }

  ghost predicate SpentSince(ledger: Ledger, from: nat, q: Quote) {
    exists j :: from <= j < |ledger| && q.KeyImage() in ledger[j].keyImages
  }

  lemma {:induction false} LoadsMeaning(s: State, q: Quote)
    requires s.next <= |s.ledger| && !s.stop
    ensures var t := AfterLoads(s);
            && t.ledger == s.ledger && t.next == |s.ledger| && t.height == s.height
            && (q in t.book <==> q in s.book && !SpentSince(s.ledger, s.next, q))
    decreases |s.ledger| - s.next
  {
    if s.next < |s.ledger| {
      LoadsMeaning(AfterLoad(s), q);
      var images := s.ledger[s.next].keyImages;
      ImagesMeaning(s, |images|, q);
      assert images[..|images|] == images;
    }
  }

  /**
   * One undisturbed turn reads the ledger to its end; the book keeps exactly the quotes that no
   * newly read block spends and, if there was one, whose tombstone is still ahead; and the height
   * is the last block.
   */
  lemma TurnMeaning(s: State, q: Quote)
    requires ThreadInv(s) && !s.stop
    ensures var t := AfterTurn(s);
            && t.next == |s.ledger|
            && (s.next < |s.ledger| ==> t.height == |s.ledger| - 1)
            && (q in t.book <==> && q in s.book && !SpentSince(s.ledger, s.next, q)
                                 && (s.next < |s.ledger| ==> !Expired(q, |s.ledger| - 1)))
  {
    LoadsMeaning(s.(start := s.next, pc := Loading), q);
  }
}
