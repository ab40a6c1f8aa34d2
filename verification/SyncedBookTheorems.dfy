/** What the interleavings of `SyncedBookSteps` guarantee about whole runs. */
module SyncedBookTheorems {
  import opened Basics
  import opened Quotes
  import opened BookSpec
  import opened Ledgers
  import opened SyncedBookSteps

  /** The state before the `k`-th step of a run. */
  ghost function At(s: State, steps: seq<Step>, k: nat): (t: State)
    requires |s.ledger| > 0 && k <= |steps|
    ensures |t.ledger| > 0
  {
    Exec(s, steps[..k])
  }

  lemma AtNext(s: State, steps: seq<Step>, k: nat)
    requires |s.ledger| > 0 && k < |steps|
    ensures At(s, steps, k + 1) == Next(At(s, steps, k), steps[k])
  {
    assert steps[..k + 1][..k] == steps[..k];
  }

  lemma AtEnd(s: State, steps: seq<Step>)
    requires |s.ledger| > 0
    ensures At(s, steps, |steps|) == Exec(s, steps)
  {
    assert steps[..|steps|] == steps;
  }

  // ---------------------------------------------------------------------------------------------
  // The recorded history is what happened
  // ---------------------------------------------------------------------------------------------

  /** Step `r` began client `c`'s add of `q`: it read the tip and passed. */
  ghost predicate ReadsTip(s: State, steps: seq<Step>, c: nat, q: Quote, r: nat)
    requires |s.ledger| > 0 && r < |steps|
  {
    var t, t' := At(s, steps, r), At(s, steps, r + 1);
    && steps[r] == ReadTip(c, q) && c !in t.pending
    && c in t'.pending && t'.pending[c] == PendingAdd(q, |t.ledger|, None, 0)
  }

  /** Step `l` looked for the key image of client `c`'s add, and passed. */
  ghost predicate PassesImage(s: State, steps: seq<Step>, c: nat, l: nat)
    requires |s.ledger| > 0 && l < |steps|
  {
    var t, t' := At(s, steps, l), At(s, steps, l + 1);
    && steps[l] == CheckImage(c) && c in t.pending && t.pending[c].checkedAt.None?
    && c in t'.pending && t'.pending[c] == t.pending[c].(checkedAt := Some(|t.ledger|))
  }

  /** Client `c`'s add of `q`, begun with `tip` blocks, is under way after step `r` until step `m`. */
  ghost predicate Underway(s: State, steps: seq<Step>, c: nat, q: Quote, tip: nat, r: nat, m: nat)
    requires |s.ledger| > 0 && m <= |steps|
  {
    forall k: nat :: r < k <= m ==>
      var t := At(s, steps, k); c in t.pending && t.pending[c].quote == q && t.pending[c].tipReadAt == tip
  }

  /** What a pending add says of itself before step `n` is what its steps did: one add, read for read. */
  ghost predicate BegunAt(s: State, steps: seq<Step>, c: nat, add: PendingAdd, n: nat, r: nat)
    requires |s.ledger| > 0 && n <= |steps|
  {
    && r < n && ReadsTip(s, steps, c, add.quote, r) && |At(s, steps, r).ledger| == add.tipReadAt
    && Underway(s, steps, c, add.quote, add.tipReadAt, r, n)
    && (add.checkedAt.Some? ==> exists l: nat :: PassedAt(s, steps, c, add, n, r, l))
  }

  ghost predicate Begun(s: State, steps: seq<Step>, c: nat, add: PendingAdd, n: nat)
    requires |s.ledger| > 0 && n <= |steps|
  {
    exists r: nat :: BegunAt(s, steps, c, add, n, r)
  }

  ghost predicate PassedAt(s: State, steps: seq<Step>, c: nat, add: PendingAdd, n: nat, r: nat, l: nat)
    requires |s.ledger| > 0 && n <= |steps| && add.checkedAt.Some?
  {
    r < l < n && PassesImage(s, steps, c, l) && |At(s, steps, l).ledger| == add.checkedAt.value
  }

  /** Step `m` put `q` into the book, and it has been there since, up to step `n`. */
  ghost predicate EntersAt(s: State, steps: seq<Step>, q: Quote, m: nat, n: nat)
    requires |s.ledger| > 0 && n <= |steps|
  {
    m < n && q !in At(s, steps, m).book && forall k: nat :: m < k <= n ==> q in At(s, steps, k).book
  }

  /**
   * Client `c` added `q`: it read the tip at step `r`, passed the key image check at step `l`, and
   * at step `m` its insertion put `q` into the book, where it has been since.
   */
  ghost predicate ClientAdd(s: State, steps: seq<Step>, q: Quote, c: nat, r: nat, l: nat, m: nat, n: nat)
    requires |s.ledger| > 0 && n <= |steps|
  {
    && r < l < m && EntersAt(s, steps, q, m, n)
    && ReadsTip(s, steps, c, q, r) && PassesImage(s, steps, c, l)
    && Underway(s, steps, c, q, |At(s, steps, r).ledger|, r, m)
    && steps[m] == Insert(c)
    && At(s, steps, m).pending[c].Ready()
    && At(s, steps, m).pending[c].checkedAt == Some(|At(s, steps, l).ledger|)
  }

  /** The origin of a quote whose add read at `r` and `l` and inserted at `m`. */
  ghost function OriginOf(s: State, steps: seq<Step>, r: nat, l: nat, m: nat): Origin
    requires |s.ledger| > 0 && r <= |steps| && l <= |steps| && m <= |steps|
  {
    var t := At(s, steps, m);
    Inserted(|At(s, steps, r).ledger|, |At(s, steps, l).ledger|, |t.ledger|, t.next, PurgeIndex(t.pc), t.swept)
  }

  ghost predicate AddedByClient(s: State, steps: seq<Step>, q: Quote, o: Origin, n: nat)
    requires |s.ledger| > 0 && n <= |steps|
  {
    exists c: nat, r: nat, l: nat, m: nat :: ClientAdd(s, steps, q, c, r, l, m, n) && o == OriginOf(s, steps, r, l, m)
  }

  ghost predicate AddedAtomically(s: State, steps: seq<Step>, q: Quote, o: Origin, n: nat)
    requires |s.ledger| > 0 && n <= |steps|
  {
    exists m: nat :: EntersAt(s, steps, q, m, n) && steps[m] == AtomicAdd(q) && o == OriginOf(s, steps, m, m, m)
  }

  ghost predicate HistoryTrue(s: State, steps: seq<Step>, n: nat)
    requires |s.ledger| > 0 && n <= |steps|
  {
    var t := At(s, steps, n);
    && (forall q :: q in t.book && q in t.origin && t.origin[q].Inserted? ==>
          AddedByClient(s, steps, q, t.origin[q], n) || AddedAtomically(s, steps, q, t.origin[q], n))
    && (forall c :: c in t.pending ==> Begun(s, steps, c, t.pending[c], n))
  }

  /**
   * In every run, each quote in the book that was not loaded entered it by the add its origin tells
   * of, and each pending add made the reads it tells of.
   */
  lemma {:induction false} HistoryIsTrue(ledger: Ledger, book: set<Quote>, steps: seq<Step>, n: nat)
    requires |ledger| > 0 && n <= |steps|
    ensures HistoryTrue(Init(ledger, book), steps, n)
    decreases n
  {
    if n != 0 {
      HistoryIsTrue(ledger, book, steps, n - 1);
      HistoryStep(Init(ledger, book), steps, n - 1);
    }
  }

  lemma HistoryStep(s: State, steps: seq<Step>, n: nat)
    requires |s.ledger| > 0 && n < |steps| && HistoryTrue(s, steps, n)
    ensures HistoryTrue(s, steps, n + 1)
  {
    var t, t' := At(s, steps, n), At(s, steps, n + 1);
    AtNext(s, steps, n);
    forall q | q in t'.book && q in t'.origin && t'.origin[q].Inserted?
      ensures AddedByClient(s, steps, q, t'.origin[q], n + 1) || AddedAtomically(s, steps, q, t'.origin[q], n + 1)
    {
      BookDelta(t, steps[n], q);
      if q in t.book { QuoteStep(s, steps, q, n); } else { EntryStep(s, steps, q, n); }
    }
    forall c | c in t'.pending ensures Begun(s, steps, c, t'.pending[c], n + 1) {
      PendingStep(s, steps, c, n);
    }
  }

  /** A quote in the book keeps its origin; a new one comes from an atomic add or from a ready pending add. */
  lemma BookDelta(t: State, step: Step, q: Quote)
    requires |t.ledger| > 0 && q in Next(t, step).book
    ensures var t' := Next(t, step);
            if q in t.book then (q in t'.origin <==> q in t.origin) && (q in t.origin ==> t'.origin[q] == t.origin[q])
            else
              && q in t'.origin
              && (|| (step == AtomicAdd(q) && t'.origin[q] == EntryOrigin(t, |t.ledger|, |t.ledger|))
                  || (&& step.Insert? && step.client in t.pending && t.pending[step.client].Ready()
                      && var add := t.pending[step.client];
                         add.quote == q && t'.origin[q] == EntryOrigin(t, add.tipReadAt, add.checkedAt.value)))
  {
    if step.Thread? { ThreadKeepsHistory(t); }
  }

  function EntryOrigin(t: State, tipReadAt: nat, checkedAt: nat): Origin {
    Inserted(tipReadAt, checkedAt, |t.ledger|, t.next, PurgeIndex(t.pc), t.swept)
  }

  lemma ThreadKeepsHistory(t: State)
    ensures ThreadStep(t).origin == t.origin && ThreadStep(t).book <= t.book && ThreadStep(t).pending == t.pending
  {
  }

  lemma QuoteStep(s: State, steps: seq<Step>, q: Quote, n: nat)
    requires |s.ledger| > 0 && n < |steps| && HistoryTrue(s, steps, n)
    requires q in At(s, steps, n).book && q in At(s, steps, n + 1).book
    requires var o := At(s, steps, n).origin; q in o && o[q].Inserted?
    ensures var o := At(s, steps, n).origin[q];
            AddedByClient(s, steps, q, o, n + 1) || AddedAtomically(s, steps, q, o, n + 1)
  {
    var o := At(s, steps, n).origin[q];
    if AddedByClient(s, steps, q, o, n) {
      var c: nat, r: nat, l: nat, m: nat :| ClientAdd(s, steps, q, c, r, l, m, n) && o == OriginOf(s, steps, r, l, m);
      StaysOne(s, steps, q, m, n);
      assert ClientAdd(s, steps, q, c, r, l, m, n + 1);
    } else {
      var m: nat :| EntersAt(s, steps, q, m, n) && steps[m] == AtomicAdd(q) && o == OriginOf(s, steps, m, m, m);
      StaysOne(s, steps, q, m, n);
    }
  }

  lemma StaysOne(s: State, steps: seq<Step>, q: Quote, m: nat, n: nat)
    requires |s.ledger| > 0 && n < |steps| && EntersAt(s, steps, q, m, n) && q in At(s, steps, n + 1).book
    ensures EntersAt(s, steps, q, m, n + 1)
  {
  }

  lemma EntryStep(s: State, steps: seq<Step>, q: Quote, n: nat)
    requires |s.ledger| > 0 && n < |steps| && HistoryTrue(s, steps, n)
    requires q !in At(s, steps, n).book && q in At(s, steps, n + 1).book && q in At(s, steps, n + 1).origin
    ensures var o := At(s, steps, n + 1).origin[q];
            AddedByClient(s, steps, q, o, n + 1) || AddedAtomically(s, steps, q, o, n + 1)
  {
    var t, o := At(s, steps, n), At(s, steps, n + 1).origin[q];
    AtNext(s, steps, n);
    BookDelta(t, steps[n], q);
    assert EntersAt(s, steps, q, n, n + 1);
    if steps[n].Insert? {
      var c := steps[n].client;
      var add := t.pending[c];
      assert Begun(s, steps, c, add, n);
      var r: nat :| BegunAt(s, steps, c, add, n, r);
      var l: nat :| PassedAt(s, steps, c, add, n, r, l);
      assert ClientAdd(s, steps, q, c, r, l, n, n + 1);
      assert o == OriginOf(s, steps, r, l, n);
    } else {
      assert o == OriginOf(s, steps, n, n, n);
    }
  }

  /** A pending add is new, or passes its key image check, or finds a ring member, or waits. */
  lemma PendingDelta(t: State, step: Step, c: nat)
    requires |t.ledger| > 0 && c in Next(t, step).pending
    ensures var add := Next(t, step).pending[c];
            || (c !in t.pending && step == ReadTip(c, add.quote) && add == PendingAdd(add.quote, |t.ledger|, None, 0))
            || (c in t.pending && PendingMoves(t, step, c, t.pending[c], add))
  {
    if step.Thread? { ThreadKeepsHistory(t); }
  }

  predicate PendingMoves(t: State, step: Step, c: nat, before: PendingAdd, after: PendingAdd) {
    || after.(members := before.members) == before
    || (step == CheckImage(c) && before.checkedAt.None? && after == before.(checkedAt := Some(|t.ledger|)))
  }

  /** The story of a pending add goes on with the next step. */
  lemma PendingStep(s: State, steps: seq<Step>, c: nat, n: nat)
    requires |s.ledger| > 0 && n < |steps| && HistoryTrue(s, steps, n) && c in At(s, steps, n + 1).pending
    ensures Begun(s, steps, c, At(s, steps, n + 1).pending[c], n + 1)
  {
    var t, t' := At(s, steps, n), At(s, steps, n + 1);
    var add := t'.pending[c];
    AtNext(s, steps, n);
    PendingDelta(t, steps[n], c);
    if c !in t.pending {
      assert ReadsTip(s, steps, c, add.quote, n);
      assert BegunAt(s, steps, c, add, n + 1, n);
    } else {
      assert Begun(s, steps, c, t.pending[c], n);
      var r: nat :| BegunAt(s, steps, c, t.pending[c], n, r);
      BegunLater(s, steps, c, n, r);
    }
  }

  lemma BegunLater(s: State, steps: seq<Step>, c: nat, n: nat, r: nat)
    requires |s.ledger| > 0 && n < |steps| && c in At(s, steps, n).pending && c in At(s, steps, n + 1).pending
    requires BegunAt(s, steps, c, At(s, steps, n).pending[c], n, r)
    requires PendingMoves(At(s, steps, n), steps[n], c, At(s, steps, n).pending[c], At(s, steps, n + 1).pending[c])
    ensures BegunAt(s, steps, c, At(s, steps, n + 1).pending[c], n + 1, r)
  {
    var before, add := At(s, steps, n).pending[c], At(s, steps, n + 1).pending[c];
    assert Underway(s, steps, c, add.quote, add.tipReadAt, r, n + 1);
    if before.checkedAt.Some? {
      var l: nat :| PassedAt(s, steps, c, before, n, r, l);
      assert PassedAt(s, steps, c, add, n + 1, r, l);
    } else if add.checkedAt.Some? {
      assert PassedAt(s, steps, c, add, n + 1, r, n);
    }
  }

  // ---------------------------------------------------------------------------------------------
  // Interleaved adds: what may be left over
  // ---------------------------------------------------------------------------------------------

  /**
   * The race for `q`: the client that put it into the book looked for its key image before block
   * `j` was in the ledger, and inserted after the thread was done with that key image.
   */
  ghost predicate RaceInRun(s: State, steps: seq<Step>, q: Quote, c: nat, r: nat, l: nat, m: nat, j: nat, i: nat)
    requires |s.ledger| > 0
  {
    && ClientAdd(s, steps, q, c, r, l, m, |steps|)
    && |At(s, steps, l).ledger| <= j && Purged(At(s, steps, m), j, i)
  }

  /** The `i`-th key image of block `j` is that of `q`. */
  predicate SpendsAt(ledger: Ledger, q: Quote, j: nat, i: nat) {
    j < |ledger| && i < |ledger[j].keyImages| && ledger[j].keyImages[i] == q.KeyImage()
  }

  /**
   * In every run, a quote in the book whose key image is in the ledger has outlived the thread's
   * removal of that key image if and only if it was put there by an add that raced it.
   */
  lemma LeftoverComesFromRace(ledger: Ledger, book: set<Quote>, steps: seq<Step>, q: Quote, j: nat, i: nat)
    requires |ledger| > 0
    requires var s := Exec(Init(ledger, book), steps); q in s.book && SpendsAt(s.ledger, q, j, i)
    ensures Purged(Exec(Init(ledger, book), steps), j, i)
       <==> exists c: nat, r: nat, l: nat, m: nat :: RaceInRun(Init(ledger, book), steps, q, c, r, l, m, j, i)
  {
    var s0 := Init(ledger, book);
    AtEnd(s0, steps);
    if Purged(Exec(s0, steps), j, i) { LeftoverRaced(ledger, book, steps, q, j, i); }
    forall c: nat, r: nat, l: nat, m: nat | RaceInRun(s0, steps, q, c, r, l, m, j, i)
      ensures Purged(Exec(s0, steps), j, i)
    {
      PurgedLater(s0, steps, m, j, i);
    }
  }

  lemma LeftoverRaced(ledger: Ledger, book: set<Quote>, steps: seq<Step>, q: Quote, j: nat, i: nat)
    requires |ledger| > 0
    requires q in Exec(Init(ledger, book), steps).book && SpentAndPurged(Exec(Init(ledger, book), steps), q, j, i)
    ensures exists c: nat, r: nat, l: nat, m: nat :: RaceInRun(Init(ledger, book), steps, q, c, r, l, m, j, i)
  {
    var s0 := Init(ledger, book);
    var s := Exec(s0, steps);
    InitInv(ledger, book);
    ExecKeepsInv(s0, steps);
    AtEnd(s0, steps);
    HistoryIsTrue(ledger, book, steps, |steps|);
    var o := s.origin[q];
    assert RacedPurge(o, j, i) && j < o.ledgerAt;
    assert AddedByClient(s0, steps, q, o, |steps|);
    var c: nat, r: nat, l: nat, m: nat :|
      ClientAdd(s0, steps, q, c, r, l, m, |steps|) && o == OriginOf(s0, steps, r, l, m);
    assert RaceInRun(s0, steps, q, c, r, l, m, j, i);
  }

  lemma {:induction false} Carry(p: nat -> bool, m: nat, n: nat)
    requires m <= n && p(m) && forall k: nat :: m <= k < n && p(k) ==> p(k + 1)
    ensures p(n)
    decreases n - m
  {
    if m < n { Carry(p, m + 1, n); }
  }

  lemma PurgedLater(s: State, steps: seq<Step>, m: nat, j: nat, i: nat)
    requires |s.ledger| > 0 && m <= |steps| && Purged(At(s, steps, m), j, i)
    ensures Purged(At(s, steps, |steps|), j, i)
  {
    var p := (k: nat) => k <= |steps| && Purged(At(s, steps, k), j, i);
    forall k: nat | m <= k < |steps| && p(k) ensures p(k + 1) { PurgedNext(s, steps, k, j, i); }
    Carry(p, m, |steps|);
  }

  lemma PurgedNext(s: State, steps: seq<Step>, n: nat, j: nat, i: nat)
    requires |s.ledger| > 0 && n < |steps| && Purged(At(s, steps, n), j, i)
    ensures Purged(At(s, steps, n + 1), j, i)
  {
    AtNext(s, steps, n);
    PurgedStays(At(s, steps, n), steps[n], j, i);
  }

  /** A ready add of `q` that nothing in the book conflicts with, after the thread is done with its key image. */
  ghost predicate Raced(s: State, c: nat, q: Quote, j: nat, i: nat) {
    && c in s.pending && s.pending[c].Ready() && s.pending[c].quote == q
    && (forall r :: r in s.book ==> !Conflicts(r, q))
    && SpentAndPurged(s, q, j, i)
  }

  /** Exactly the insertion of such an add leaves a quote behind, and the add looked before block `j`. */
  lemma LeakStep(s: State, step: Step, q: Quote, j: nat, i: nat)
    requires Inv(s) && q !in s.book
    ensures q in Next(s, step).book && SpentAndPurged(Next(s, step), q, j, i)
       <==> step.Insert? && Raced(s, step.client, q, j, i)
    ensures step.Insert? && Raced(s, step.client, q, j, i) ==> s.pending[step.client].checkedAt.value <= j
  {
    if q in Next(s, step).book {
      BookDelta(s, step, q);
      if step.Insert? {
        var add := s.pending[step.client];
        if SpentAndPurged(s, q, j, i) { NotSpentBefore(s.ledger, add.checkedAt.value, q.KeyImage(), j); }
      }
    }
    if step.Insert? && Raced(s, step.client, q, j, i) {
      NotSpentBefore(s.ledger, s.pending[step.client].checkedAt.value, q.KeyImage(), j);
    }
  }

  /**
   * In every run, a quote expired at the last sweep that is still in the book was put there after
   * that sweep, by a client that had read the tip before its tombstone block.
   */
  lemma ExpiredLeftoverIsYoung(ledger: Ledger, book: set<Quote>, steps: seq<Step>, q: Quote)
    requires |ledger| > 0
    requires var s := Exec(Init(ledger, book), steps); q in s.book && 0 < s.swept && Expired(q, s.swept - 1)
    ensures exists c: nat, r: nat, l: nat, m: nat :: SweepRaceInRun(Init(ledger, book), steps, q, c, r, l, m)
  {
    var s0 := Init(ledger, book);
    var s := Exec(s0, steps);
    InitInv(ledger, book);
    ExecKeepsInv(s0, steps);
    AtEnd(s0, steps);
    HistoryIsTrue(ledger, book, steps, |steps|);
    var o := s.origin[q];
    assert RacedSweep(s, q, o) && o.sweptAt <= o.ledgerAt && o.tipReadAt < s.swept;
    assert AddedByClient(s0, steps, q, o, |steps|);
    var c: nat, r: nat, l: nat, m: nat :|
      ClientAdd(s0, steps, q, c, r, l, m, |steps|) && o == OriginOf(s0, steps, r, l, m);
    assert SweepRaceInRun(s0, steps, q, c, r, l, m);
  }

  ghost predicate SweepRaceInRun(s: State, steps: seq<Step>, q: Quote, c: nat, r: nat, l: nat, m: nat)
    requires |s.ledger| > 0
  {
    && ClientAdd(s, steps, q, c, r, l, m, |steps|)
    && |At(s, steps, r).ledger| <= q.Tombstone() && At(s, steps, m).swept == Exec(s, steps).swept
  }

  /** The thread is done with every occurrence of the quote's key image in a ledger. */
  ghost predicate AllPurged(s: State, q: Quote, ledger: Ledger) {
    forall j: nat, i: nat ::
      j < |ledger| && i < |ledger[j].keyImages| && ledger[j].keyImages[i] == q.KeyImage() ==> Purged(s, j, i)
  }

  lemma PurgedStays(s: State, step: Step, j: nat, i: nat)
    requires |s.ledger| > 0 && Purged(s, j, i)
    ensures Purged(Next(s, step), j, i)
  {
  }

  lemma SurvivesStep(s: State, step: Step, q: Quote, ledger: Ledger)
    requires ThreadInv(s) && !step.RemoveOutside? && q.Tombstone() == 0
    requires q in s.book && s.ledger <= ledger && AllPurged(s, q, ledger)
    ensures q in Next(s, step).book && AllPurged(Next(s, step), q, ledger)
  {
    var s' := Next(s, step);
    forall j: nat, i: nat | j < |ledger| && i < |ledger[j].keyImages| && ledger[j].keyImages[i] == q.KeyImage()
      ensures Purged(s', j, i)
    {
      PurgedStays(s, step, j, i);
    }
    if step.Thread? && s.pc.Purging? && s.pc.i < |s.ledger[s.next].keyImages| {
      assert !Purged(s, s.next, s.pc.i) && s.ledger[s.next] == ledger[s.next];
    }
  }

  /**
   * A leftover is permanent: once the thread is done with a key image, no later run without outside
   * removals takes a quote with that key image and no tombstone out of the book, unless the ledger
   * spends the key image again.
   */
  lemma {:induction false} LeftoverIsPermanent(s: State, steps: seq<Step>, q: Quote, ledger: Ledger)
    requires Inv(s) && q in s.book && q.Tombstone() == 0
    requires forall k :: 0 <= k < |steps| ==> !steps[k].RemoveOutside?
    requires Exec(s, steps).ledger <= ledger && AllPurged(s, q, ledger)
    ensures q in Exec(s, steps).book && AllPurged(Exec(s, steps), q, ledger)
  {
    if steps != [] {
      var prefix := steps[..|steps| - 1];
      ExecKeepsInv(s, prefix);
      HeightStep(Exec(s, prefix), steps[|steps| - 1]);
      LeftoverIsPermanent(s, prefix, q, ledger);
      SurvivesStep(Exec(s, prefix), steps[|steps| - 1], q, ledger);
    }
  }

  lemma ExecAppend(s: State, steps: seq<Step>, step: Step)
    requires |s.ledger| > 0
    ensures Exec(s, steps + [step]) == Next(Exec(s, steps), step)
  {
    assert (steps + [step])[..|steps|] == steps;
  }

  /** Some run takes `s` to `t`; with `alone`, a run of the thread only. */
  ghost predicate Reaches(s: State, t: State, alone: bool)
    requires |s.ledger| > 0
  {
    exists steps: seq<Step> :: t == Exec(s, steps) && (alone ==> forall k :: 0 <= k < |steps| ==> steps[k].Thread?)
  }

  lemma ReachesSelf(s: State, alone: bool)
    requires |s.ledger| > 0
    ensures Reaches(s, s, alone)
  {
    assert s == Exec(s, []);
  }

  lemma ReachesNext(s: State, t: State, step: Step, alone: bool)
    requires |s.ledger| > 0 && |t.ledger| > 0 && Reaches(s, t, alone) && (alone ==> step.Thread?)
    ensures Reaches(s, Next(t, step), alone)
  {
    var steps: seq<Step> :| t == Exec(s, steps) && (alone ==> forall k :: 0 <= k < |steps| ==> steps[k].Thread?);
    ExecAppend(s, steps, step);
  }

  /** What is reachable from a reachable state is reachable. */
  lemma {:induction false} ReachesThrough(a: State, s: State, steps: seq<Step>)
    requires |a.ledger| > 0 && |s.ledger| > 0 && Reaches(a, s, false)
    ensures Reaches(a, Exec(s, steps), false)
  {
    if steps != [] {
      var prefix := steps[..|steps| - 1];
      ReachesThrough(a, s, prefix);
      ReachesNext(a, Exec(s, prefix), steps[|steps| - 1], false);
    }
  }

  lemma ThreadHeight(s: State)
    requires ThreadInv(s)
    ensures s.height <= ThreadStep(s).height
  {
  }

  /** The published height never falls and never passes the tip; the ledger only grows. */
  lemma HeightStep(s: State, step: Step)
    requires Inv(s)
    ensures var s' := Next(s, step); s.height <= s'.height < |s'.ledger| && s.ledger <= s'.ledger
  {
    if step.Thread? {
      ThreadShrinks(s);
      ThreadHeight(s);
    }
  }

  lemma {:induction false} HeightMonotone(s: State, steps: seq<Step>)
    requires Inv(s)
    ensures var s' := Exec(s, steps); s.height <= s'.height < |s'.ledger| && s.ledger <= s'.ledger
  {
    if steps != [] {
      var prefix := steps[..|steps| - 1];
      HeightMonotone(s, prefix);
      ExecKeepsInv(s, prefix);
      HeightStep(Exec(s, prefix), steps[|steps| - 1]);
    }
  }

  // ---------------------------------------------------------------------------------------------
  // Atomic adds: nothing is left over
  // ---------------------------------------------------------------------------------------------

  predicate Atomic(step: Step) {
    !step.ReadTip? && !step.CheckImage? && !step.CheckMember? && !step.Insert?
  }

  ghost predicate AtomicRun(steps: seq<Step>) {
    forall k :: 0 <= k < |steps| ==> Atomic(steps[k])
  }

  ghost predicate AtomicInv(s: State) {
    && Inv(s) && s.pending == map[]
    && forall q :: q in s.book && s.origin[q].Inserted? ==>
         s.origin[q].tipReadAt == s.origin[q].checkedAt == s.origin[q].ledgerAt
  }

  lemma AtomicStepKeeps(s: State, step: Step)
    requires AtomicInv(s) && Atomic(step)
    ensures AtomicInv(Next(s, step))
  {
    NextKeepsInv(s, step);
    var s' := Next(s, step);
    forall q | q in s'.book && s'.origin[q].Inserted?
      ensures s'.origin[q].tipReadAt == s'.origin[q].checkedAt == s'.origin[q].ledgerAt
    {
      if q !in s.book || s.origin[q] != s'.origin[q] { AtomicDelta(s, step, q); }
    }
  }

  /** What enters the book by an atomic step was checked against the ledger it was inserted under. */
  lemma AtomicDelta(s: State, step: Step, q: Quote)
    requires AtomicInv(s) && Atomic(step)
    requires var s' := Next(s, step); q in s'.book && (q !in s.book || q !in s'.origin || s.origin[q] != s'.origin[q])
    ensures var o := Next(s, step).origin; q in o && o[q].Inserted? && o[q].tipReadAt == o[q].checkedAt == o[q].ledgerAt
  {
    if step.Thread? { ThreadShrinks(s); }
  }

  lemma {:induction false} AtomicRunKeeps(s: State, steps: seq<Step>)
    requires AtomicInv(s) && AtomicRun(steps)
    ensures AtomicInv(Exec(s, steps))
  {
    if steps != [] {
      var prefix := steps[..|steps| - 1];
      AtomicRunKeeps(s, prefix);
      AtomicStepKeeps(Exec(s, prefix), steps[|steps| - 1]);
    }
  }

  /** With atomic adds, no quote in the book is spent where the thread is done or expired at the last sweep. */
  lemma AtomicNoLeftovers(s: State, q: Quote)
    requires AtomicInv(s) && q in s.book
    ensures forall j: nat, i: nat :: !SpentAndPurged(s, q, j, i)
    ensures 0 < s.swept ==> !Expired(q, s.swept - 1)
  {
  }

  /**
   * With adds atomic, from any loaded book and under any interleaving: once the published height is
   * positive, no quote in the book is spent in a block up to it or has a tombstone block up to it.
   */
  lemma PublishedHeightIsClean(ledger: Ledger, book: set<Quote>, steps: seq<Step>, q: Quote)
    requires |ledger| > 0 && AtomicRun(steps)
    requires var s := Exec(Init(ledger, book), steps); 0 < s.height && q in s.book
    ensures var s := Exec(Init(ledger, book), steps);
            && s.height < |s.ledger|
            && (forall j :: 0 <= j <= s.height ==> q.KeyImage() !in s.ledger[j].keyImages)
            && !(q.Tombstone() != 0 && q.Tombstone() <= s.height)
  {
    var s := Exec(Init(ledger, book), steps);
    InitInv(ledger, book);
    AtomicRunKeeps(Init(ledger, book), steps);
    AtomicNoLeftovers(s, q);
    forall j | 0 <= j <= s.height ensures q.KeyImage() !in s.ledger[j].keyImages {
      forall i | 0 <= i < |s.ledger[j].keyImages| ensures s.ledger[j].keyImages[i] != q.KeyImage() {
        assert !SpentAndPurged(s, q, j, i);
      }
    }
  }

  // ---------------------------------------------------------------------------------------------
  // Atomic adds and no outside removals: removal is final and reported once
  // ---------------------------------------------------------------------------------------------

  /** Removed from the book, callback not called yet. */
  function InFlight(pc: Pc): set<Quote> {
    match pc
    case Reporting(_, removed) => removed
    case ReportingSwept(removed) => removed
    case _ => {}
  }

  function One(present: bool): nat { if present then 1 else 0 }

  /** In how many places a quote is: the book, the thread's hands, and the reports. */
  ghost function Places(s: State, q: Quote): nat {
    One(q in s.book) + One(q in InFlight(s.pc)) + s.reported[q]
  }

  /** Each quote ever held is in exactly one place: the book, the thread's hands, or the reports, once. */
  ghost predicate Conserved(s: State) {
    && 0 < |s.ledger|
    && (forall q :: Places(s, q) == One(q in s.ever))
    && (forall q :: q in s.ever && q !in s.book ==> Stale(s.ledger, q))
  }

  ghost predicate OnlyThreadRemoves(steps: seq<Step>) {
    AtomicRun(steps) && forall k :: 0 <= k < |steps| ==> !steps[k].RemoveOutside?
  }

  lemma StaleStays(ledger: Ledger, block: Block, q: Quote)
    requires |ledger| > 0 && Stale(ledger, q)
    ensures Stale(ledger + [block], q)
  {
    if SpentIn(ledger, q.KeyImage()) {
      var j :| 0 <= j < |ledger| && q.KeyImage() in ledger[j].keyImages;
      assert (ledger + [block])[j] == ledger[j];
    }
  }

  /** Whatever the thread removes is stale. */
  lemma ThreadRemovesStale(s: State, q: Quote)
    requires ThreadInv(s) && q in s.book && q !in ThreadStep(s).book
    ensures Stale(s.ledger, q)
  {
  }

  /** The thread only moves a quote from one place to the next. */
  lemma ThreadMoves(s: State, q: Quote)
    requires ThreadInv(s)
    ensures Places(ThreadStep(s), q) == Places(s, q)
  {
    match s.pc {
      case Purging(i) => if i < |s.ledger[s.next].keyImages| { PurgeStep(s, i); }
      case Reporting(i, removed) =>
        ReportStep(s, i, removed);
        assert multiset(removed)[q] == One(q in removed);
      case Sweeping => SweepStep(s);
      case ReportingSwept(removed) => assert multiset(removed)[q] == One(q in removed);
      case _ => assert ThreadStep(s).reported == s.reported && InFlight(s.pc) == {};
    }
  }

  lemma ConservedByThread(s: State)
    requires ThreadInv(s) && Conserved(s)
    ensures Conserved(ThreadStep(s))
  {
    var s' := ThreadStep(s);
    ThreadShrinks(s);
    forall q | true ensures Places(s', q) == One(q in s'.ever) { ThreadMoves(s, q); }
    forall q | q in s'.ever && q !in s'.book ensures Stale(s'.ledger, q) {
      if q in s.book { ThreadRemovesStale(s, q); }
    }
  }

  /** The thread alone keeps what was conserved, and the history of the quotes. */
  lemma {:induction false} ConservedAlone(s: State, steps: seq<Step>)
    requires ThreadInv(s) && Conserved(s) && forall k :: 0 <= k < |steps| ==> steps[k].Thread?
    ensures var t := Exec(s, steps); ThreadInv(t) && Conserved(t) && Shrinks(s, t)
  {
    if steps != [] {
      var prefix := steps[..|steps| - 1];
      ConservedAlone(s, prefix);
      ThreadShrinks(Exec(s, prefix));
      ConservedByThread(Exec(s, prefix));
    }
  }

  lemma ConservedByStep(s: State, step: Step)
    requires AtomicInv(s) && Conserved(s) && Atomic(step) && !step.RemoveOutside?
    ensures Conserved(Next(s, step))
  {
    match step {
      case Append(block) =>
        forall q | q in s.ever && q !in s.book ensures Stale(s.ledger + [block], q) { StaleStays(s.ledger, block, q); }
      case RequestStop =>
      case Thread => ConservedByThread(s);
      case AtomicAdd(q) =>
        if Refusal(s.ledger, q).None? && Next(s, step) != s {
          assert q !in s.ever by { assert Conflicts(q, q); }
        }
    }
  }

  lemma {:induction false} ConservedByRun(s: State, steps: seq<Step>)
    requires AtomicInv(s) && Conserved(s) && OnlyThreadRemoves(steps)
    ensures Conserved(Exec(s, steps)) && AtomicInv(Exec(s, steps))
  {
    if steps != [] {
      var prefix := steps[..|steps| - 1];
      ConservedByRun(s, prefix);
      AtomicStepKeeps(Exec(s, prefix), steps[|steps| - 1]);
      ConservedByStep(Exec(s, prefix), steps[|steps| - 1]);
    }
  }

  /**
   * With adds atomic and no outside removals, every quote ever held is in the book, or about to be
   * reported, or was reported, and only one of these and only once.
   */
  lemma RemovalIsConserved(ledger: Ledger, book: set<Quote>, steps: seq<Step>)
    requires |ledger| > 0 && OnlyThreadRemoves(steps)
    ensures Conserved(Exec(Init(ledger, book), steps))
  {
    InitInv(ledger, book);
    ConservedByRun(Init(ledger, book), steps);
  }

  /**
   * Removal is final: a quote that was once held and is no longer in the book is refused as stale
   * in that state and in every later one, so it never comes back.
   */
  lemma RemovedIsRefusedForever(ledger: Ledger, book: set<Quote>, steps: seq<Step>, later: seq<Step>, q: Quote)
    requires |ledger| > 0 && OnlyThreadRemoves(steps) && OnlyThreadRemoves(later)
    requires var s := Exec(Init(ledger, book), steps); q in s.ever && q !in s.book
    ensures var s := Exec(Exec(Init(ledger, book), steps), later);
            q !in s.book && Refusal(s.ledger, q) == Some(QuoteIsStale)
  {
    var s := Exec(Init(ledger, book), steps);
    InitInv(ledger, book);
    ConservedByRun(Init(ledger, book), steps);
    GoneStaysGone(s, later, q);
  }

  lemma {:induction false} GoneStaysGone(s: State, steps: seq<Step>, q: Quote)
    requires AtomicInv(s) && Conserved(s) && OnlyThreadRemoves(steps)
    requires q in s.ever && q !in s.book
    ensures var s' := Exec(s, steps); q in s'.ever && q !in s'.book && Stale(s'.ledger, q)
  {
    if steps != [] {
      var prefix := steps[..|steps| - 1];
      GoneStaysGone(s, prefix, q);
      ConservedByRun(s, prefix);
      GoneStep(Exec(s, prefix), steps[|steps| - 1], q);
    }
  }

  lemma GoneStep(s: State, step: Step, q: Quote)
    requires ThreadInv(s) && Atomic(step) && q in s.ever && q !in s.book && Stale(s.ledger, q)
    ensures var s' := Next(s, step); q in s'.ever && q !in s'.book && Stale(s'.ledger, q)
  {
    match step {
      case Append(block) => StaleStays(s.ledger, block, q);
      case Thread =>
        ThreadShrinks(s);
        ThreadMoves(s, q);
      case _ =>
    }
  }
}
