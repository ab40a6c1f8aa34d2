/**
 * The liquidity bot: outputs waiting to be offered and outputs listed on the DEQS, moved
 * between the two lists, refreshed, and dropped as blocks and responses come in. Every method is
 * proved to do what the function of `BotSpec` says.
 */
module BotLists {
  import opened Basics
  import opened Sequences
  import opened Quotes
  import opened LedgerScanner
  import opened LiquidityBot
  import opened BotResponses
  import opened BotSpec

  class LiquidityBotTask {
    const trade: Trade
    var pending: seq<PendingTxOut>
    var listed: seq<ListedTxOut>
    ghost var fate: Fate

    ghost function Model(): Bot
      reads this
    {
      Bot(pending, listed, fate)
    }

    ghost predicate Valid()
      reads this
    {
      Distinct(pending, listed)
    }

    constructor (trade: Trade)
      ensures Valid() && this.trade == trade && Model() == NEW_BOT
    {
      this.trade := trade;
      pending, listed := [], [];
      fate := Fate([], [], [], []);
    }

    /** Removes from the listed outputs those that were spent, and returns them. */
    method UnlistSpentTxOuts(spent: seq<MatchedTxOut>) returns (removed: seq<ListedTxOut>)
      requires Valid()
      modifies `listed, `fate
      ensures Valid() && Model() == AfterUnlist(old(Model()), spent)
      ensures multiset(old(listed)) == multiset(listed) + multiset(removed)
    {
      ghost var after := AfterUnlist(Model(), spent);
      removed := RemoveSpent(spent);
      fate := after.fate;
    }

    /** The loop over the spent outputs. */
    method RemoveSpent(spent: seq<MatchedTxOut>) returns (removed: seq<ListedTxOut>)
      requires Valid()
      modifies `listed
      ensures Valid() && listed == Filter(old(listed), NotSpent(spent))
      ensures multiset(old(listed)) == multiset(listed) + multiset(removed)
    {
      removed := [];
      NothingSpent(listed);
      assert spent[..0] == [];
      for i := 0 to |spent|
        invariant Valid()
        invariant listed == Filter(old(listed), NotSpent(spent[..i]))
        invariant multiset(old(listed)) == multiset(listed) + multiset(removed)
      {
        var idx := Position(spent[i].keyImage);
        UnlistOne(pending, old(listed), listed, spent, i, idx);
        if idx < |listed| {
          removed := removed + [listed[idx]];
          listed := listed[..idx] + listed[idx + 1..];
        }
      }
      assert spent[..|spent|] == spent;
    }

    /** The index of the listed output with the key image, or the length of the list. */
    method Position(keyImage: KeyImage) returns (idx: nat)
      ensures idx <= |listed|
      ensures idx < |listed| ==> listed[idx].Key() == keyImage
      ensures forall j :: 0 <= j < idx ==> listed[j].Key() != keyImage
    {
      idx := 0;
      while idx < |listed| && listed[idx].Key() != keyImage
        invariant 0 <= idx <= |listed|
        invariant forall j :: 0 <= j < idx ==> listed[j].Key() != keyImage
      {
        idx := idx + 1;
      }
    }

    /** The output with the SCI the builder makes for it, at the rate of its token. */
    method CreatePendingTxOut(matched: MatchedTxOut) returns (created: Option<PendingTxOut>)
      ensures created == trade.Offer(matched)
    {
      if matched.amount.tokenId !in trade.pairs { return None; }
      var (token, rate) := trade.pairs[matched.amount.tokenId];
      var counter := CounterAmount(matched.amount.value, rate);
      if counter.None? { return None; }
      var sci := trade.build(matched, counter.value, token);
      if sci.None? { return None; }
      created := Some(PendingTxOut(matched, sci.value));
    }

    /**
     * Queues the received outputs of tokens the bot trades that it does not track yet. A failure to
     * build an SCI stops at that output and keeps what was queued before it.
     */
    method UpdatePendingFromReceived(received: seq<MatchedTxOut>) returns (ending: Ending, added: bool)
      requires Valid()
      modifies `pending, `fate
      ensures Valid() && Model() == AfterQueue(trade, old(Model()), received)
      ensures ending == if exists i: nat :: i < |received| && Unbuildable(trade, old(pending), listed, received, i)
                        then Failed else Done
      ensures added == (pending != old(pending))
    {
      QueueDistinct(trade, pending, listed, received, |received|);
      QueueFailsExactly(trade, pending, listed, received);
      ghost var after := AfterQueue(trade, Model(), received);
      var ok;
      ok, added := QueueTxOuts(received);
      fate := after.fate;
      ending := if ok then Done else Failed;
    }

    /** The loop over the received outputs. */
    method QueueTxOuts(received: seq<MatchedTxOut>) returns (ok: bool, added: bool)
      modifies `pending
      ensures Queueing(pending, ok) == Queue(trade, old(pending), listed, received, |received|)
      ensures added == (pending != old(pending))
    {
      added := false;
      for i := 0 to |received|
        invariant Queue(trade, old(pending), listed, received, i) == Queueing(pending, true)
        invariant added == (pending != old(pending))
      {
        var before := |pending|;
        ok := QueueTxOut(received[i]);
        if !ok {
          QueueEnds(trade, old(pending), listed, received, i + 1);
          return;
        }
        added := added || before < |pending|;
      }
      ok := true;
    }

    /** Queues one output if it is traded and not tracked already; false if its SCI cannot be built. */
    method QueueTxOut(m: MatchedTxOut) returns (ok: bool)
      modifies `pending
      ensures Queueing(pending, ok) == QueueOne(trade, old(pending), listed, m)
    {
      if m.amount.tokenId !in trade.pairs { return true; }
      var known := IsTracked(m.keyImage);
      if known { return true; }
      var p := CreatePendingTxOut(m);
      if p.None? { return false; }
      pending := pending + [p.value];
      ok := true;
    }

    method IsTracked(keyImage: KeyImage) returns (known: bool)
      ensures known <==> Tracks(pending, listed, keyImage)
    {
      for i := 0 to |pending|
        invariant forall j :: 0 <= j < i ==> pending[j].Key() != keyImage
      {
        if pending[i].Key() == keyImage { return true; }
      }
      var idx := Position(keyImage);
      known := idx < |listed|;
    }

    /**
     * Submits everything pending. Without a response, or with one that is not aligned with the
     * request, nothing changes. Otherwise the queue is emptied: the accepted are listed, up to the
     * first accepted entry whose quote does not convert or is for another SCI, and what comes from
     * there on is lost.
     */
    method SubmitPendingTxOuts(resp: Option<SubmitQuotesResponse>, clock: nat -> u64) returns (ending: Ending)
      requires Valid()
      modifies this
      ensures Valid() && Model() == AfterSubmit(old(Model()), resp, clock)
      ensures ending == SubmitEnding(old(Model()), resp)
    {
      AfterSubmitDistinct(Model(), resp, clock);
      ghost var after := AfterSubmit(Model(), resp, clock);
      if pending == [] { return Done; }
      if resp.None? || !Aligned(resp.value, |pending|) { return Failed; }
      var drained := pending;
      pending := [];
      fate := after.fate;
      ending := ListAccepted(drained, resp.value, clock);
    }

    /** The loop over an aligned response to a submission. */
    method ListAccepted(drained: seq<PendingTxOut>, r: SubmitQuotesResponse, clock: nat -> u64) returns (ending: Ending)
      requires Aligned(r, |drained|)
      modifies `listed
      ensures listed == old(listed) + NewlyListed(drained, r, clock, Stop(r, PendingScis(drained)))
      ensures ending == EndingAt(r, PendingScis(drained), Stop(r, PendingScis(drained)))
    {
      ghost var scis := PendingScis(drained);
      for i := 0 to |drained|
        invariant listed == old(listed) + NewlyListed(drained, r, clock, i)
        invariant Stop(r, scis) == StopIndex(r, scis, i)
      {
        if Accepted(r.statusCodes[i]) {
          if r.quotes[i].None? { return Failed; }
          var quote := r.quotes[i].value;
          if quote.sci != drained[i].sci && !r.statusCodes[i].AlreadyExists? { return Panicked; }
          listed := listed + [ListedTxOut(drained[i].matched, quote, clock(i))];
        }
      }
      ending := Done;
    }

    /**
     * Submits again the listed outputs that are due. Without a response all of them stay listed, in
     * another order. One that is not aligned loses those that were due. Otherwise the accepted stay,
     * up to the first accepted entry whose quote does not convert or is for another SCI, and what
     * comes from there on is lost.
     */
    method ResubmitListedTxOuts(olderThan: nat, now: u64, resp: Option<SubmitQuotesResponse>, clock: nat -> u64)
      returns (ending: Ending)
      requires Valid()
      modifies `listed, `fate
      ensures Valid() && Model() == AfterResubmit(old(Model()), olderThan, now, resp, clock)
      ensures ending == ResubmitEnding(old(Model()), olderThan, now, resp)
    {
      ResubmitDistinct(Model(), olderThan, now, resp, clock);
      ghost var after := AfterResubmit(Model(), olderThan, now, resp, clock);
      var toResubmit, toKeep := Partition(olderThan, now);
      listed := toKeep;
      fate := after.fate;
      if toResubmit == [] { return Done; }
      if resp.None? {
        listed := listed + toResubmit;
        return Failed;
      }
      if !Aligned(resp.value, |toResubmit|) { return Failed; }
      ending := Refresh(toResubmit, resp.value, clock);
    }

    /** The loop over an aligned response to a refresh. */
    method Refresh(due: seq<ListedTxOut>, r: SubmitQuotesResponse, clock: nat -> u64) returns (ending: Ending)
      requires Aligned(r, |due|)
      modifies `listed
      ensures listed == old(listed) + StillListed(due, r, clock, Stop(r, ListedScis(due)))
      ensures ending == EndingAt(r, ListedScis(due), Stop(r, ListedScis(due)))
    {
      ghost var scis := ListedScis(due);
      for i := 0 to |due|
        invariant listed == old(listed) + StillListed(due, r, clock, i)
        invariant Stop(r, scis) == StopIndex(r, scis, i)
      {
        var code, l := r.statusCodes[i], due[i];
        if Accepted(code) {
          if r.quotes[i].None? { return Failed; }
          var quote := r.quotes[i].value;
          if code.Created? && quote.sci != l.quote.sci { return Panicked; }
          listed := listed + [l.(quote := quote, lastSubmittedAt := clock(i))];
        }
      }
      ending := Done;
    }

    /** Splits the listed outputs into those due and those not, keeping order. */
    method Partition(olderThan: nat, now: u64) returns (due: seq<ListedTxOut>, kept: seq<ListedTxOut>)
      ensures due == Filter(listed, DueAt(now, olderThan)) && kept == Filter(listed, NotDueAt(now, olderThan))
    {
      due, kept := [], [];
      for i := 0 to |listed|
        invariant due == Filter(listed[..i], DueAt(now, olderThan))
        invariant kept == Filter(listed[..i], NotDueAt(now, olderThan))
      {
        assert listed[..i + 1][..i] == listed[..i];
        if Due(listed[i], now, olderThan) {
          due := due + [listed[i]];
        } else {
          kept := kept + [listed[i]];
        }
      }
      assert listed[..|listed|] == listed;
    }

    /** The answer to a processed block: unlist what was spent, queue what came in, and submit if the queue grew. */
    method HandleBlock(received: seq<MatchedTxOut>, spent: seq<MatchedTxOut>, resp: Option<SubmitQuotesResponse>,
                       clock: nat -> u64)
      returns (ending: Ending)
      requires Valid()
      modifies this
      ensures Valid() && Model() == AfterBlock(trade, old(Model()), received, spent, resp, clock)
      ensures ending == BlockEnding(trade, old(Model()), received, spent, resp)
    {
      var _ := UnlistSpentTxOuts(spent);
      QueueFailsExactly(trade, pending, listed, received);
      var queued, added := UpdatePendingFromReceived(received);
      ending := Done;
      if queued.Done? && added {
        ending := SubmitPendingTxOuts(resp, clock);
      }
    }

    /** The answer to the timer: refresh the listings, then submit the queue. */
    method HandleTick(now: u64, resubmitted: Option<SubmitQuotesResponse>, clock: nat -> u64,
                      submitted: Option<SubmitQuotesResponse>, clock': nat -> u64)
      returns (ending: Ending)
      requires Valid()
      modifies this
      ensures Valid() && Model() == AfterTick(old(Model()), now, resubmitted, clock, submitted, clock')
      ensures ending == TickEnding(old(Model()), now, resubmitted, clock, submitted)
    {
      ending := ResubmitListedTxOuts(QUOTE_REFRESH_INTERVAL, now, resubmitted, clock);
      if !ending.Panicked? {
        ending := SubmitPendingTxOuts(submitted, clock');
      }
    }

    /** One turn of the bot's loop. */
    method Handle(command: Command) returns (ending: Ending)
      requires Valid()
      modifies this
      ensures Valid() && Model() == After(trade, old(Model()), command)
      ensures ending == CommandEnding(trade, old(Model()), command)
    {
      match command {
        case BlockProcessed(received, spent, resp, clock) => ending := HandleBlock(received, spent, resp, clock);
        case Tick(now, resubmitted, clock, submitted, clock') =>
          ending := HandleTick(now, resubmitted, clock, submitted, clock');
      }
    }
  }

  lemma QueueEnds(trade: Trade, pending: seq<PendingTxOut>, listed: seq<ListedTxOut>, received: seq<MatchedTxOut>,
                  i: nat)
    requires i <= |received| && !Queue(trade, pending, listed, received, i).ok
    ensures Queue(trade, pending, listed, received, |received|) == Queue(trade, pending, listed, received, i)
  {
    for n := i to |received|
      invariant Queue(trade, pending, listed, received, n) == Queue(trade, pending, listed, received, i)
    {
    }
  }

  /** Taking out the output of one more spent key image, found at `idx`, is filtering for one more. */
  lemma UnlistOne(pending: seq<PendingTxOut>, all: seq<ListedTxOut>, listed: seq<ListedTxOut>,
                  spent: seq<MatchedTxOut>, i: nat, idx: nat)
    requires i < |spent| && Distinct(pending, listed) && listed == Filter(all, NotSpent(spent[..i]))
    requires idx <= |listed| && (idx < |listed| ==> listed[idx].Key() == spent[i].keyImage)
    requires forall j :: 0 <= j < idx ==> listed[j].Key() != spent[i].keyImage
    ensures var rest := if idx < |listed| then listed[..idx] + listed[idx + 1..] else listed;
            && rest == Filter(all, NotSpent(spent[..i + 1])) && Distinct(pending, rest)
            && (idx < |listed| ==> multiset(listed) == multiset(rest) + multiset{listed[idx]})
  {
    var rest := if idx < |listed| then listed[..idx] + listed[idx + 1..] else listed;
    var k := spent[i].keyImage;
    WithoutKey(listed, idx, k);
    FilterTwice(all, spent, i);
    FilterDistinct(listed, OtherKey(k));
    FilterElements(listed, OtherKey(k));
    if idx < |listed| { TakeOut(listed, idx); }
  }

  lemma TakeOut(listed: seq<ListedTxOut>, idx: nat)
    requires idx < |listed|
    ensures multiset(listed) == multiset(listed[..idx] + listed[idx + 1..]) + multiset{listed[idx]}
  {
    assert listed == listed[..idx] + [listed[idx]] + listed[idx + 1..];
  }

  function OtherKey(k: KeyImage): ListedTxOut -> bool {
    (l: ListedTxOut) => l.Key() != k
  }

  lemma {:induction false} FilterTwice(all: seq<ListedTxOut>, spent: seq<MatchedTxOut>, i: nat)
    requires i < |spent|
    ensures Filter(all, NotSpent(spent[..i + 1]))
         == Filter(Filter(all, NotSpent(spent[..i])), OtherKey(spent[i].keyImage))
  {
    if all != [] {
      FilterTwice(all[..|all| - 1], spent, i);
      HasKeyOneMore(spent, i, all[|all| - 1].Key());
    }
  }

  lemma HasKeyOneMore(spent: seq<MatchedTxOut>, i: nat, k: KeyImage)
    requires i < |spent|
    ensures HasKey(spent[..i + 1], k) <==> HasKey(spent[..i], k) || spent[i].keyImage == k
  {
    assert spent[..i + 1][i] == spent[i];
    if j :| 0 <= j < i && spent[..i][j].keyImage == k { assert spent[..i + 1][j].keyImage == k; }
  }

  /** Without the one entry that has the key image, or as it is if there is none, a list is the entries with others. */
  lemma WithoutKey(listed: seq<ListedTxOut>, idx: nat, k: KeyImage)
    requires ListDistinct(listed) && idx <= |listed| && (idx < |listed| ==> listed[idx].Key() == k)
    requires forall j :: 0 <= j < idx ==> listed[j].Key() != k
    ensures Filter(listed, OtherKey(k)) == if idx < |listed| then listed[..idx] + listed[idx + 1..] else listed
  {
    if idx == |listed| {
      FilterAll(listed, OtherKey(k));
    } else {
      OthersAround(listed, idx);
      FilterWithout(listed[..idx], listed[idx], listed[idx + 1..], OtherKey(k));
      assert listed == listed[..idx] + [listed[idx]] + listed[idx + 1..];
    }
  }

  lemma OthersAround(listed: seq<ListedTxOut>, idx: nat)
    requires ListDistinct(listed) && idx < |listed|
    ensures forall l :: l in listed[..idx] || l in listed[idx + 1..] ==> l.Key() != listed[idx].Key()
  {
  }

  lemma NothingSpent(listed: seq<ListedTxOut>)
    ensures Filter(listed, NotSpent([])) == listed
  {
    FilterAll(listed, NotSpent([]));
  }

  /**
   * Any run of the bot from its start, until the channel closes or an assertion fails: the lists are
   * those of `Play`, about whose runs `BotSpec` speaks.
   */
  method Run(commands: seq<Command>, trade: Trade)
    returns (pending: seq<PendingTxOut>, listed: seq<ListedTxOut>, halted: bool)
    ensures var end := Play(trade, commands);
            pending == end.bot.pending && listed == end.bot.listed && halted == end.halted
    ensures Distinct(pending, listed)
  {
    var task := new LiquidityBotTask(trade);
    halted := false;
    for i := 0 to |commands|
      invariant fresh(task) && task.Valid() && task.trade == trade
      invariant Play(trade, commands[..i]) == Stage(task.Model(), halted)
    {
      assert commands[..i + 1][..i] == commands[..i];
      if !halted {
        var ending := task.Handle(commands[i]);
        halted := ending.Panicked?;
      }
    }
    assert commands[..|commands|] == commands;
    return task.pending, task.listed, halted;
  }
}
