/**
 * The liquidity bot as a function of what it is told, and what every run of it keeps: no key image
 * is tracked twice, and every output ever queued is accounted for.
 */
module BotSpec {
  import opened Basics
  import opened Sequences
  import opened Quotes
  import opened LedgerScanner
  import opened LiquidityBot
  import opened BotResponses

  /**
   * What the bot trades: base token to counter token and the counter tokens asked per base token,
   * and the SCI builder, which makes an SCI offering the output for an amount of a token, or fails.
   */
  datatype Trade = Trade(pairs: map<u64, (u64, real)>, build: (MatchedTxOut, u64, u64) -> Option<Sci>) {
    predicate Trades(m: MatchedTxOut) { m.amount.tokenId in pairs }

    /** The output with an SCI that offers all of it at the rate, if it can be made. */
    function Offer(m: MatchedTxOut): Option<PendingTxOut> {
      if !Trades(m) then None
      else
        var (token, rate) := pairs[m.amount.tokenId];
        var counter := CounterAmount(m.amount.value, rate);
        if counter.None? then None
        else
          var sci := build(m, counter.value, token);
          if sci.None? then None else Some(PendingTxOut(m, sci.value))
    }
  }

  /** The builder makes an SCI that offers all of the output for a partial fill of the given amount. */
  ghost predicate BuildsOffers(trade: Trade) {
    forall m, counter: u64, token: u64 :: trade.build(m, counter, token).Some? ==>
      IsBotSci(trade.build(m, counter, token).value, m.amount, counter, token)
  }

  /** `c` is the number `x` rounded up. */
  ghost predicate RoundedUp(x: real, c: u64) {
    x <= c as real < x + 1.0
  }

  /**
   * No offer is made if and only if the output's token has no counter token, or its price there,
   * rounded up, is not a u64, or the builder has no SCI that asks that price in the counter token.
   */
  lemma OfferNoneExactly(trade: Trade, m: MatchedTxOut)
    ensures trade.Offer(m).None?
       <==> || m.amount.tokenId !in trade.pairs
            || var (token, rate) := trade.pairs[m.amount.tokenId];
               !(exists c: u64 :: RoundedUp(m.amount.value as real * rate, c) && trade.build(m, c, token).Some?)
  {
    if m.amount.tokenId in trade.pairs {
      var (token, rate) := trade.pairs[m.amount.tokenId];
      var x := m.amount.value as real * rate;
      CeilBounds(x);
      forall c: u64 | RoundedUp(x, c) ensures c == Ceil(x) {}
    }
  }

  /**
   * What is queued offers the output itself, all of it, for the counter token of its token, priced
   * fairly: a quote of its SCI charges any part within one token of the bot's rate.
   */
  lemma OfferIsFair(trade: Trade, m: MatchedTxOut, timestamp: u64, t: u64)
    requires BuildsOffers(trade) && trade.Offer(m).Some? && 0 < m.amount.value && t <= m.amount.value
    ensures m.amount.tokenId in trade.pairs && trade.Offer(m).value.matched == m
    ensures var ((token, rate), made) := (trade.pairs[m.amount.tokenId], QuoteNew(trade.Offer(m).value.sci, timestamp));
            && made.Ok? && made.value.pair == Pair(m.amount.tokenId, token)
            && made.value.maxBase == m.amount.value && OffersAll(made.value)
            && CounterTokensCost(made.value, t).Returns? && CounterTokensCost(made.value, t).value.Ok?
            && var cost := CounterTokensCost(made.value, t).value.value as real;
               && rate * t as real - 1.0 < cost < rate * t as real + 1.0
               && (t == m.amount.value ==> rate * t as real <= cost)
  {
    var (token, rate) := trade.pairs[m.amount.tokenId];
    BotPriceIsFair(trade.Offer(m).value.sci, m.amount, rate, token, timestamp, t);
  }

  /** What became of outputs, over the life of the bot: all ever queued, and those no longer tracked. */
  datatype Fate = Fate(
    queued: seq<MatchedTxOut>,
    spent: seq<MatchedTxOut>,
    rejected: seq<MatchedTxOut>,
    lost: seq<MatchedTxOut>)

  datatype Bot = Bot(pending: seq<PendingTxOut>, listed: seq<ListedTxOut>, fate: Fate)

  const NEW_BOT: Bot := Bot([], [], Fate([], [], [], []))

  // ---------------------------------------------------------------------------------------------
  // The bot's methods as functions
  // ---------------------------------------------------------------------------------------------

  predicate HasKey(spent: seq<MatchedTxOut>, k: KeyImage) {
    exists i :: 0 <= i < |spent| && spent[i].keyImage == k
  }

  function IsSpent(spent: seq<MatchedTxOut>): ListedTxOut -> bool {
    (l: ListedTxOut) => HasKey(spent, l.Key())
  }

  function NotSpent(spent: seq<MatchedTxOut>): ListedTxOut -> bool {
    (l: ListedTxOut) => !HasKey(spent, l.Key())
  }

  function AfterUnlist(bot: Bot, spent: seq<MatchedTxOut>): Bot {
    bot.(listed := Filter(bot.listed, NotSpent(spent)),
         fate := bot.fate.(spent := bot.fate.spent + ListedOuts(Filter(bot.listed, IsSpent(spent)))))
  }

  predicate Tracks(pending: seq<PendingTxOut>, listed: seq<ListedTxOut>, k: KeyImage) {
    (exists i :: 0 <= i < |pending| && pending[i].Key() == k) || (exists i :: 0 <= i < |listed| && listed[i].Key() == k)
  }

  /** The queue after an update, and whether it went through. */
  datatype Queueing = Queueing(pending: seq<PendingTxOut>, ok: bool)

  function QueueOne(trade: Trade, pending: seq<PendingTxOut>, listed: seq<ListedTxOut>, m: MatchedTxOut): Queueing {
    if !trade.Trades(m) || Tracks(pending, listed, m.keyImage) then Queueing(pending, true)
    else
      var offer := trade.Offer(m);
      if offer.None? then Queueing(pending, false) else Queueing(pending + [offer.value], true)
  }

  /** Queues the first `n` received outputs that are traded and not tracked; an offer that cannot be made ends it. */
  function Queue(trade: Trade, pending: seq<PendingTxOut>, listed: seq<ListedTxOut>, received: seq<MatchedTxOut>,
                 n: nat): (q: Queueing)
    requires n <= |received|
    ensures pending <= q.pending
  {
    if n == 0 then Queueing(pending, true)
    else
      var q := Queue(trade, pending, listed, received, n - 1);
      if q.ok then QueueOne(trade, q.pending, listed, received[n - 1]) else q
  }

  function AfterQueue(trade: Trade, bot: Bot, received: seq<MatchedTxOut>): Bot {
    var q := Queue(trade, bot.pending, bot.listed, received, |received|).pending;
    bot.(pending := q, fate := bot.fate.(queued := bot.fate.queued + PendingOuts(q[|bot.pending|..])))
  }

  /** The submission reaches the loop over a response. */
  predicate Heard(resp: Option<SubmitQuotesResponse>, n: nat) {
    0 < n && resp.Some? && Aligned(resp.value, n)
  }

  function AfterSubmit(bot: Bot, resp: Option<SubmitQuotesResponse>, clock: nat -> u64): Bot {
    if !Heard(resp, |bot.pending|) then bot
    else
      var k := Stop(resp.value, PendingScis(bot.pending));
      Bot([], bot.listed + NewlyListed(bot.pending, resp.value, clock, k),
          bot.fate.(rejected := bot.fate.rejected + PendingOuts(Rejected(bot.pending, resp.value, k)),
                    lost := bot.fate.lost + PendingOuts(bot.pending[k..])))
  }

  function SubmitEnding(bot: Bot, resp: Option<SubmitQuotesResponse>): Ending {
    if bot.pending == [] then Done
    else if !Heard(resp, |bot.pending|) then Failed
    else EndingAt(resp.value, PendingScis(bot.pending), Stop(resp.value, PendingScis(bot.pending)))
  }

  /** Due for another submission: last submitted longer ago than the limit, a clock that went back counting as now. */
  predicate Due(l: ListedTxOut, now: u64, olderThan: nat) {
    (if l.lastSubmittedAt <= now then now - l.lastSubmittedAt else 0) > olderThan
  }

  function DueAt(now: u64, olderThan: nat): ListedTxOut -> bool {
    (l: ListedTxOut) => Due(l, now, olderThan)
  }

  function NotDueAt(now: u64, olderThan: nat): ListedTxOut -> bool {
    (l: ListedTxOut) => !Due(l, now, olderThan)
  }

  /** Without a response what is due stays listed; a response that is not aligned loses all of it. */
  function AfterResubmit(bot: Bot, olderThan: nat, now: u64, resp: Option<SubmitQuotesResponse>, clock: nat -> u64): Bot
  {
    var due, kept := Filter(bot.listed, DueAt(now, olderThan)), Filter(bot.listed, NotDueAt(now, olderThan));
    if due == [] then bot.(listed := kept)
    else if resp.None? then bot.(listed := kept + due)
    else if !Aligned(resp.value, |due|) then
      bot.(listed := kept, fate := bot.fate.(lost := bot.fate.lost + ListedOuts(due)))
    else
      var k := Stop(resp.value, ListedScis(due));
      bot.(listed := kept + StillListed(due, resp.value, clock, k),
           fate := bot.fate.(rejected := bot.fate.rejected + ListedOuts(Unlisted(due, resp.value, k)),
                             lost := bot.fate.lost + ListedOuts(due[k..])))
  }

  function ResubmitEnding(bot: Bot, olderThan: nat, now: u64, resp: Option<SubmitQuotesResponse>): Ending {
    var due := Filter(bot.listed, DueAt(now, olderThan));
    if due == [] then Done
    else if !Heard(resp, |due|) then Failed
    else EndingAt(resp.value, ListedScis(due), Stop(resp.value, ListedScis(due)))
  }

  /** What the bot is told: a block was processed, or it is time to refresh the listings. */
  datatype Command =
    | BlockProcessed(
        received: seq<MatchedTxOut>, spent: seq<MatchedTxOut>,
        resp: Option<SubmitQuotesResponse>, clock: nat -> u64)
    | Tick(
        now: u64, resubmitted: Option<SubmitQuotesResponse>, clock: nat -> u64,
        submitted: Option<SubmitQuotesResponse>, clock': nat -> u64)

  /** Ten minutes; the bot's times are in milliseconds. */
  const QUOTE_REFRESH_INTERVAL: nat := 600_000

  /** Whether the block's outputs are submitted: the update went through and queued something. */
  predicate Grows(trade: Trade, bot: Bot, received: seq<MatchedTxOut>) {
    var q := Queue(trade, bot.pending, bot.listed, received, |received|);
    q.ok && q.pending != bot.pending
  }

  function AfterBlock(trade: Trade, bot: Bot, received: seq<MatchedTxOut>, spent: seq<MatchedTxOut>,
                      resp: Option<SubmitQuotesResponse>, clock: nat -> u64): Bot
  {
    var unlisted := AfterUnlist(bot, spent);
    var queued := AfterQueue(trade, unlisted, received);
    if Grows(trade, unlisted, received) then AfterSubmit(queued, resp, clock) else queued
  }

  function BlockEnding(trade: Trade, bot: Bot, received: seq<MatchedTxOut>, spent: seq<MatchedTxOut>,
                       resp: Option<SubmitQuotesResponse>): Ending
  {
    var unlisted := AfterUnlist(bot, spent);
    if Grows(trade, unlisted, received) then SubmitEnding(AfterQueue(trade, unlisted, received), resp) else Done
  }

  function AfterTick(bot: Bot, now: u64, resubmitted: Option<SubmitQuotesResponse>, clock: nat -> u64,
                     submitted: Option<SubmitQuotesResponse>, clock': nat -> u64): Bot
  {
    var refreshed := AfterResubmit(bot, QUOTE_REFRESH_INTERVAL, now, resubmitted, clock);
    if ResubmitEnding(bot, QUOTE_REFRESH_INTERVAL, now, resubmitted).Panicked? then refreshed
    else AfterSubmit(refreshed, submitted, clock')
  }

  function TickEnding(bot: Bot, now: u64, resubmitted: Option<SubmitQuotesResponse>, clock: nat -> u64,
                      submitted: Option<SubmitQuotesResponse>): Ending
  {
    var refreshed := AfterResubmit(bot, QUOTE_REFRESH_INTERVAL, now, resubmitted, clock);
    if ResubmitEnding(bot, QUOTE_REFRESH_INTERVAL, now, resubmitted).Panicked? then Panicked
    else SubmitEnding(refreshed, submitted)
  }

  function After(trade: Trade, bot: Bot, command: Command): Bot {
    match command
    case BlockProcessed(received, spent, resp, clock) => AfterBlock(trade, bot, received, spent, resp, clock)
    case Tick(now, resubmitted, clock, submitted, clock') => AfterTick(bot, now, resubmitted, clock, submitted, clock')
  }

  function CommandEnding(trade: Trade, bot: Bot, command: Command): Ending {
    match command
    case BlockProcessed(received, spent, resp, _) => BlockEnding(trade, bot, received, spent, resp)
    case Tick(now, resubmitted, clock, submitted, _) => TickEnding(bot, now, resubmitted, clock, submitted)
  }

  /** The bot after a run, and whether an assertion has failed, after which nothing happens. */
  datatype Stage = Stage(bot: Bot, halted: bool)

  function Play(trade: Trade, commands: seq<Command>): Stage {
    if commands == [] then Stage(NEW_BOT, false)
    else
      var before, command := Play(trade, commands[..|commands| - 1]), commands[|commands| - 1];
      if before.halted then before
      else Stage(After(trade, before.bot, command), CommandEnding(trade, before.bot, command).Panicked?)
  }

  // ---------------------------------------------------------------------------------------------
  // No key image twice
  // ---------------------------------------------------------------------------------------------

  /** No key image occurs twice, within a list or across the two. */
  ghost predicate Distinct(pending: seq<PendingTxOut>, listed: seq<ListedTxOut>) {
    && (forall i, j :: 0 <= i < j < |pending| ==> pending[i].Key() != pending[j].Key())
    && ListDistinct(listed)
    && (forall p, l :: p in pending && l in listed ==> p.Key() != l.Key())
  }

  ghost predicate ListDistinct(listed: seq<ListedTxOut>) {
    forall i, j :: 0 <= i < j < |listed| ==> listed[i].Key() != listed[j].Key()
  }

  /** The key images of one list do not occur in the other. */
  ghost predicate Apart(a: seq<ListedTxOut>, b: seq<ListedTxOut>) {
    forall x, y :: x in a && y in b ==> x.Key() != y.Key()
  }

  lemma ConcatDistinct(a: seq<ListedTxOut>, b: seq<ListedTxOut>)
    ensures ListDistinct(a + b) <==> ListDistinct(a) && ListDistinct(b) && Apart(a, b)
  {
    var c := a + b;
    if ListDistinct(c) {
      forall i, j | 0 <= i < j < |a| ensures a[i].Key() != a[j].Key() { assert c[i] == a[i] && c[j] == a[j]; }
      forall i, j | 0 <= i < j < |b|
        ensures b[i].Key() != b[j].Key()
      {
        assert c[|a| + i] == b[i] && c[|a| + j] == b[j];
      }
      forall x, y | x in a && y in b ensures x.Key() != y.Key() {
        var i :| 0 <= i < |a| && a[i] == x;
        var j :| 0 <= j < |b| && b[j] == y;
        assert c[i] == x && c[|a| + j] == y;
      }
    }
  }

  lemma {:induction false} FilterDistinct(s: seq<ListedTxOut>, p: ListedTxOut -> bool)
    requires ListDistinct(s)
    ensures ListDistinct(Filter(s, p))
  {
    if s != [] {
      var prefix, last := s[..|s| - 1], s[|s| - 1];
      FilterDistinct(prefix, p);
      FilterElements(prefix, p);
      assert forall l :: l in prefix ==> l.Key() != last.Key();
    }
  }

  lemma UnlistDistinct(bot: Bot, spent: seq<MatchedTxOut>)
    requires Distinct(bot.pending, bot.listed)
    ensures Distinct(bot.pending, AfterUnlist(bot, spent).listed)
  {
    FilterDistinct(bot.listed, NotSpent(spent));
    FilterElements(bot.listed, NotSpent(spent));
  }

  lemma TracksMember(pending: seq<PendingTxOut>, listed: seq<ListedTxOut>, k: KeyImage)
    requires !Tracks(pending, listed, k)
    ensures (forall p :: p in pending ==> p.Key() != k) && (forall l :: l in listed ==> l.Key() != k)
  {
  }

  lemma QueueOneDistinct(trade: Trade, pending: seq<PendingTxOut>, listed: seq<ListedTxOut>, m: MatchedTxOut)
    requires Distinct(pending, listed)
    ensures Distinct(QueueOne(trade, pending, listed, m).pending, listed)
  {
    if trade.Trades(m) && !Tracks(pending, listed, m.keyImage) { TracksMember(pending, listed, m.keyImage); }
  }

  lemma {:induction false} QueueDistinct(
    trade: Trade, pending: seq<PendingTxOut>, listed: seq<ListedTxOut>, received: seq<MatchedTxOut>, n: nat)
    requires n <= |received| && Distinct(pending, listed)
    ensures Distinct(Queue(trade, pending, listed, received, n).pending, listed)
  {
    if n != 0 {
      QueueDistinct(trade, pending, listed, received, n - 1);
      QueueOneDistinct(trade, Queue(trade, pending, listed, received, n - 1).pending, listed, received[n - 1]);
    }
  }

  /** Moving the first pending output to the listed ones keeps key images distinct. */
  lemma MoveOne(pending: seq<PendingTxOut>, listed: seq<ListedTxOut>, l: ListedTxOut)
    requires pending != [] && Distinct(pending, listed) && l.Key() == pending[0].Key()
    ensures Distinct(pending[1..], listed + [l])
  {
  }

  lemma DropOne(pending: seq<PendingTxOut>, listed: seq<ListedTxOut>)
    requires pending != [] && Distinct(pending, listed)
    ensures Distinct(pending[1..], listed)
  {
  }

  lemma {:induction false} SubmitDistinct(
    pending: seq<PendingTxOut>, listed: seq<ListedTxOut>, resp: SubmitQuotesResponse, clock: nat -> u64, n: nat)
    requires Aligned(resp, |pending|) && n <= |pending| && Distinct(pending, listed)
    ensures Distinct(pending[n..], listed + NewlyListed(pending, resp, clock, n))
  {
    if n == 0 {
      assert pending[0..] == pending && listed + [] == listed;
    } else {
      SubmitDistinct(pending, listed, resp, clock, n - 1);
      var rest, sofar := pending[n - 1..], listed + NewlyListed(pending, resp, clock, n - 1);
      assert rest[1..] == pending[n..];
      if Accepted(resp.statusCodes[n - 1]) && resp.quotes[n - 1].Some? {
        var l := ListedTxOut(pending[n - 1].matched, resp.quotes[n - 1].value, clock(n - 1));
        MoveOne(rest, sofar, l);
        assert sofar + [l] == listed + NewlyListed(pending, resp, clock, n);
      } else {
        DropOne(rest, sofar);
      }
    }
  }

  lemma NoPendingDistinct(pending: seq<PendingTxOut>, listed: seq<ListedTxOut>)
    requires Distinct(pending, listed)
    ensures Distinct([], listed)
  {
  }

  lemma AfterSubmitDistinct(bot: Bot, resp: Option<SubmitQuotesResponse>, clock: nat -> u64)
    requires Distinct(bot.pending, bot.listed)
    ensures Distinct(AfterSubmit(bot, resp, clock).pending, AfterSubmit(bot, resp, clock).listed)
  {
    if Heard(resp, |bot.pending|) {
      var k := Stop(resp.value, PendingScis(bot.pending));
      SubmitDistinct(bot.pending, bot.listed, resp.value, clock, k);
      NoPendingDistinct(bot.pending[k..], bot.listed + NewlyListed(bot.pending, resp.value, clock, k));
    }
  }

  /** Every entry of one list has the key image of an entry of the other. */
  ghost predicate KeysFrom(a: seq<ListedTxOut>, b: seq<ListedTxOut>) {
    forall x :: x in a ==> exists y :: y in b && y.Key() == x.Key()
  }

  lemma {:induction false} StillListedDistinct(listed: seq<ListedTxOut>, resp: SubmitQuotesResponse,
      clock: nat -> u64, n: nat)
    requires Aligned(resp, |listed|) && n <= |listed| && ListDistinct(listed)
    ensures ListDistinct(StillListed(listed, resp, clock, n))
    ensures KeysFrom(StillListed(listed, resp, clock, n), listed[..n])
  {
    if n != 0 {
      StillListedDistinct(listed, resp, clock, n - 1);
      var l, sofar := listed[n - 1], StillListed(listed, resp, clock, n - 1);
      assert listed[..n] == listed[..n - 1] + [l];
      forall x | x in sofar ensures x.Key() != l.Key() {
        var y :| y in listed[..n - 1] && y.Key() == x.Key();
      }
      assert l in listed[..n];
    }
  }

  lemma SplitApart(s: seq<ListedTxOut>, p: ListedTxOut -> bool, q: ListedTxOut -> bool)
    requires ListDistinct(s) && forall l :: !(p(l) && q(l))
    ensures Apart(Filter(s, p), Filter(s, q))
  {
    FilterElements(s, p);
    FilterElements(s, q);
    forall x, y | x in Filter(s, p) && y in Filter(s, q) ensures x.Key() != y.Key() {
      var i :| 0 <= i < |s| && s[i] == x;
      var j :| 0 <= j < |s| && s[j] == y;
      assert i != j;
    }
  }

  /** A part of the listed outputs followed by refreshed ones of the rest is as distinct as the whole. */
  lemma RefreshDistinct(pending: seq<PendingTxOut>, listed: seq<ListedTxOut>,
                        kept: seq<ListedTxOut>, due: seq<ListedTxOut>, refreshed: seq<ListedTxOut>)
    requires Distinct(pending, listed) && ListDistinct(kept) && ListDistinct(refreshed) && Apart(kept, due)
    requires (forall l :: l in kept ==> l in listed) && (forall l :: l in due ==> l in listed)
    requires KeysFrom(refreshed, due)
    ensures Distinct(pending, kept + refreshed)
  {
    forall x, y | x in kept && y in refreshed ensures x.Key() != y.Key() {
      var d :| d in due && d.Key() == y.Key();
    }
    ConcatDistinct(kept, refreshed);
    forall p, l | p in pending && l in kept + refreshed ensures p.Key() != l.Key() {
      if l in refreshed {
        var d :| d in due && d.Key() == l.Key();
      }
    }
  }

  lemma ResubmitDistinct(bot: Bot, olderThan: nat, now: u64, resp: Option<SubmitQuotesResponse>, clock: nat -> u64)
    requires Distinct(bot.pending, bot.listed)
    ensures Distinct(bot.pending, AfterResubmit(bot, olderThan, now, resp, clock).listed)
  {
    var isDue, isNot := DueAt(now, olderThan), NotDueAt(now, olderThan);
    var due, kept := Filter(bot.listed, isDue), Filter(bot.listed, isNot);
    FilterDistinct(bot.listed, isDue);
    FilterDistinct(bot.listed, isNot);
    FilterElements(bot.listed, isDue);
    FilterElements(bot.listed, isNot);
    SplitApart(bot.listed, isNot, isDue);
    RefreshDistinct(bot.pending, bot.listed, kept, due, []);
    assert kept + [] == kept;
    RefreshDistinct(bot.pending, bot.listed, kept, due, due);
    if Heard(resp, |due|) {
      var k := Stop(resp.value, ListedScis(due));
      StillListedDistinct(due, resp.value, clock, k);
      RefreshDistinct(bot.pending, bot.listed, kept, due, StillListed(due, resp.value, clock, k));
    }
  }

  lemma AfterDistinct(trade: Trade, bot: Bot, command: Command)
    requires Distinct(bot.pending, bot.listed)
    ensures Distinct(After(trade, bot, command).pending, After(trade, bot, command).listed)
  {
    match command
    case BlockProcessed(received, spent, resp, clock) =>
      UnlistDistinct(bot, spent);
      var unlisted := AfterUnlist(bot, spent);
      QueueDistinct(trade, unlisted.pending, unlisted.listed, received, |received|);
      AfterSubmitDistinct(AfterQueue(trade, unlisted, received), resp, clock);
    case Tick(now, resubmitted, clock, submitted, clock') =>
      ResubmitDistinct(bot, QUOTE_REFRESH_INTERVAL, now, resubmitted, clock);
      AfterSubmitDistinct(AfterResubmit(bot, QUOTE_REFRESH_INTERVAL, now, resubmitted, clock), submitted, clock');
  }

  /** In every run, whatever the responses, no key image is tracked twice. */
  lemma {:induction false} RunDistinct(trade: Trade, commands: seq<Command>)
    ensures Distinct(Play(trade, commands).bot.pending, Play(trade, commands).bot.listed)
  {
    if commands != [] {
      var n := |commands| - 1;
      RunDistinct(trade, commands[..n]);
      AfterDistinct(trade, Play(trade, commands[..n]).bot, commands[n]);
    }
  }

  // ---------------------------------------------------------------------------------------------
  // Every output accounted for
  // ---------------------------------------------------------------------------------------------

  /** An output is as often queued as it is pending, listed, spent while listed, rejected and lost together. */
  ghost predicate Balanced(bot: Bot, m: MatchedTxOut) {
    Times(bot.fate.queued, m) ==
      PendingCount(bot.pending, m) + ListedCount(bot.listed, m)
      + Times(bot.fate.spent, m) + Times(bot.fate.rejected, m) + Times(bot.fate.lost, m)
  }

  lemma {:induction false} SplitCount(s: seq<ListedTxOut>, p: ListedTxOut -> bool, q: ListedTxOut -> bool,
                                      m: MatchedTxOut)
    requires forall l :: p(l) != q(l)
    ensures ListedCount(s, m) == ListedCount(Filter(s, p), m) + ListedCount(Filter(s, q), m)
  {
    if s != [] {
      var prefix, last := s[..|s| - 1], s[|s| - 1];
      SplitCount(prefix, p, q, m);
      assert s == prefix + [last];
      ListedAppend(prefix, last, m);
      ListedAppend(Filter(prefix, p), last, m);
      ListedAppend(Filter(prefix, q), last, m);
    }
  }

  lemma UnlistBalanced(bot: Bot, spent: seq<MatchedTxOut>, m: MatchedTxOut)
    requires Balanced(bot, m)
    ensures Balanced(AfterUnlist(bot, spent), m)
  {
    SplitCount(bot.listed, IsSpent(spent), NotSpent(spent), m);
    TimesConcat(bot.fate.spent, ListedOuts(Filter(bot.listed, IsSpent(spent))), m);
  }

  lemma QueueBalanced(trade: Trade, bot: Bot, received: seq<MatchedTxOut>, m: MatchedTxOut)
    requires Balanced(bot, m)
    ensures Balanced(AfterQueue(trade, bot, received), m)
  {
    var q := Queue(trade, bot.pending, bot.listed, received, |received|).pending;
    assert q == bot.pending + q[|bot.pending|..];
    PendingConcat(bot.pending, q[|bot.pending|..], m);
    TimesConcat(bot.fate.queued, PendingOuts(q[|bot.pending|..]), m);
  }

  lemma SubmitBalanced(bot: Bot, resp: Option<SubmitQuotesResponse>, clock: nat -> u64, m: MatchedTxOut)
    requires Balanced(bot, m)
    ensures Balanced(AfterSubmit(bot, resp, clock), m)
  {
    if Heard(resp, |bot.pending|) {
      var k := Stop(resp.value, PendingScis(bot.pending));
      SubmittedOrLost(bot.pending, resp.value, clock, m);
      ListedConcat(bot.listed, NewlyListed(bot.pending, resp.value, clock, k), m);
      TimesConcat(bot.fate.rejected, PendingOuts(Rejected(bot.pending, resp.value, k)), m);
      TimesConcat(bot.fate.lost, PendingOuts(bot.pending[k..]), m);
      assert PendingCount([], m) == 0;
    }
  }

  lemma ResubmitBalanced(bot: Bot, olderThan: nat, now: u64, resp: Option<SubmitQuotesResponse>, clock: nat -> u64,
                         m: MatchedTxOut)
    requires Balanced(bot, m)
    ensures Balanced(AfterResubmit(bot, olderThan, now, resp, clock), m)
  {
    var due, kept := Filter(bot.listed, DueAt(now, olderThan)), Filter(bot.listed, NotDueAt(now, olderThan));
    SplitCount(bot.listed, DueAt(now, olderThan), NotDueAt(now, olderThan), m);
    if due == [] {
      assert ListedCount(due, m) == 0;
    } else if resp.None? {
      ListedConcat(kept, due, m);
    } else if !Aligned(resp.value, |due|) {
      TimesConcat(bot.fate.lost, ListedOuts(due), m);
    } else {
      var k := Stop(resp.value, ListedScis(due));
      ResubmittedOrLost(due, resp.value, clock, m);
      ListedConcat(kept, StillListed(due, resp.value, clock, k), m);
      TimesConcat(bot.fate.rejected, ListedOuts(Unlisted(due, resp.value, k)), m);
      TimesConcat(bot.fate.lost, ListedOuts(due[k..]), m);
    }
  }

  lemma AfterBalanced(trade: Trade, bot: Bot, command: Command, m: MatchedTxOut)
    requires Balanced(bot, m)
    ensures Balanced(After(trade, bot, command), m)
  {
    match command
    case BlockProcessed(received, spent, resp, clock) =>
      UnlistBalanced(bot, spent, m);
      QueueBalanced(trade, AfterUnlist(bot, spent), received, m);
      SubmitBalanced(AfterQueue(trade, AfterUnlist(bot, spent), received), resp, clock, m);
    case Tick(now, resubmitted, clock, submitted, clock') =>
      ResubmitBalanced(bot, QUOTE_REFRESH_INTERVAL, now, resubmitted, clock, m);
      SubmitBalanced(AfterResubmit(bot, QUOTE_REFRESH_INTERVAL, now, resubmitted, clock), submitted, clock', m);
  }

  /**
   * In every run, whatever the responses: an output is as often queued as it is at the end pending
   * or listed, or was spent while listed, or was rejected by a response, or was lost.
   */
  lemma {:induction false} RunBalanced(trade: Trade, commands: seq<Command>, m: MatchedTxOut)
    ensures Balanced(Play(trade, commands).bot, m)
  {
    if commands != [] {
      var n := |commands| - 1;
      RunBalanced(trade, commands[..n], m);
      AfterBalanced(trade, Play(trade, commands[..n]).bot, commands[n], m);
    }
  }

  // ---------------------------------------------------------------------------------------------
  // What the accounts mean
  // ---------------------------------------------------------------------------------------------

  /** One of the first `n` received outputs is traded and has the key image. */
  predicate Brought(trade: Trade, received: seq<MatchedTxOut>,
    n: nat, k: KeyImage)
    requires n <= |received|
  {
    exists j :: 0 <= j < n && trade.Trades(received[j]) && received[j].keyImage == k
  }

  lemma TracksAppend(pending: seq<PendingTxOut>, p: PendingTxOut, listed: seq<ListedTxOut>, k: KeyImage)
    ensures Tracks(pending + [p], listed, k) <==> Tracks(pending, listed, k) || p.Key() == k
  {
    var longer := pending + [p];
    assert longer[|pending|] == p;
    if i :| 0 <= i < |pending| && pending[i].Key() == k { assert longer[i].Key() == k; }
  }

  /** An update that went through tracks what was tracked before and what was received in a traded token. */
  lemma {:induction false} QueueTracks(
    trade: Trade, pending: seq<PendingTxOut>, listed: seq<ListedTxOut>, received: seq<MatchedTxOut>,
    n: nat, k: KeyImage)
    requires n <= |received| && Queue(trade, pending, listed, received, n).ok
    ensures Tracks(Queue(trade, pending, listed, received, n).pending, listed, k)
       <==> Tracks(pending, listed, k) || Brought(trade, received, n, k)
  {
    if n != 0 {
      QueueTracks(trade, pending, listed, received, n - 1, k);
      var before, m := Queue(trade, pending, listed, received, n - 1).pending, received[n - 1];
      if trade.Trades(m) && !Tracks(before, listed, m.keyImage) {
        TracksAppend(before, trade.Offer(m).value, listed, k);
      }
      assert Brought(trade, received, n, k)
        <==> Brought(trade, received, n - 1, k) || (trade.Trades(m) && m.keyImage == k);
    }
  }

  /** The `i`-th output is traded, new to the bot and to this update, and cannot be offered. */
  predicate Unbuildable(trade: Trade, pending: seq<PendingTxOut>, listed: seq<ListedTxOut>,
                        received: seq<MatchedTxOut>, i: nat)
    requires i < |received|
  {
    var m := received[i];
    && trade.Trades(m) && trade.Offer(m).None?
    && !Tracks(pending, listed, m.keyImage) && !Brought(trade, received, i, m.keyImage)
  }

  lemma {:induction false} QueueStaysFailed(
    trade: Trade, pending: seq<PendingTxOut>, listed: seq<ListedTxOut>, received: seq<MatchedTxOut>, i: nat, n: nat)
    requires i <= n <= |received| && !Queue(trade, pending, listed, received, i).ok
    ensures !Queue(trade, pending, listed, received, n).ok
    decreases n
  {
    if i < n { QueueStaysFailed(trade, pending, listed, received, i, n - 1); }
  }

  /** The update fails if and only if an output of a traded token that is not tracked cannot be offered. */
  lemma QueueFailsExactly(
    trade: Trade, pending: seq<PendingTxOut>, listed: seq<ListedTxOut>, received: seq<MatchedTxOut>)
    ensures !Queue(trade, pending, listed, received, |received|).ok
       <==> exists i: nat :: i < |received| && Unbuildable(trade, pending, listed, received, i)
  {
    forall i: nat | i < |received| && Unbuildable(trade, pending, listed, received, i)
      ensures !Queue(trade, pending, listed, received, |received|).ok
    {
      if Queue(trade, pending, listed, received, i).ok {
        QueueTracks(trade, pending, listed, received, i, received[i].keyImage);
        QueueStaysFailed(trade, pending, listed, received, i + 1, |received|);
      } else {
        QueueStaysFailed(trade, pending, listed, received, i, |received|);
      }
    }
    if !Queue(trade, pending, listed, received, |received|).ok {
      FirstUnbuildable(trade, pending, listed, received, |received|);
    }
  }

  lemma {:induction false} FirstUnbuildable(
    trade: Trade, pending: seq<PendingTxOut>, listed: seq<ListedTxOut>, received: seq<MatchedTxOut>, n: nat)
    requires n <= |received| && !Queue(trade, pending, listed, received, n).ok
    ensures exists i: nat :: i < |received| && Unbuildable(trade, pending, listed, received, i)
  {
    if Queue(trade, pending, listed, received, n - 1).ok {
      QueueTracks(trade, pending, listed, received, n - 1, received[n - 1].keyImage);
      assert Unbuildable(trade, pending, listed, received, n - 1);
    } else {
      FirstUnbuildable(trade, pending, listed, received, n - 1);
    }
  }

  /** What is tracked was queued. */
  lemma TrackedWasQueued(bot: Bot, k: KeyImage)
    requires Tracks(bot.pending, bot.listed, k) && forall m :: Balanced(bot, m)
    ensures HasKey(bot.fate.queued, k)
  {
    if i :| 0 <= i < |bot.pending| && bot.pending[i].Key() == k {
      OutWasQueued(bot, bot.pending[i].matched);
    } else {
      var i :| 0 <= i < |bot.listed| && bot.listed[i].Key() == k;
      OutWasQueued(bot, bot.listed[i].matched);
    }
  }

  lemma OutWasQueued(bot: Bot, m: MatchedTxOut)
    requires Balanced(bot, m) && (m in PendingOuts(bot.pending) || m in ListedOuts(bot.listed))
    ensures m in bot.fate.queued && HasKey(bot.fate.queued, m.keyImage)
  {
    TimesPositive(PendingOuts(bot.pending), m);
    TimesPositive(ListedOuts(bot.listed), m);
    TimesPositive(bot.fate.queued, m);
    var i :| 0 <= i < |bot.fate.queued| && bot.fate.queued[i] == m;
  }

  lemma QueuedGrows(trade: Trade, bot: Bot, command: Command)
    ensures bot.fate.queued <= After(trade, bot, command).fate.queued
  {
  }

  lemma QueuedNext(trade: Trade, commands: seq<Command>, j: nat, k: KeyImage)
    requires j < |commands| && HasKey(Play(trade, commands[..j]).bot.fate.queued, k)
    ensures HasKey(Play(trade, commands[..j + 1]).bot.fate.queued, k)
  {
    assert commands[..j + 1][..j] == commands[..j];
    QueuedGrows(trade, Play(trade, commands[..j]).bot, commands[j]);
  }

  lemma QueuedStays(trade: Trade, commands: seq<Command>, i: nat, k: KeyImage)
    requires i <= |commands| && HasKey(Play(trade, commands[..i]).bot.fate.queued, k)
    ensures HasKey(Play(trade, commands).bot.fate.queued, k)
  {
    for j := i to |commands|
      invariant HasKey(Play(trade, commands[..j]).bot.fate.queued, k)
    {
      QueuedNext(trade, commands, j, k);
    }
    assert commands[..|commands|] == commands;
  }

  /** The update of a block that comes after a run goes through. */
  predicate UpdateSucceeds(trade: Trade, before: Stage, command: Command) {
    && !before.halted && command.BlockProcessed?
    && var unlisted := AfterUnlist(before.bot, command.spent);
       Queue(trade, unlisted.pending, unlisted.listed, command.received, |command.received|).ok
  }

  lemma BlockQueues(trade: Trade, before: Stage, command: Command, k: KeyImage)
    requires UpdateSucceeds(trade, before, command) && Brought(trade, command.received, |command.received|, k)
    requires forall m :: Balanced(before.bot, m)
    ensures HasKey(After(trade, before.bot, command).fate.queued, k)
  {
    var unlisted := AfterUnlist(before.bot, command.spent);
    var queued := AfterQueue(trade, unlisted, command.received);
    QueueTracks(trade, unlisted.pending, unlisted.listed, command.received, |command.received|, k);
    forall m | true ensures Balanced(queued, m) {
      UnlistBalanced(before.bot, command.spent, m);
      QueueBalanced(trade, unlisted, command.received, m);
    }
    TrackedWasQueued(queued, k);
  }

  /**
   * In every run, an output received in a traded token, by a block whose update went through, has
   * been queued by then, under its key image; `RunBalanced` tells what became of it.
   */
  lemma ReceivedIsQueued(trade: Trade, commands: seq<Command>, i: nat, k: KeyImage)
    requires i < |commands| && UpdateSucceeds(trade, Play(trade, commands[..i]), commands[i])
    requires Brought(trade, commands[i].received, |commands[i].received|, k)
    ensures HasKey(Play(trade, commands).bot.fate.queued, k)
  {
    forall m | true ensures Balanced(Play(trade, commands[..i]).bot, m) { RunBalanced(trade, commands[..i], m); }
    BlockQueues(trade, Play(trade, commands[..i]), commands[i], k);
    assert commands[..i + 1][..i] == commands[..i];
    QueuedStays(trade, commands, i + 1, k);
  }

  /** The output came in with one of the commands, in a token the bot trades. */
  ghost predicate CameIn(commands: seq<Command>, trade: Trade, m: MatchedTxOut) {
    trade.Trades(m) && exists i :: 0 <= i < |commands| && commands[i].BlockProcessed? && m in commands[i].received
  }

  lemma {:induction false} QueueAdds(
    trade: Trade, pending: seq<PendingTxOut>, listed: seq<ListedTxOut>, received: seq<MatchedTxOut>, n: nat, i: nat)
    requires n <= |received| && |pending| <= i < |Queue(trade, pending, listed, received, n).pending|
    ensures var p := Queue(trade, pending, listed, received, n).pending[i];
            p.matched in received && trade.Trades(p.matched) && trade.Offer(p.matched) == Some(p)
  {
    var before := Queue(trade, pending, listed, received, n - 1).pending;
    if i < |before| { QueueAdds(trade, pending, listed, received, n - 1, i); }
  }

  lemma AfterQueuedCameIn(trade: Trade, bot: Bot, command: Command, m: MatchedTxOut)
    requires m in After(trade, bot, command).fate.queued && m !in bot.fate.queued
    ensures command.BlockProcessed? && m in command.received && trade.Trades(m)
  {
    if command.BlockProcessed? {
      var unlisted := AfterUnlist(bot, command.spent);
      var received := command.received;
      var q := Queue(trade, unlisted.pending, unlisted.listed, received, |received|).pending;
      var added := q[|unlisted.pending|..];
      assert m in PendingOuts(added);
      var i :| 0 <= i < |added| && added[i].matched == m;
      QueueAdds(trade, unlisted.pending, unlisted.listed, received, |received|, |unlisted.pending| + i);
    }
  }

  /** In every run, what was queued was received in a token the bot trades. */
  lemma {:induction false} QueuedWasReceived(trade: Trade, commands: seq<Command>, m: MatchedTxOut)
    requires m in Play(trade, commands).bot.fate.queued
    ensures CameIn(commands, trade, m)
  {
    var n := |commands| - 1;
    var before := Play(trade, commands[..n]);
    if m in before.bot.fate.queued {
      QueuedWasReceived(trade, commands[..n], m);
      var i :| 0 <= i < n && commands[..n][i].BlockProcessed? && m in commands[..n][i].received;
      assert commands[i] == commands[..n][i];
    } else {
      AfterQueuedCameIn(trade, before.bot, commands[n], m);
    }
  }

  /** An honest response to a submission loses outputs if and only if it is aligned but not well formed. */
  lemma SubmitLoses(bot: Bot, resp: Option<SubmitQuotesResponse>, clock: nat -> u64)
    requires resp.Some? ==> Honest(resp.value, PendingScis(bot.pending))
    ensures AfterSubmit(bot, resp, clock).fate.lost == bot.fate.lost
       <==> !Heard(resp, |bot.pending|) || WellFormed(resp.value, |bot.pending|)
  {
    if Heard(resp, |bot.pending|) { HonestEnding(resp.value, PendingScis(bot.pending)); }
  }

  /** An honest response to a refresh loses outputs if and only if something was due and it is not well formed. */
  lemma ResubmitLoses(bot: Bot, olderThan: nat, now: u64, resp: Option<SubmitQuotesResponse>, clock: nat -> u64)
    requires resp.Some? ==> Honest(resp.value, ListedScis(Filter(bot.listed, DueAt(now, olderThan))))
    ensures var due := Filter(bot.listed, DueAt(now, olderThan));
            (AfterResubmit(bot, olderThan, now, resp, clock).fate.lost == bot.fate.lost) ==
              (due == [] || resp.None? || WellFormed(resp.value, |due|))
  {
    var due := Filter(bot.listed, DueAt(now, olderThan));
    if Heard(resp, |due|) { HonestEnding(resp.value, ListedScis(due)); }
  }

  // ---------------------------------------------------------------------------------------------
  // What the methods do, entry by entry
  // ---------------------------------------------------------------------------------------------

  /** A listed output stays if and only if no spent output has its key image. */
  lemma UnlistExactly(bot: Bot, spent: seq<MatchedTxOut>, l: ListedTxOut)
    ensures l in AfterUnlist(bot, spent).listed
       <==> l in bot.listed && forall m :: m in spent ==> m.keyImage != l.matched.keyImage
  {
    FilterElements(bot.listed, NotSpent(spent));
    if i :| 0 <= i < |spent| && spent[i].keyImage == l.Key() { assert spent[i] in spent; }
  }

  /** An output is due once more than the limit has passed since its last submission. */
  lemma DueExactly(l: ListedTxOut, now: u64, olderThan: nat)
    ensures Due(l, now, olderThan) <==> l.lastSubmittedAt + olderThan < now
  {
  }

  /**
   * Submitting: an entry the loop gets to that is created or known already leaves its output listed
   * with the quote of the entry and the time; with any other status nothing with its key image is
   * listed. The queue is empty.
   */
  lemma SubmitEntry(bot: Bot, resp: SubmitQuotesResponse, clock: nat -> u64, i: nat)
    requires Distinct(bot.pending, bot.listed) && i < |bot.pending| && Aligned(resp, |bot.pending|)
    requires forall j: nat :: j <= i ==> Passes(resp, PendingScis(bot.pending), j)
    ensures var after, p, code := AfterSubmit(bot, Some(resp), clock), bot.pending[i], resp.statusCodes[i];
            && after.pending == []
            && (if code.Created? || code.AlreadyExists? then
                  resp.quotes[i].Some? && ListedTxOut(p.matched, resp.quotes[i].value, clock(i)) in after.listed
                else forall l :: l in after.listed ==> l.Key() != p.Key())
  {
    var scis := PendingScis(bot.pending);
    var k, p, code := Stop(resp, scis), bot.pending[i], resp.statusCodes[i];
    StopMeaning(resp, scis, i);
    assert Passes(resp, scis, i);
    if code.Created? || code.AlreadyExists? {
      var l := ListedTxOut(p.matched, resp.quotes[i].value, clock(i));
      assert ListedBy(bot.pending, resp, clock, i, l);
      NewlyListedExactly(bot.pending, resp, clock, k, l);
    } else {
      forall l | l in AfterSubmit(bot, Some(resp), clock).listed ensures l.Key() != p.Key() {
        if l in bot.listed {
          assert p in bot.pending;
        } else {
          NewlyListedExactly(bot.pending, resp, clock, k, l);
          var j: nat :| j < k && ListedBy(bot.pending, resp, clock, j, l);
          assert j != i;
        }
      }
    }
  }

  /** Refreshing: the same for an output that is due. */
  lemma ResubmitEntry(bot: Bot, olderThan: nat, now: u64, resp: SubmitQuotesResponse, clock: nat -> u64, i: nat)
    requires Distinct(bot.pending, bot.listed)
    requires var due := Filter(bot.listed, DueAt(now, olderThan));
             && i < |due| && Aligned(resp, |due|)
             && forall j: nat :: j <= i ==> Passes(resp, ListedScis(due), j)
    ensures var due := Filter(bot.listed, DueAt(now, olderThan));
            var after, code := AfterResubmit(bot, olderThan, now, Some(resp), clock), resp.statusCodes[i];
            if code.Created? || code.AlreadyExists? then
              resp.quotes[i].Some? && ListedTxOut(due[i].matched, resp.quotes[i].value, clock(i)) in after.listed
            else forall l :: l in after.listed ==> l.Key() != due[i].Key()
  {
    var due, kept := Filter(bot.listed, DueAt(now, olderThan)), Filter(bot.listed, NotDueAt(now, olderThan));
    var scis := ListedScis(due);
    var k, code := Stop(resp, scis), resp.statusCodes[i];
    StopMeaning(resp, scis, i);
    assert Passes(resp, scis, i) && due[i] in due;
    if code.Created? || code.AlreadyExists? {
      var l := ListedTxOut(due[i].matched, resp.quotes[i].value, clock(i));
      assert RefreshedBy(due, resp, clock, i, l);
      StillListedExactly(due, resp, clock, k, l);
    } else {
      SplitApart(bot.listed, NotDueAt(now, olderThan), DueAt(now, olderThan));
      FilterDistinct(bot.listed, DueAt(now, olderThan));
      forall l | l in AfterResubmit(bot, olderThan, now, Some(resp), clock).listed ensures l.Key() != due[i].Key() {
        if l !in kept {
          StillListedExactly(due, resp, clock, k, l);
          var j: nat :| j < k && RefreshedBy(due, resp, clock, j, l);
          assert j != i;
        }
      }
    }
  }

  /** What is not due stays as it is, whatever the response. */
  lemma FreshStays(bot: Bot, olderThan: nat, now: u64, resp: Option<SubmitQuotesResponse>, clock: nat -> u64,
                   l: ListedTxOut)
    requires l in bot.listed && now <= l.lastSubmittedAt + olderThan
    ensures l in AfterResubmit(bot, olderThan, now, resp, clock).listed
  {
    DueExactly(l, now, olderThan);
    FilterElements(bot.listed, NotDueAt(now, olderThan));
  }

  /** The `i`-th output is of a traded token and not tracked. */
  ghost predicate IsNew(trade: Trade, bot: Bot, received: seq<MatchedTxOut>, i: nat) {
    && i < |received| && received[i].amount.tokenId in trade.pairs
    && !Tracks(bot.pending, bot.listed, received[i].keyImage)
  }

  /** An update that goes through changes the queue if and only if something new came in. */
  lemma QueueGrowsExactly(trade: Trade, bot: Bot, received: seq<MatchedTxOut>)
    requires Queue(trade, bot.pending, bot.listed, received, |received|).ok
    ensures Grows(trade, bot, received) <==> exists i: nat :: IsNew(trade, bot, received, i)
  {
    var q := Queue(trade, bot.pending, bot.listed, received, |received|).pending;
    forall i: nat | IsNew(trade, bot, received, i) ensures q != bot.pending {
      QueueTracks(trade, bot.pending, bot.listed, received, |received|, received[i].keyImage);
    }
    if q != bot.pending {
      var k := q[|bot.pending|].Key();
      QueueAdds(trade, bot.pending, bot.listed, received, |received|, |bot.pending|);
      QueueKeysNew(trade, bot.pending, bot.listed, received, |received|, |bot.pending|);
      var m := q[|bot.pending|].matched;
      var i :| 0 <= i < |received| && received[i] == m;
      assert IsNew(trade, bot, received, i);
    }
  }

  /** What an update adds was not tracked before. */
  lemma {:induction false} QueueKeysNew(
    trade: Trade, pending: seq<PendingTxOut>, listed: seq<ListedTxOut>, received: seq<MatchedTxOut>, n: nat, i: nat)
    requires n <= |received| && |pending| <= i < |Queue(trade, pending, listed, received, n).pending|
    ensures !Tracks(pending, listed, Queue(trade, pending, listed, received, n).pending[i].Key())
  {
    var before := Queue(trade, pending, listed, received, n - 1).pending;
    if i < |before| {
      QueueKeysNew(trade, pending, listed, received, n - 1, i);
    } else {
      TracksPrefix(pending, before, listed, received[n - 1].keyImage);
    }
  }

  lemma TracksPrefix(pending: seq<PendingTxOut>, longer: seq<PendingTxOut>, listed: seq<ListedTxOut>, k: KeyImage)
    requires pending <= longer
    ensures Tracks(pending, listed, k) ==> Tracks(longer, listed, k)
  {
    if i :| 0 <= i < |pending| && pending[i].Key() == k { assert longer[i].Key() == k; }
  }

  /**
   * A processed block: if everything that came in can be offered and something is new, the queue is
   * submitted and, once answered, empty; if nothing is new or something cannot be offered, nothing
   * is submitted and the listed outputs are those not spent.
   */
  lemma BlockMeaning(trade: Trade, bot: Bot, received: seq<MatchedTxOut>, spent: seq<MatchedTxOut>,
                     resp: Option<SubmitQuotesResponse>, clock: nat -> u64)
    ensures var unlisted, after := AfterUnlist(bot, spent), AfterBlock(trade, bot, received, spent, resp, clock);
            var fails := exists i: nat ::
              i < |received| && Unbuildable(trade, unlisted.pending, unlisted.listed, received, i);
            if !fails && (exists i: nat :: IsNew(trade, unlisted, received, i)) then
              resp.Some? && Aligned(resp.value, |AfterQueue(trade, unlisted, received).pending|) ==> after.pending == []
            else bot.pending <= after.pending && after.listed == unlisted.listed
  {
    var unlisted := AfterUnlist(bot, spent);
    QueueFailsExactly(trade, unlisted.pending, unlisted.listed, received);
    var q := Queue(trade, unlisted.pending, unlisted.listed, received, |received|);
    if q.ok { QueueGrowsExactly(trade, unlisted, received); }
  }

  /** The timer: an answered submission leaves the queue empty, and what was submitted in the last ten minutes stays. */
  lemma TickMeaning(bot: Bot, now: u64, resubmitted: Option<SubmitQuotesResponse>, clock: nat -> u64,
                    submitted: Option<SubmitQuotesResponse>, clock': nat -> u64, l: ListedTxOut)
    ensures var after := AfterTick(bot, now, resubmitted, clock, submitted, clock');
            && (l in bot.listed && now <= l.lastSubmittedAt + 600_000 ==> l in after.listed)
            && (TickEnding(bot, now, resubmitted, clock, submitted).Panicked? || after.pending == []
                || submitted.None? || !Aligned(submitted.value, |bot.pending|))
  {
    if l in bot.listed && now <= l.lastSubmittedAt + 600_000 {
      FreshStays(bot, QUOTE_REFRESH_INTERVAL, now, resubmitted, clock, l);
    }
  }
}
