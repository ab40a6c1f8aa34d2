/**
 * Signed contingent inputs and the quotes made from them: construction, the price of a partial
 * fill, and the order in which a book lists quotes.
 */
module Quotes {
  import opened Basics

  /** Compared for equality only. */
  type KeyImage = nat

  /** Compared for equality only. */
  type TxOut = nat

  /**
   * The 32 bytes of a quote id read as one big-endian number, so that the byte-wise order of ids
   * is the numeric one (`Encoding.BytesKeepOrder`).
   */
  type QuoteId = n: nat | n < 0x1_0000000000000000_0000000000000000_0000000000000000_0000000000000000

  const MAX_QUOTE_ID: QuoteId := 0xFFFFFFFFFFFFFFFF_FFFFFFFFFFFFFFFF_FFFFFFFFFFFFFFFF_FFFFFFFFFFFFFFFF

  datatype Amount = Amount(value: u64, tokenId: u64)

  /**
   * The rules a fulfiller must meet. A required output is given by its declared amount (validation
   * makes the two lists one length); a partial fill output by what `reveal_amount` finds, `None`
   * standing for its error. A zero `maxTombstoneBlock` means the input never expires.
   */
  datatype InputRules = InputRules(
    requiredOutputs: seq<Amount>,
    partialFillOutputs: seq<Option<Amount>>,
    minPartialFillValue: u64,
    maxTombstoneBlock: u64)

  /**
   * A signed contingent input. `digest` is its 32-byte hash and `validation` the verdict of
   * `validate()`: both are functions of the signed bytes computed by code outside this model.
   */
  datatype Sci = Sci(
    pseudoOutput: Amount,
    inputRules: Option<InputRules>,
    keyImage: KeyImage,
    ring: seq<TxOut>,
    txOutGlobalIndices: seq<u64>,
    digest: QuoteId,
    validation: Option<nat>)

  datatype Pair = Pair(baseTokenId: u64, counterTokenId: u64)

  datatype Quote = Quote(
    sci: Sci,
    id: QuoteId,
    pair: Pair,
    minBase: u64,
    maxBase: u64,
    maxCounter: u64,
    timestamp: u64)
  {
    function KeyImage(): KeyImage { sci.keyImage }

    /** The tombstone block, 0 when there is none. */
    function Tombstone(): u64 {
      match sci.inputRules
      case Some(rules) => rules.maxTombstoneBlock
      case None => 0
    }

    /** Offers nothing for nothing: its rate is 0/0. */
    predicate Degenerate() { maxBase == 0 && maxCounter == 0 }

    predicate CanFill(baseTokens: nat) { minBase <= baseTokens <= maxBase }
  }

  datatype Unsupported =
    | MissingInputRules
    | NoOutputs
    | ChangeTokenMismatch
    | ChangeExceedsInput
    | OutputCounts
    | VolumeTooSmall

  datatype RingFault = MissingIndex | InvalidMember

  datatype Error =
    | SciInvalid(reason: nat)
    | UnsupportedSci(why: Unsupported)
    | QuoteAlreadyExists(existing: Quote)
    | QuoteNotFound
    | QuoteIsStale
    | InsufficientBaseTokens(requested: u64)
    | InvalidRing(fault: RingFault)
    | ImplementationSpecific
    | RevealedTxOut

  // ---------------------------------------------------------------------------------------------
  // Construction
  // ---------------------------------------------------------------------------------------------

  /** `Quote::new`, given the timestamp its caller supplied or read from the clock. */
  function QuoteNew(sci: Sci, timestamp: u64): Result<Quote, Error> {
    if sci.validation.Some? then Err(SciInvalid(sci.validation.value))
    else if sci.inputRules.None? then Err(UnsupportedSci(MissingInputRules))
    else
      var required := sci.inputRules.value.requiredOutputs;
      var partial := sci.inputRules.value.partialFillOutputs;
      var base := sci.pseudoOutput;
      if |required| == 0 && |partial| == 0 then Err(UnsupportedSci(NoOutputs))
      else if |required| == 1 && |partial| == 0 then
        Ok(Quote(sci, sci.digest, Pair(base.tokenId, required[0].tokenId),
                 base.value, base.value, required[0].value, timestamp))
      else if |required| <= 1 && |partial| == 1 then
        if partial[0].None? then Err(RevealedTxOut)
        else if |required| == 1 && required[0].tokenId != base.tokenId then
          Err(UnsupportedSci(ChangeTokenMismatch))
        else if |required| == 1 && base.value < required[0].value then
          Err(UnsupportedSci(ChangeExceedsInput))
        else
          var amount := partial[0].value;
          var change := if |required| == 1 then required[0].value else 0;
          Ok(Quote(sci, sci.digest, Pair(base.tokenId, amount.tokenId),
                   sci.inputRules.value.minPartialFillValue, base.value - change,
                   amount.value, timestamp))
      else Err(UnsupportedSci(OutputCounts))
  }

  /** The quote carries exactly the data its own SCI and timestamp determine. */
  ghost predicate Genuine(q: Quote) {
    QuoteNew(q.sci, q.timestamp) == Ok(q)
  }

  function Total(outputs: seq<Amount>): nat {
    if outputs == [] then 0 else outputs[0].value + Total(outputs[1..])
  }

  /**
   * The shapes a book takes: one required output, or one partial fill output with at most one
   * output of change, in the base token and covered by the input.
   */
  ghost predicate Supported(sci: Sci) {
    && sci.validation.None? && sci.inputRules.Some?
    && var rules := sci.inputRules.value;
       || (|rules.requiredOutputs| == 1 && rules.partialFillOutputs == [])
       || (&& |rules.partialFillOutputs| == 1 && rules.partialFillOutputs[0].Some?
           && |rules.requiredOutputs| <= 1 && Total(rules.requiredOutputs) <= sci.pseudoOutput.value
           && forall r :: r in rules.requiredOutputs ==> r.tokenId == sci.pseudoOutput.tokenId)
  }

  /** Exactly the supported SCIs make quotes. */
  lemma QuotesAreSupported(sci: Sci, timestamp: u64)
    ensures QuoteNew(sci, timestamp).Ok? <==> Supported(sci)
  {
    if sci.inputRules.Some? {
      var required := sci.inputRules.value.requiredOutputs;
      if |required| == 1 {
        assert required == [required[0]] && Total(required[1..]) == 0;
      }
    }
  }

  /** The amount of the one partial fill output cannot be revealed. */
  ghost predicate Unrevealed(sci: Sci) {
    && sci.inputRules.Some?
    && var rules := sci.inputRules.value;
       |rules.partialFillOutputs| == 1 && |rules.requiredOutputs| <= 1 && rules.partialFillOutputs[0].None?
  }

  /** An SCI that makes no quote is invalid, or cannot be revealed, or is of another shape, in this order. */
  lemma QuoteErrors(sci: Sci, timestamp: u64)
    requires QuoteNew(sci, timestamp).Err?
    ensures var e := QuoteNew(sci, timestamp).error;
            && (e.SciInvalid? <==> sci.validation.Some?)
            && (e.RevealedTxOut? <==> sci.validation.None? && Unrevealed(sci))
            && (e.UnsupportedSci? <==> sci.validation.None? && !Unrevealed(sci))
  {
  }

  /**
   * A quote accounts for its input: what it offers and what goes back as change is the whole of
   * it, and the counter tokens are those of the one output the fulfiller pays.
   */
  lemma QuoteAccountsForInput(q: Quote)
    requires Genuine(q)
    ensures var rules := q.sci.inputRules.value;
            && q.id == q.sci.digest && q.pair.baseTokenId == q.sci.pseudoOutput.tokenId
            && (if IsPartial(q) then
                  && rules.partialFillOutputs == [Some(Amount(q.maxCounter, q.pair.counterTokenId))]
                  && q.minBase == rules.minPartialFillValue
                  && q.maxBase + Total(rules.requiredOutputs) == q.sci.pseudoOutput.value
                else
                  && rules.requiredOutputs == [Amount(q.maxCounter, q.pair.counterTokenId)]
                  && q.minBase == q.maxBase == q.sci.pseudoOutput.value)
  {
    var required := q.sci.inputRules.value.requiredOutputs;
    if |required| == 1 { assert Total(required[1..]) == 0; }
  }

  predicate IsPartial(q: Quote) {
    q.sci.inputRules.Some? && |q.sci.inputRules.value.partialFillOutputs| == 1
  }

  /** The whole input is on offer: no part of it goes back to the signer as change. */
  predicate OffersAll(q: Quote) { q.maxBase == q.sci.pseudoOutput.value }

  // ---------------------------------------------------------------------------------------------
  // The price of a fill
  // ---------------------------------------------------------------------------------------------

  /** `Quote::counter_tokens_cost`, with its assertions and its division written out. */
  function CounterTokensCost(q: Quote, baseTokens: u64): Outcome<Result<u64, Error>> {
    if !q.CanFill(baseTokens) then Returns(Err(InsufficientBaseTokens(baseTokens)))
    else if q.sci.inputRules.None? then Returns(Err(UnsupportedSci(MissingInputRules)))
    else
      var rules := q.sci.inputRules.value;
      var required, partial := rules.requiredOutputs, rules.partialFillOutputs;
      var pseudo := q.sci.pseudoOutput.value;
      if |required| == 0 && |partial| == 0 then Returns(Err(UnsupportedSci(NoOutputs)))
      else if |required| == 1 && |partial| == 0 then
        if baseTokens != pseudo then Panics
        else Returns(Ok(required[0].value))
      else if |required| <= 1 && |partial| == 1 then
        if baseTokens < rules.minPartialFillValue then Panics
        else if |required| == 1 && pseudo <= required[0].value then Panics
        else
          var available := if |required| == 1 then pseudo - required[0].value else pseudo;
          if available < baseTokens then Panics
          else if partial[0].None? then Returns(Err(RevealedTxOut))
          else if pseudo == 0 then Panics
          else Returns(Ok(FlooredShare(partial[0].value.value, baseTokens, pseudo) % TWO_64))
      else Returns(Err(UnsupportedSci(OutputCounts)))
  }

  /** The base tokens in the signed input, including any part kept back as change. */
  function InputValue(q: Quote): nat { q.sci.pseudoOutput.value }

  /** The exact price of `t` out of `pseudo` base tokens, rounded down. */
  function FlooredShare(amount: nat, t: nat, pseudo: nat): (c: nat)
    requires 0 < pseudo
    ensures c * pseudo <= amount * t < (c + 1) * pseudo
  {
    amount * t / pseudo
  }

  lemma ShareAtMostAll(amount: nat, t: nat, pseudo: nat)
    requires 0 < pseudo && t <= pseudo
    ensures FlooredShare(amount, t, pseudo) <= amount
    ensures FlooredShare(amount, pseudo, pseudo) == amount
  {
    var c, all := FlooredShare(amount, t, pseudo), FlooredShare(amount, pseudo, pseudo);
    MulOrder(t, pseudo, amount);
    MulCancel(c, amount + 1, pseudo);
    MulCancel(all, amount + 1, pseudo);
    MulCancel(amount, all + 1, pseudo);
  }

  lemma MulCancel(x: nat, y: nat, k: nat)
    requires x * k < y * k
    ensures x < y
  {
    if y <= x { MulOrder(y, x, k); }
  }

  /**
   * On a quote made by `QuoteNew` the cost stops the program exactly when the quote is a partial
   * fill with nothing to offer and it is asked for that nothing.
   */
  lemma CostPanicsExactly(q: Quote, t: u64)
    requires Genuine(q)
    ensures CounterTokensCost(q, t).Panics? <==> IsPartial(q) && q.minBase <= t <= q.maxBase == 0
  {
  }

  /** It does stop: on an input of nothing, at the division, and on one that is all change, at an assertion. */
  lemma CostPanics()
    ensures exists q :: Genuine(q) && InputValue(q) == 0 && OffersAll(q) && CounterTokensCost(q, 0).Panics?
    ensures exists q :: Genuine(q) && 0 < InputValue(q) && !OffersAll(q) && CounterTokensCost(q, 0).Panics?
  {
    var nothing := Plain(Pair(1, 2), 0, 5, 1, 1, 0);
    assert Genuine(nothing) && CounterTokensCost(nothing, 0).Panics?;
    var rules := InputRules([Amount(10, 1)], [Some(Amount(5, 2))], 0, 0);
    var allChange := Quote(Sci(Amount(10, 1), Some(rules), 1, [], [], 1, None), 1, Pair(1, 2), 0, 0, 5, 0);
    assert Genuine(allChange) && CounterTokensCost(allChange, 0).Panics?;
  }

  /** The exact price of `t` base tokens rounded down, at the rate of a quote that offers something. */
  function Cost(q: Quote, t: nat): (c: nat)
    requires 0 < InputValue(q)
    ensures c * InputValue(q) <= q.maxCounter * t < (c + 1) * InputValue(q)
  {
    FlooredShare(q.maxCounter, t, InputValue(q))
  }

  /**
   * For a quote that offers something, the cost is defined on exactly the offered range, no
   * assertion fails, the cast to 64 bits loses nothing, and the answer is the exact price
   * rounded down.
   */
  lemma CostIsFlooredPrice(q: Quote, t: u64)
    requires Genuine(q) && 0 < q.maxBase
    ensures 0 < InputValue(q)
    ensures CounterTokensCost(q, t) == if q.minBase <= t <= q.maxBase then Returns(Ok(Cost(q, t)))
                                       else Returns(Err(InsufficientBaseTokens(t)))
  {
    CostUnfolds(q, t);
    if q.CanFill(t) { CostFits(q, t); }
  }

  lemma CostFits(q: Quote, t: u64)
    requires 0 < InputValue(q) && t <= InputValue(q)
    ensures Cost(q, t) % TWO_64 == Cost(q, t)
    ensures t == InputValue(q) ==> Cost(q, t) == q.maxCounter
  {
    ShareAtMostAll(q.maxCounter, t, InputValue(q));
  }

  lemma CostUnfolds(q: Quote, t: u64)
    requires Genuine(q) && 0 < q.maxBase
    ensures 0 < InputValue(q) && (q.CanFill(t) ==> t <= InputValue(q)) && (!IsPartial(q) ==> q.minBase == InputValue(q))
    ensures CounterTokensCost(q, t) == if !q.CanFill(t) then Returns(Err(InsufficientBaseTokens(t)))
                                       else if IsPartial(q) then Returns(Ok(Cost(q, t) % TWO_64))
                                       else Returns(Ok(q.maxCounter))
  {
  }

  /** Two fractions with the smaller one on the left have floors in the same order. */
  lemma FloorOrder(c: nat, n: nat, p: nat, c': nat, n': nat, p': nat)
    requires 0 < p && 0 < p'
    requires c * p <= n && n' < (c' + 1) * p'
    requires n * p' <= n' * p
    ensures c <= c'
  {
    if c' + 1 <= c {
      calc {
        (c' + 1) * p * p';
      <= { MulOrder(c' + 1, c, p * p'); }
        c * p * p';
      <= { MulOrder(c * p, n, p'); }
        n * p';
      <=
        n' * p;
      <  { MulStrict(n', (c' + 1) * p', p); }
        (c' + 1) * p' * p;
      }
      assert false;
    }
  }

  lemma MulOrder(x: nat, y: nat, k: nat)
    requires x <= y
    ensures x * k <= y * k
  {
  }

  lemma MulStrict(x: nat, y: nat, k: nat)
    requires x < y && 0 < k
    ensures x * k < y * k
  {
  }

  /** Taking more base tokens never costs fewer counter tokens. */
  lemma CostMonotone(q: Quote, t: nat, t': nat)
    requires 0 < InputValue(q) && t <= t'
    ensures Cost(q, t) <= Cost(q, t')
  {
    var p := InputValue(q);
    MulOrder(t, t', q.maxCounter);
    MulOrder(q.maxCounter * t, q.maxCounter * t', p);
    FloorOrder(Cost(q, t), q.maxCounter * t, p, Cost(q, t'), q.maxCounter * t', p);
  }

  /** Splitting a fill in two saves at most one counter token, and never costs more. */
  lemma CostSplit(q: Quote, a: nat, b: nat)
    requires 0 < InputValue(q)
    ensures Cost(q, a) + Cost(q, b) <= Cost(q, a + b) <= Cost(q, a) + Cost(q, b) + 1
  {
    var n := q.maxCounter;
    Distribute(n, a, b);
    SplitFloors(Cost(q, a), n * a, Cost(q, b), n * b, Cost(q, a + b), InputValue(q));
  }

  lemma Distribute(n: nat, a: nat, b: nat)
    ensures n * (a + b) == n * a + n * b
  {
  }

  lemma SplitFloors(x: nat, m: nat, y: nat, n: nat, z: nat, p: nat)
    requires x * p <= m < (x + 1) * p && y * p <= n < (y + 1) * p && z * p <= m + n < (z + 1) * p
    ensures x + y <= z <= x + y + 1
  {
    assert (x + y) * p == x * p + y * p;
    assert (x + y + 2) * p == (x + 1) * p + (y + 1) * p;
    MulCancel(x + y, z + 1, p);
    MulCancel(z, x + y + 2, p);
  }

  // ---------------------------------------------------------------------------------------------
  // The order of a book
  // ---------------------------------------------------------------------------------------------

  function ComparePairs(a: Pair, b: Pair): Ordering {
    CompareNat(a.baseTokenId, b.baseTokenId).Then(CompareNat(a.counterTokenId, b.counterTokenId))
  }

  /** The cross-multiplied rate of `self` against `other`: smaller is better for the fulfiller. */
  function Rate(self: Quote, other: Quote): nat {
    other.maxBase * self.maxCounter
  }

  /** Comparison of the keys pair, rate, timestamp, id. */
  function CompareKeys(p: Pair, p': Pair, rate: nat, rate': nat, t: nat, t': nat, id: nat, id': nat): Ordering {
    ComparePairs(p, p').Then(CompareNat(rate, rate')).Then(CompareNat(t, t')).Then(CompareNat(id, id'))
  }

  /** `Ord::cmp` of quotes. */
  function Compare(a: Quote, b: Quote): Ordering {
    CompareKeys(a.pair, b.pair, Rate(a, b), Rate(b, a), a.timestamp, b.timestamp, a.id, b.id)
  }

  predicate Before(a: Quote, b: Quote) { Compare(a, b).Less? }

  /** The price of one base token, for all of a quote. */
  ghost function UnitPrice(q: Quote): real
    requires 0 < q.maxBase
  {
    q.maxCounter as real / q.maxBase as real
  }

  /** Older first, and by id at the same time. */
  ghost predicate Older(a: Quote, b: Quote) {
    a.timestamp < b.timestamp || (a.timestamp == b.timestamp && a.id < b.id)
  }

  /** Quotes of one pair come by unit price, then by age; pairs by base token, then by counter token. */
  lemma OrderMeaning(a: Quote, b: Quote)
    requires 0 < a.maxBase && 0 < b.maxBase
    ensures a.pair == b.pair ==>
              (Before(a, b) <==> UnitPrice(a) < UnitPrice(b) || (UnitPrice(a) == UnitPrice(b) && Older(a, b)))
    ensures a.pair != b.pair ==>
              (Before(a, b) <==> || a.pair.baseTokenId < b.pair.baseTokenId
                                 || (&& a.pair.baseTokenId == b.pair.baseTokenId
                                     && a.pair.counterTokenId < b.pair.counterTokenId))
  {
    RatesAsPrices(a, b);
    RatesAsPrices(b, a);
  }

  lemma RatesAsPrices(a: Quote, b: Quote)
    requires 0 < a.maxBase && 0 < b.maxBase
    ensures UnitPrice(a) < UnitPrice(b) <==> Rate(a, b) < Rate(b, a)
  {
    RatiosCompare(a.maxCounter as real, a.maxBase as real, b.maxCounter as real, b.maxBase as real);
    ProductAsReal(b.maxBase, a.maxCounter);
    ProductAsReal(a.maxBase, b.maxCounter);
  }

  lemma ProductAsReal(x: nat, y: nat)
    ensures (x * y) as real == y as real * x as real
  {
  }

  lemma RatiosCompare(c: real, x: real, d: real, y: real)
    requires 0.0 < x && 0.0 < y
    ensures c / x < d / y <==> c * y < d * x
  {
    var p, q := c / x, d / y;
    RatioTimes(c, x);
    RatioTimes(d, y);
    assert c * y == p * (x * y) && d * x == q * (x * y) by {
      assert c * y == (p * x) * y && d * x == (q * y) * x;
    }
    ScaleOrder(p, q, x, y);
  }

  lemma RatioTimes(c: real, x: real)
    requires 0.0 < x
    ensures c / x * x == c
  {
  }

  lemma ScaleOrder(p: real, q: real, x: real, y: real)
    requires 0.0 < x && 0.0 < y
    ensures p < q <==> p * (x * y) < q * (x * y)
  {
    var k := x * y;
    assert 0.0 < k;
    assert q * k - p * k == (q - p) * k;
  }

  lemma RateFitsU128(a: Quote, b: Quote)
    ensures Rate(a, b) < TWO_128
  {
    MulOrder(b.maxBase, TWO_64 - 1, a.maxCounter);
    MulOrder(a.maxCounter, TWO_64 - 1, TWO_64 - 1);
  }

  /** Comparing the other way round gives the mirrored answer. */
  lemma CompareFlips(a: Quote, b: Quote)
    ensures Compare(b, a) == Compare(a, b).Flip()
  {
  }

  lemma RateTransitive(a: Quote, b: Quote, c: Quote)
    requires !b.Degenerate()
    requires Rate(a, b) <= Rate(b, a) && Rate(b, c) <= Rate(c, b)
    ensures Rate(a, c) <= Rate(c, a)
  {
    if b.maxBase == 0 {
      assert c.maxBase * b.maxCounter == 0;
      assert c.maxBase == 0 by { if c.maxBase > 0 { MulOrder(1, c.maxBase, b.maxCounter); } }
    } else {
      calc {
        Rate(a, c) * b.maxBase;
      ==
        (b.maxBase * a.maxCounter) * c.maxBase;
      <= { MulOrder(Rate(a, b), Rate(b, a), c.maxBase); }
        (a.maxBase * b.maxCounter) * c.maxBase;
      ==
        (c.maxBase * b.maxCounter) * a.maxBase;
      <= { MulOrder(Rate(b, c), Rate(c, b), a.maxBase); }
        (b.maxBase * c.maxCounter) * a.maxBase;
      ==
        Rate(c, a) * b.maxBase;
      }
      if Rate(c, a) < Rate(a, c) { MulStrict(Rate(c, a), Rate(a, c), b.maxBase); }
    }
  }

  /** Equal rates stay equal through a middle quote, and a strict step stays strict. */
  lemma RateStrict(a: Quote, b: Quote, c: Quote)
    requires !a.Degenerate() && !b.Degenerate() && !c.Degenerate()
    requires Rate(a, b) <= Rate(b, a) && Rate(b, c) <= Rate(c, b)
    requires Rate(a, c) == Rate(c, a)
    ensures Rate(a, b) == Rate(b, a) && Rate(b, c) == Rate(c, b)
  {
    RateTransitive(c, a, b);
    RateTransitive(b, c, a);
  }

  /** The order is transitive on quotes that have a rate, also when one side of it is zero. */
  lemma CompareTransitive(a: Quote, b: Quote, c: Quote)
    requires !a.Degenerate() && !b.Degenerate() && !c.Degenerate()
    ensures Before(a, b) && Before(b, c) ==> Before(a, c)
    ensures Compare(a, b).Equal? && Compare(b, c).Equal? ==> Compare(a, c).Equal?
  {
    if Rate(a, b) <= Rate(b, a) && Rate(b, c) <= Rate(c, b) {
      RateTransitive(a, b, c);
      if Rate(a, c) == Rate(c, a) { RateStrict(a, b, c); }
      if Rate(a, b) == Rate(b, a) && Rate(b, c) == Rate(c, b) { RateTransitive(c, b, a); }
    }
    KeysTransitive(a.pair, b.pair, c.pair, Rate(a, b), Rate(b, a), Rate(b, c), Rate(c, b), Rate(a, c), Rate(c, a),
                   a.timestamp, b.timestamp, c.timestamp, a.id, b.id, c.id);
  }

  lemma KeysTransitive(p: Pair, p': Pair, p'': Pair, ab: nat, ba: nat, bc: nat, cb: nat, ac: nat, ca: nat,
                       t: nat, t': nat, t'': nat, i: nat, i': nat, i'': nat)
    requires ab <= ba && bc <= cb ==> ac <= ca
    requires ab <= ba && bc <= cb && ac == ca ==> ab == ba && bc == cb
    requires ab == ba && bc == cb ==> ac == ca
    ensures var x, y, z := CompareKeys(p, p', ab, ba, t, t', i, i'), CompareKeys(p', p'', bc, cb, t', t'', i', i''),
                           CompareKeys(p, p'', ac, ca, t, t'', i, i'');
            (x.Less? && y.Less? ==> z.Less?) && (x.Equal? && y.Equal? ==> z.Equal?)
  {
  }

  /** Equal in the order only with the same pair, timestamp and id; for genuine quotes, the same quote. */
  lemma CompareEqual(a: Quote, b: Quote)
    requires Compare(a, b).Equal?
    ensures a.pair == b.pair && a.timestamp == b.timestamp && a.id == b.id
    ensures Genuine(a) && Genuine(b) && (a.sci.digest == b.sci.digest ==> a.sci == b.sci) ==> a == b
  {
  }

  /** Three quotes with ids and inputs of their own, each before the next in a circle. */
  ghost predicate CycleThrough(z: Quote, a: Quote, b: Quote) {
    && a.id != z.id && b.id != z.id && a.id != b.id
    && a.KeyImage() != z.KeyImage() && b.KeyImage() != z.KeyImage() && a.KeyImage() != b.KeyImage()
    && Before(a, b) && Before(b, z) && Before(z, a)
  }

  /** A genuine quote without change, of the given pair, key image, id and timestamp. */
  function Plain(pair: Pair, base: u64, counter: u64, keyImage: KeyImage, id: QuoteId, timestamp: u64): (q: Quote)
    ensures Genuine(q) && OffersAll(q) && q.pair == pair && q.maxBase == base && q.maxCounter == counter
    ensures q.minBase == 0 && q.KeyImage() == keyImage && q.id == id && q.timestamp == timestamp
  {
    var rules := InputRules([], [Some(Amount(counter, pair.counterTokenId))], 0, 0);
    var sci := Sci(Amount(base, pair.baseTokenId), Some(rules), keyImage, [], [], id, None);
    Quote(sci, id, pair, 0, base, counter, timestamp)
  }

  /** Neither the first nor the last of all quotes by timestamp and id. */
  predicate InTheMiddle(z: Quote) {
    && (0 < z.timestamp || 0 < z.id)
    && (z.timestamp < TWO_64 - 1 || z.id < MAX_QUOTE_ID)
  }

  /**
   * Where transitivity ends: a quote lies on a cycle with two genuine quotes that have a rate
   * exactly when it is degenerate and neither first nor last of all by timestamp and id.
   */
  lemma DegenerateQuotesCycle(z: Quote)
    ensures (exists a: Quote, b: Quote ::
               Genuine(a) && Genuine(b) && !a.Degenerate() && !b.Degenerate() && CycleThrough(z, a, b))
       <==> z.Degenerate() && InTheMiddle(z)
  {
    if z.Degenerate() && InTheMiddle(z) { CycleExists(z); }
    forall a: Quote, b: Quote | !a.Degenerate() && !b.Degenerate() && CycleThrough(z, a, b)
      ensures z.Degenerate() && InTheMiddle(z)
    {
      CompareFlips(a, z);
      if !z.Degenerate() { CompareTransitive(a, b, z); }
      assert a.pair == b.pair == z.pair;
    }
  }

  lemma CycleExists(z: Quote)
    requires z.Degenerate() && InTheMiddle(z)
    ensures exists a: Quote, b: Quote ::
              Genuine(a) && Genuine(b) && !a.Degenerate() && !b.Degenerate() && CycleThrough(z, a, b)
  {
    var k := z.KeyImage();
    var a := if z.id < MAX_QUOTE_ID then Plain(z.pair, 2, 1, k + 1, z.id + 1, z.timestamp)
             else Plain(z.pair, 2, 1, k + 1, 0, z.timestamp + 1);
    var b := if 0 < z.id then Plain(z.pair, 1, 1, k + 2, z.id - 1, z.timestamp)
             else Plain(z.pair, 1, 1, k + 2, 2, z.timestamp - 1);
    assert CycleThrough(z, a, b);
  }

  /** At `t` base tokens the exact price of `a`, before rounding, is no higher than that of `b`. */
  ghost predicate NoDearerAt(a: Quote, b: Quote, t: nat) {
    a.maxCounter * t * InputValue(b) <= b.maxCounter * t * InputValue(a)
  }

  /** The same comparison without the amount. */
  predicate NoDearer(a: Quote, b: Quote) {
    a.maxCounter * InputValue(b) <= b.maxCounter * InputValue(a)
  }

  /** Exact prices compare the same way at every positive amount. */
  lemma PriceComparisonIsUniform(a: Quote, b: Quote, t: nat)
    requires 0 < t
    ensures NoDearerAt(a, b, t) <==> NoDearer(a, b)
  {
    var x, y := a.maxCounter * InputValue(b), b.maxCounter * InputValue(a);
    assert a.maxCounter * t * InputValue(b) == x * t;
    assert b.maxCounter * t * InputValue(a) == y * t;
    if x <= y { MulOrder(x, y, t); } else { MulStrict(y, x, t); }
  }

  /** A quote that is no dearer in exact terms never charges more after rounding. */
  lemma NoDearerCostsNoMore(a: Quote, b: Quote, t: nat)
    requires 0 < InputValue(a) && 0 < InputValue(b) && NoDearer(a, b)
    ensures Cost(a, t) <= Cost(b, t)
  {
    if 0 < t { PriceComparisonIsUniform(a, b, t); }
    FloorOrder(Cost(a, t), a.maxCounter * t, InputValue(a), Cost(b, t), b.maxCounter * t, InputValue(b));
  }

  /** Both quotes can fill the amount, and the first asks more for it than the second. */
  ghost predicate Overcharges(a: Quote, b: Quote, t: u64) {
    exists x: u64, y: u64 ::
      CounterTokensCost(a, t) == Returns(Ok(x)) && CounterTokensCost(b, t) == Returns(Ok(y)) && y < x
  }

  /**
   * Cheapest first: a quote listed before one that offers its whole input asks no more than that
   * one for any amount that both can fill.
   */
  lemma CheapestFirst(a: Quote, b: Quote, t: u64)
    requires Genuine(a) && Genuine(b) && 0 < a.maxBase && 0 < b.maxBase
    requires OffersAll(b)
    requires a.pair == b.pair && Before(a, b)
    ensures !Overcharges(a, b, t)
  {
    CostIsFlooredPrice(a, t);
    CostIsFlooredPrice(b, t);
    QuoteAccountsForInput(a);
    MulOrder(a.maxBase, InputValue(a), b.maxCounter);
    NoDearerCostsNoMore(a, b, t);
  }

  /**
   * With change the order ranks a quote by what is left after the change, not by its price: here
   * the quote listed second is the cheaper one.
   */
  lemma ChangeBreaksCheapestFirst()
    ensures exists a: Quote, b: Quote, t: u64 ::
              && Genuine(a) && Genuine(b) && 0 < a.maxBase && 0 < b.maxBase
              && a.pair == b.pair && Before(a, b) && Overcharges(a, b, t)
  {
    var offer := Amount(10, 1);
    var a := Quote(
      Sci(offer, Some(InputRules([], [Some(Amount(15, 2))], 0, 0)), 1, [], [], 1, None),
      1, Pair(1, 2), 0, 10, 15, 0);
    var b := Quote(
      Sci(offer, Some(InputRules([Amount(5, 1)], [Some(Amount(10, 2))], 0, 0)), 2, [], [], 2, None),
      2, Pair(1, 2), 0, 5, 10, 0);
    assert CounterTokensCost(a, 4) == Returns(Ok(6));
    assert CounterTokensCost(b, 4) == Returns(Ok(4));
    assert Overcharges(a, b, 4);
  }

  /** Listed before `b`, and dearer at `t`. */
  ghost predicate Misranks(a: Quote, b: Quote, t: u64) {
    Genuine(a) && 0 < a.maxBase && a.pair == b.pair && Before(a, b) && Overcharges(a, b, t)
  }

  /**
   * Exactly the quotes with change, that can fill something and ask something for it, can come
   * after a dearer quote.
   */
  lemma ChangeMisranks(b: Quote)
    requires Genuine(b) && 0 < b.maxBase && (0 < b.timestamp || 0 < b.id)
    ensures (exists a: Quote, t: u64 :: Misranks(a, b, t))
       <==> !OffersAll(b) && b.minBase <= b.maxBase && 0 < b.maxCounter
  {
    if !OffersAll(b) && b.minBase <= b.maxBase && 0 < b.maxCounter {
      MisrankedTwin(b);
      assert Misranks(Twin(b), b, b.maxBase);
    }
    forall a: Quote, t: u64 | Misranks(a, b, t) ensures !OffersAll(b) && b.minBase <= b.maxBase && 0 < b.maxCounter {
      if OffersAll(b) { CheapestFirst(a, b, t); }
      CostIsFlooredPrice(b, t);
      if b.maxCounter == 0 { FreeIsFirst(a, b, t); }
    }
  }

  /** Before a quote that asks nothing come only quotes that ask nothing. */
  lemma FreeIsFirst(a: Quote, b: Quote, t: u64)
    requires Genuine(a) && 0 < a.maxBase && 0 < b.maxBase && b.maxCounter == 0 && a.pair == b.pair && Before(a, b)
    ensures !Overcharges(a, b, t)
  {
    assert a.maxCounter == 0 by { if 0 < a.maxCounter { MulOrder(1, b.maxBase, a.maxCounter); } }
    CostIsFlooredPrice(a, t);
    if a.CanFill(t) {
      CostUnfolds(a, t);
      ShareAtMostAll(0, t, InputValue(a));
    }
  }

  /** A quote with the limits of `b`, without change, a moment older or just before it by id. */
  function Twin(b: Quote): (a: Quote)
    requires 0 < b.timestamp || 0 < b.id
    ensures Genuine(a) && OffersAll(a) && a.pair == b.pair && a.maxBase == b.maxBase && a.maxCounter == b.maxCounter
    ensures a.minBase == 0 && Before(a, b)
  {
    if 0 < b.id then Plain(b.pair, b.maxBase, b.maxCounter, b.KeyImage() + 1, b.id - 1, b.timestamp)
    else Plain(b.pair, b.maxBase, b.maxCounter, b.KeyImage() + 1, b.id, b.timestamp - 1)
  }

  lemma MisrankedTwin(b: Quote)
    requires Genuine(b) && 0 < b.maxBase && 0 < b.maxCounter && b.minBase <= b.maxBase && (0 < b.timestamp || 0 < b.id)
    requires !OffersAll(b)
    ensures Misranks(Twin(b), b, b.maxBase)
  {
    var a, t := Twin(b), b.maxBase;
    CostIsFlooredPrice(a, t);
    CostIsFlooredPrice(b, t);
    CostUnfolds(b, t);
    ShareAtMostAll(a.maxCounter, t, t);
    MulStrict(t, InputValue(b), b.maxCounter);
    MulCancel(Cost(b, t), b.maxCounter, InputValue(b));
    ShareAtMostAll(b.maxCounter, t, InputValue(b));
    assert CounterTokensCost(a, t) == Returns(Ok(b.maxCounter)) && CounterTokensCost(b, t) == Returns(Ok(Cost(b, t)));
  }
}
