/**
 * What a quote book is, independently of how it is stored: a set of quotes, the effect of each
 * operation on that set, and the meaning of a quantity range.
 */
module BookSpec {
  import opened Basics
  import opened Sequences
  import opened Quotes

  /** One input may be offered only once per pair. */
  predicate Conflicts(a: Quote, b: Quote) {
    a.pair == b.pair && a.KeyImage() == b.KeyImage()
  }

  /** Invariant of every book: one quote per id in the whole book and per key image in each pair. */
  ghost predicate BookInv(book: set<Quote>) {
    && (forall q :: q in book ==> !q.Degenerate())
    && (forall q, r :: q in book && r in book && q.id == r.id ==> q == r)
    && (forall q, r :: q in book && r in book && Conflicts(q, r) ==> q == r)
  }

  /** The promise of the digest: an id that is already in the book belongs to the same input. */
  ghost predicate IdFits(q: Quote, book: set<Quote>) {
    forall r :: r in book && r.id == q.id ==> Conflicts(r, q)
  }

  /** The digest does not collide between the two quotes. */
  ghost predicate NoCollision(q: Quote, r: Quote) {
    q.sci.digest == r.sci.digest ==> q.sci == r.sci
  }

  lemma GenuineIdsFit(q: Quote, book: set<Quote>)
    requires Genuine(q)
    requires forall r :: r in book ==> Genuine(r) && NoCollision(q, r)
    ensures IdFits(q, book)
  {
  }

  /** A nonzero tombstone block that the ledger has reached. */
  predicate Expired(q: Quote, currentBlockIndex: nat) {
    q.Tombstone() != 0 && currentBlockIndex >= q.Tombstone()
  }

  function HasKeyImage(keyImage: KeyImage): Quote -> bool {
    (q: Quote) => q.KeyImage() == keyImage
  }

  function HasId(id: QuoteId): Quote -> bool {
    (q: Quote) => q.id == id
  }

  function ExpiredAt(currentBlockIndex: nat): Quote -> bool {
    (q: Quote) => Expired(q, currentBlockIndex)
  }

  // ---------------------------------------------------------------------------------------------
  // Effects of the operations
  // ---------------------------------------------------------------------------------------------

  ghost predicate AddEffect(before: set<Quote>, q: Quote, after: set<Quote>, reply: Result<(), Error>) {
    if exists r :: r in before && Conflicts(r, q) then
      && after == before
      && reply.Err?
      && reply.error.QuoteAlreadyExists?
      && reply.error.existing in before
      && Conflicts(reply.error.existing, q)
    else
      && after == before + {q}
      && reply == Ok(())
  }

  ghost predicate RemoveByIdEffect(before: set<Quote>, id: QuoteId, after: set<Quote>, reply: Result<Quote, Error>) {
    if exists r :: r in before && r.id == id then
      && reply.Ok?
      && reply.value in before
      && reply.value.id == id
      && after == before - {reply.value}
    else
      && reply == Err(QuoteNotFound)
      && after == before
  }

  /** `s` holds every quote of `book` that satisfies `p`, each once. */
  ghost predicate Lists(s: seq<Quote>, book: set<Quote>, p: Quote -> bool) {
    && NoDuplicates(s)
    && forall q :: q in s <==> q in book && p(q)
  }

  /** The quotes satisfying `p`, and no others, leave the book and are handed back once each. */
  ghost predicate PurgeEffect(before: set<Quote>, p: Quote -> bool, after: set<Quote>, removed: seq<Quote>) {
    && Lists(removed, before, p)
    && forall q :: q in after <==> q in before && !p(q)
  }

  /** The quote of the book with the id, if there is one. */
  ghost predicate Finds(book: set<Quote>, id: QuoteId, found: Option<Quote>) {
    if found.Some? then found.value in book && found.value.id == id
    else forall q :: q in book ==> q.id != id
  }

  /** The id of a quote of the book, of the pair if one is given. */
  ghost predicate HoldsId(book: set<Quote>, pair: Option<Pair>, id: QuoteId) {
    exists q :: q in book && q.id == id && (pair.None? || q.pair == pair.value)
  }

  lemma AddKeepsInv(before: set<Quote>, q: Quote, after: set<Quote>, reply: Result<(), Error>)
    requires BookInv(before) && !q.Degenerate() && IdFits(q, before)
    requires AddEffect(before, q, after, reply)
    ensures BookInv(after) && before <= after
    ensures exists r :: r in after && Conflicts(r, q)
  {
    if reply.Ok? {
      assert q in after && Conflicts(q, q);
    } else {
      assert reply.error.existing in after;
    }
  }

  /** The effect of an add leaves no freedom: neither in the book nor in the quote it reports. */
  lemma AddDetermined(before: set<Quote>, q: Quote,
                      after: set<Quote>, reply: Result<(), Error>,
                      after': set<Quote>, reply': Result<(), Error>)
    requires BookInv(before)
    requires AddEffect(before, q, after, reply) && AddEffect(before, q, after', reply')
    ensures after == after' && reply == reply'
  {
    if reply.Err? {
      assert Conflicts(reply.error.existing, reply'.error.existing);
    }
  }

  // ---------------------------------------------------------------------------------------------
  // Listings in price order
  // ---------------------------------------------------------------------------------------------

  ghost predicate Sorted(s: seq<Quote>) {
    forall i, j :: 0 <= i < j < |s| ==> Before(s[i], s[j])
  }

  /** `s` is the part of `book` that satisfies `p`, in price order. */
  ghost predicate SortedListing(s: seq<Quote>, book: set<Quote>, p: Quote -> bool) {
    && Sorted(s)
    && forall q :: q in s <==> q in book && p(q)
  }

  lemma BeforeIrreflexive(q: Quote)
    ensures !Before(q, q)
  {
  }

  lemma EmptyOrInhabited(s: seq<Quote>)
    ensures s == [] || exists q :: q in s
  {
    if s != [] { assert s[0] in s; }
  }

  /** A set of quotes has one listing in price order. */
  lemma {:induction false} SortedListingUnique(s: seq<Quote>, t: seq<Quote>)
    requires Sorted(s) && Sorted(t)
    requires forall q :: q in s <==> q in t
    ensures s == t
  {
    if s == [] {
      EmptyOrInhabited(t);
    } else {
      EmptyOrInhabited(s);
      assert s[0] in t && t[0] in s;
      if s[0] != t[0] {
        assert Before(s[0], t[0]) && Before(t[0], s[0]);
        CompareFlips(s[0], t[0]);
        assert false;
      }
      forall q | true ensures q in s[1..] <==> q in t[1..] {
        BeforeIrreflexive(s[0]);
        assert q in s[1..] ==> Before(s[0], q);
        assert q in t[1..] ==> Before(t[0], q);
        assert q in s <==> q == s[0] || q in s[1..];
        assert q in t <==> q == t[0] || q in t[1..];
      }
      SortedListingUnique(s[1..], t[1..]);
      assert s == [s[0]] + s[1..] && t == [t[0]] + t[1..];
    }
  }

  /** In a listing, no entry asks more than a later one that offers its whole input, at any amount. */
  lemma ListingIsCheapestFirst(s: seq<Quote>, i: nat, j: nat, t: u64)
    requires Sorted(s) && i < j < |s|
    requires forall q :: q in s ==> Genuine(q) && 0 < q.maxBase
    requires s[i].pair == s[j].pair && OffersAll(s[j])
    ensures !Overcharges(s[i], s[j], t)
  {
    assert s[i] in s && s[j] in s;
    CheapestFirst(s[i], s[j], t);
  }

  // ---------------------------------------------------------------------------------------------
  // Quantity ranges
  // ---------------------------------------------------------------------------------------------

  datatype Bound = Included(value: u64) | Excluded(value: u64) | Unbounded

  datatype Range = Range(start: Bound, end: Bound) {
    /** The amounts the range stands for. */
    predicate Contains(x: u64) {
      && (match start
          case Included(v) => v <= x
          case Excluded(v) => v < x
          case Unbounded => true)
      && (match end
          case Included(v) => x <= v
          case Excluded(v) => x < v
          case Unbounded => true)
    }

    function Low(): u64 {
      match start
      case Included(v) => v
      case Excluded(v) => if v == TWO_64 - 1 then v else v + 1
      case Unbounded => 0
    }

    function High(): u64 {
      match end
      case Included(v) => v
      case Excluded(v) => if v == 0 then 0 else v - 1
      case Unbounded => TWO_64 - 1
    }
  }

  function BaseRange(q: Quote): Range {
    Range(Included(q.minBase), Included(q.maxBase))
  }

  /** `range_overlaps`, with its saturating arithmetic. */
  predicate RangeOverlaps(x: Range, y: Range) {
    x.Low() <= y.High() && y.Low() <= x.High()
  }

  /** The quotes of a pair that may serve some amount of the wanted range. */
  function Serves(pair: Pair, wanted: Range): Quote -> bool {
    (q: Quote) => q.pair == pair && RangeOverlaps(wanted, BaseRange(q))
  }

  /** Some amount of the wanted range can be filled by the quote. */
  ghost predicate CanServe(q: Quote, wanted: Range) {
    exists a: u64 :: wanted.Contains(a) && q.minBase <= a <= q.maxBase
  }

  /**
   * The listing for a query: the quotes the test selects, in price order, cut to `limit` entries, 0
   * meaning all. For a range that is not empty those are, of the quotes that can fill anything, the
   * ones of the pair that can fill some amount of it.
   */
  ghost predicate ListsQuotes(book: set<Quote>, pair: Pair, wanted: Range, limit: nat, quotes: seq<Quote>) {
    exists all ::
      && SortedListing(all, book, Serves(pair, wanted))
      && (NonEmpty(wanted) ==>
            forall q :: q in book && q.minBase <= q.maxBase ==> (q in all <==> q.pair == pair && CanServe(q, wanted)))
      && quotes == if limit == 0 then all else all[..Min(limit, |all|)]
  }

  ghost predicate NonEmpty(x: Range) {
    exists a: u64 :: x.Contains(a)
  }

  ghost predicate ShareAmount(x: Range, y: Range) {
    exists a: u64 :: x.Contains(a) && y.Contains(a)
  }

  lemma NonEmptyEnds(x: Range)
    requires NonEmpty(x)
    ensures x.Contains(x.Low()) && x.Contains(x.High()) && x.Low() <= x.High()
  {
  }

  /** On non-empty ranges of every bound kind the test finds exactly the ranges that share an amount. */
  lemma OverlapIsSharing(x: Range, y: Range)
    requires NonEmpty(x) && NonEmpty(y)
    ensures RangeOverlaps(x, y) <==> ShareAmount(x, y)
  {
    NonEmptyEnds(x);
    NonEmptyEnds(y);
    if RangeOverlaps(x, y) {
      var a := if x.Low() <= y.Low() then y.Low() else x.Low();
      assert x.Contains(a) && y.Contains(a);
    }
  }

  /** A quote that can fill anything is selected if and only if it is of the pair and can fill a wanted amount. */
  lemma ServesExactly(q: Quote, pair: Pair, wanted: Range)
    requires NonEmpty(wanted) && q.minBase <= q.maxBase
    ensures Serves(pair, wanted)(q) <==> q.pair == pair && CanServe(q, wanted)
  {
    assert BaseRange(q).Contains(q.minBase);
    OverlapIsSharing(wanted, BaseRange(q));
    if a: u64 :| wanted.Contains(a) && BaseRange(q).Contains(a) { assert q.minBase <= a <= q.maxBase; }
    if a: u64 :| wanted.Contains(a) && q.minBase <= a <= q.maxBase { assert BaseRange(q).Contains(a); }
  }

  lemma ListingServes(all: seq<Quote>, book: set<Quote>, pair: Pair, wanted: Range, limit: nat)
    requires SortedListing(all, book, Serves(pair, wanted))
    ensures ListsQuotes(book, pair, wanted, limit, if limit == 0 then all else all[..Min(limit, |all|)])
  {
    if NonEmpty(wanted) {
      forall q | q in book && q.minBase <= q.maxBase ensures q in all <==> q.pair == pair && CanServe(q, wanted) {
        ServesExactly(q, pair, wanted);
      }
    }
  }

  /** The test answers correctly against every non-empty range exactly when its own range is not empty. */
  lemma OverlapExactWhenNonEmpty(x: Range)
    ensures NonEmpty(x) <==> (forall y: Range :: NonEmpty(y) ==> (RangeOverlaps(x, y) <==> ShareAmount(x, y)))
  {
    if NonEmpty(x) {
      forall y: Range | NonEmpty(y) ensures RangeOverlaps(x, y) <==> ShareAmount(x, y) {
        OverlapIsSharing(x, y);
      }
    } else {
      var everything := Range(Unbounded, Unbounded);
      assert everything.Contains(0);
      assert RangeOverlaps(x, everything);
    }
  }
}
