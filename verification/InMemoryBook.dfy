/** The in-memory quote book: a map from pair to the pair's quotes, kept in price order. */
module InMemoryBook {
  import opened Basics
  import opened Sequences
  import opened Quotes
  import opened BookSpec

  lemma {:induction false} FilterSorted(s: seq<Quote>, p: Quote -> bool)
    requires Sorted(s)
    ensures Sorted(Filter(s, p))
  {
    if s != [] {
      var prefix := s[..|s| - 1];
      FilterSorted(prefix, p);
      FilterElements(prefix, p);
      var kept, r := Filter(prefix, p), Filter(s, p);
      forall i, j | 0 <= i < j < |r| ensures Before(r[i], r[j]) {
        if j == |kept| {
          assert r[i] in kept;
          var k :| 0 <= k < |prefix| && prefix[k] == r[i];
          assert Before(s[k], s[|s| - 1]);
        } else {
          assert Before(kept[i], kept[j]);
        }
      }
    }
  }

  lemma SortedNoDuplicates(s: seq<Quote>)
    requires Sorted(s)
    ensures NoDuplicates(s)
  {
    forall i, j | 0 <= i < j < |s| ensures s[i] != s[j] {
      BeforeIrreflexive(s[i]);
      assert Before(s[i], s[j]);
    }
  }

  /** Insertion into an ordered set: reports false, and changes nothing, on an equal element. */
  method InsertSorted(s: seq<Quote>, q: Quote) returns (inserted: bool, r: seq<Quote>)
    requires Sorted(s) && !q.Degenerate()
    requires forall e :: e in s ==> !e.Degenerate()
    ensures inserted <==> forall e :: e in s ==> !Compare(e, q).Equal?
    ensures Sorted(r)
    ensures forall e :: e in r <==> e in s || (inserted && e == q)
    ensures !inserted ==> r == s
  {
    var i := 0;
    while i < |s| && Before(s[i], q)
      invariant 0 <= i <= |s|
      invariant forall k :: 0 <= k < i ==> Before(s[k], q)
    {
      i := i + 1;
    }
    if i < |s| && Compare(s[i], q).Equal? {
      return false, s;
    }
    RestIsAfter(s, i, q);
    InsertedInOrder(s, i, q);
    inserted, r := true, s[..i] + [q] + s[i..];
  }

  lemma RestIsAfter(s: seq<Quote>, i: nat, q: Quote)
    requires Sorted(s) && !q.Degenerate() && forall e :: e in s ==> !e.Degenerate()
    requires i <= |s| && (i < |s| ==> !Before(s[i], q) && !Compare(s[i], q).Equal?)
    ensures forall k :: i <= k < |s| ==> Before(q, s[k])
  {
    forall k | i <= k < |s| ensures Before(q, s[k]) {
      CompareFlips(s[i], q);
      if i < k { CompareTransitive(q, s[i], s[k]); }
    }
  }

  lemma InsertedInOrder(s: seq<Quote>, i: nat, q: Quote)
    requires Sorted(s) && i <= |s|
    requires (forall k :: 0 <= k < i ==> Before(s[k], q)) && (forall k :: i <= k < |s| ==> Before(q, s[k]))
    ensures var r := s[..i] + [q] + s[i..]; Sorted(r) && forall e :: e in r <==> e in s || e == q
    ensures forall e :: e in s ==> !Compare(e, q).Equal?
  {
    var r := s[..i] + [q] + s[i..];
    assert s == s[..i] + s[i..];
    assert forall e :: e in r <==> e in s[..i] || e == q || e in s[i..];
    forall k | 0 <= k < |s| ensures !Compare(s[k], q).Equal? { CompareFlips(q, s[k]); }
  }

  lemma FoundIsIt(s: seq<Quote>, i: nat, q: Quote)
    requires Sorted(s) && q in s && i < |s| && Compare(s[i], q).Equal?
    ensures s[i] == q
  {
    var k :| 0 <= k < |s| && s[k] == q;
    CompareFlips(s[i], q);
  }

  lemma WithoutOne(s: seq<Quote>, i: nat)
    requires Sorted(s) && i < |s|
    ensures var r := s[..i] + s[i + 1..]; Sorted(r) && forall e :: e in r <==> e in s && e != s[i]
  {
    SortedNoDuplicates(s);
    assert s == s[..i] + [s[i]] + s[i + 1..];
    var r := s[..i] + s[i + 1..];
    assert forall e :: e in r <==> e in s[..i] || e in s[i + 1..];
  }

  /** Removal of one element from an ordered set, found by comparison. */
  method RemoveSorted(s: seq<Quote>, q: Quote) returns (removed: bool, r: seq<Quote>)
    requires Sorted(s)
    ensures removed <==> exists e :: e in s && Compare(e, q).Equal?
    ensures Sorted(r)
    ensures q in s ==> removed && forall e :: e in r <==> e in s && e != q
  {
    var i := 0;
    while i < |s| && !Compare(s[i], q).Equal?
      invariant 0 <= i <= |s|
      invariant forall k :: 0 <= k < i ==> !Compare(s[k], q).Equal?
    {
      i := i + 1;
    }
    if i == |s| {
      return false, s;
    }
    removed, r := true, s[..i] + s[i + 1..];
    if q in s { FoundIsIt(s, i, q); }
    WithoutOne(s, i);
  }

  /** Every bucket holds only quotes of its own pair. */
  ghost predicate Bucketed(scis: map<Pair, seq<Quote>>) {
    forall p, q :: p in scis && q in scis[p] ==> q.pair == p
  }

  ghost function AllQuotes(scis: map<Pair, seq<Quote>>): set<Quote> {
    set p, q | p in scis.Keys && q in scis[p] :: q
  }

  lemma ReplaceBucket(scis: map<Pair, seq<Quote>>, pair: Pair, bucket: seq<Quote>)
    requires Bucketed(scis) && forall q :: q in bucket ==> q.pair == pair
    ensures Bucketed(scis[pair := bucket])
    ensures forall q ::
              q in AllQuotes(scis[pair := bucket]) <==> if q.pair == pair then q in bucket else q in AllQuotes(scis)
  {
    var after := scis[pair := bucket];
    forall q | true ensures q in AllQuotes(after) <==> if q.pair == pair then q in bucket else q in AllQuotes(scis) {
      assert q in AllQuotes(after) <==> q.pair in after && q in after[q.pair];
      assert q in AllQuotes(scis) <==> q.pair in scis && q in scis[q.pair];
    }
  }

  /** The quotes of an ordered set that satisfy `p`, in order, stopping at `limit` of them. */
  method TakeMatching(bucket: seq<Quote>, p: Quote -> bool, limit: nat) returns (quotes: seq<Quote>)
    ensures var all := Filter(bucket, p); quotes == if limit == 0 then all else all[..Min(limit, |all|)]
  {
    quotes := [];
    for i := 0 to |bucket|
      invariant quotes == Filter(bucket[..i], p)
      invariant limit == 0 || |quotes| < limit
    {
      assert bucket[..i + 1][..i] == bucket[..i];
      if p(bucket[i]) {
        quotes := quotes + [bucket[i]];
        if |quotes| == limit {
          FilterPrefix(bucket, i + 1, p);
          return;
        }
      }
    }
    assert bucket[..|bucket|] == bucket;
  }

  function IdsOf(quotes: seq<Quote>): (ids: seq<QuoteId>)
    ensures AreIdsOf(ids, quotes)
  {
    seq(|quotes|, i requires 0 <= i < |quotes| => quotes[i].id)
  }

  ghost predicate AreIdsOf(ids: seq<QuoteId>, quotes: seq<Quote>) {
    |ids| == |quotes| && forall i :: 0 <= i < |ids| ==> ids[i] == quotes[i].id
  }

  lemma IdsAreOnce(quotes: seq<Quote>, ids: seq<QuoteId>)
    requires BookInv(Elements(quotes)) && NoDuplicates(quotes) && AreIdsOf(ids, quotes)
    ensures NoDuplicates(ids)
    ensures forall id :: id in ids <==> exists q :: q in quotes && q.id == id
  {
    forall i, j | 0 <= i < j < |ids| ensures ids[i] != ids[j] {
      assert quotes[i] in Elements(quotes) && quotes[j] in Elements(quotes);
    }
  }

  class InMemoryQuoteBook {
    var scis: map<Pair, seq<Quote>>

    ghost function Contents(): set<Quote>
      reads this
    {
      AllQuotes(scis)
    }

    /** Each bucket is in price order and holds only its own pair; the book invariant spans all buckets. */
    ghost predicate Valid()
      reads this
    {
      && (forall p :: p in scis ==> Sorted(scis[p]))
      && Bucketed(scis)
      && BookInv(Contents())
    }

    lemma InContents(q: Quote)
      requires Valid()
      ensures q in Contents() <==> q.pair in scis && q in scis[q.pair]
    {
    }

    constructor ()
      ensures Valid() && Contents() == {}
    {
      scis := map[];
    }

    /** The first quote of a bucket that satisfies `p`. */
    method FindIn(bucket: seq<Quote>, p: Quote -> bool) returns (found: Option<Quote>)
      ensures found.Some? ==> found.value in bucket && p(found.value)
      ensures found.None? ==> forall q :: q in bucket ==> !p(q)
    {
      for i := 0 to |bucket|
        invariant forall k :: 0 <= k < i ==> !p(bucket[k])
      {
        if p(bucket[i]) { return Some(bucket[i]); }
      }
      found := None;
    }

    method AddQuote(q: Quote) returns (reply: Result<(), Error>)
      requires Valid() && !q.Degenerate() && IdFits(q, Contents())
      modifies this
      ensures Valid()
      ensures AddEffect(old(Contents()), q, Contents(), reply)
    {
      var bucket := if q.pair in scis then scis[q.pair] else [];
      ReplaceBucket(scis, q.pair, bucket);
      scis := scis[q.pair := bucket];
      assert Contents() == old(Contents());
      var existing := FindIn(bucket, HasKeyImage(q.KeyImage()));
      if existing.Some? {
        assert existing.value in Contents() && Conflicts(existing.value, q);
        return Err(QuoteAlreadyExists(existing.value));
      }
      forall r | r in Contents() ensures !Conflicts(r, q) { InContents(r); }
      assert forall e :: e in bucket ==> e in Contents();
      var inserted, grown := InsertSorted(bucket, q);
      assert inserted by {
        forall e | e in bucket ensures !Compare(e, q).Equal? {
          if Compare(e, q).Equal? { CompareEqual(e, q); }
        }
      }
      ReplaceBucket(scis, q.pair, grown);
      scis := scis[q.pair := grown];
      assert Contents() == old(Contents()) + {q};
      AddKeepsInv(old(Contents()), q, Contents(), Ok(()));
      reply := Ok(());
    }

    method RemoveQuoteById(id: QuoteId) returns (reply: Result<Quote, Error>)
      requires Valid()
      modifies this
      ensures Valid()
      ensures RemoveByIdEffect(old(Contents()), id, Contents(), reply)
    {
      var todo := scis.Keys;
      while todo != {}
        invariant todo <= scis.Keys && scis == old(scis)
        invariant forall q :: q in Contents() && q.pair !in todo ==> q.id != id
      {
        var p :| p in todo;
        var found := FindIn(scis[p], HasId(id));
        if found.Some? {
          var q := found.value;
          assert q in Contents();
          var removed, rest := RemoveSorted(scis[p], q);
          assert removed;
          ReplaceBucket(scis, p, rest);
          scis := scis[p := rest];
          assert Contents() == old(Contents()) - {q};
          return Ok(q);
        }
        todo := todo - {p};
      }
      reply := Err(QuoteNotFound);
    }

    /** Drains every bucket of the quotes that satisfy `p`, visiting the buckets in any order. */
    method DrainWhere(p: Quote -> bool) returns (removed: seq<Quote>)
      requires Valid()
      modifies this
      ensures Valid()
      ensures PurgeEffect(old(Contents()), p, Contents(), removed)
    {
      ghost var before := Contents();
      removed := [];
      var todo := scis.Keys;
      while todo != {}
        invariant todo <= scis.Keys == old(scis.Keys)
        invariant forall k :: k in todo ==> scis[k] == old(scis[k])
        invariant forall k :: k in scis && k !in todo ==> scis[k] == Filter(old(scis[k]), (q: Quote) => !p(q))
        invariant NoDuplicates(removed)
        invariant forall q :: q in removed <==> q in before && q.pair !in todo && p(q)
      {
        var k :| k in todo;
        var bucket := scis[k];
        SortedNoDuplicates(bucket);
        FilterNoDuplicates(bucket, p);
        FilterElements(bucket, p);
        var drained := Filter(bucket, p);
        forall q | q in drained ensures q in before && q.pair == k {}
        ConcatNoDuplicates(removed, drained);
        removed := removed + drained;
        scis := scis[k := Filter(bucket, (q: Quote) => !p(q))];
        todo := todo - {k};
      }
      forall k | k in scis
        ensures Sorted(scis[k]) && forall q :: q in scis[k] <==> q in old(scis[k]) && !p(q)
      {
        FilterSorted(old(scis[k]), (q: Quote) => !p(q));
        FilterElements(old(scis[k]), (q: Quote) => !p(q));
      }
    }

    method RemoveQuotesByKeyImage(keyImage: KeyImage) returns (removed: seq<Quote>)
      requires Valid()
      modifies this
      ensures Valid()
      ensures PurgeEffect(old(Contents()), HasKeyImage(keyImage), Contents(), removed)
    {
      removed := DrainWhere(HasKeyImage(keyImage));
    }

    method RemoveQuotesByTombstoneBlock(currentBlockIndex: nat) returns (removed: seq<Quote>)
      requires Valid()
      modifies this
      ensures Valid()
      ensures PurgeEffect(old(Contents()), ExpiredAt(currentBlockIndex), Contents(), removed)
    {
      removed := DrainWhere(ExpiredAt(currentBlockIndex));
    }

    /**
     * The quotes of the pair whose base range overlaps the wanted one, in price order, cut to
     * `limit` entries; a limit of 0 means all of them.
     */
    method GetQuotes(pair: Pair, wanted: Range, limit: nat) returns (quotes: seq<Quote>)
      requires Valid()
      ensures ListsQuotes(Contents(), pair, wanted, limit, quotes)
    {
      ghost var p := Serves(pair, wanted);
      var bucket := if pair in scis then scis[pair] else [];
      quotes := TakeMatching(bucket, Serves(pair, wanted), limit);
      FilterSorted(bucket, p);
      FilterElements(bucket, p);
      forall q | true ensures q in Filter(bucket, p) <==> q in Contents() && p(q) { InContents(q); }
      ListingServes(Filter(bucket, p), Contents(), pair, wanted, limit);
    }

    /** The ids of all quotes, or of the quotes of one pair, each once. */
    method GetQuoteIds(pair: Option<Pair>) returns (ids: seq<QuoteId>)
      requires Valid()
      ensures NoDuplicates(ids)
      ensures forall id :: id in ids <==> HoldsId(Contents(), pair, id)
    {
      var wanted := if pair.None? then scis.Keys else if pair.value in scis then {pair.value} else {};
      var listed := ListQuotes(wanted);
      ids := IdsOf(listed);
      IdsAreOnce(listed, ids);
      forall q | q in Contents() && (pair.None? || q.pair == pair.value) ensures q in listed { InContents(q); }
    }

    /** The quotes of some buckets, visited in any order. */
    method ListQuotes(wanted: set<Pair>) returns (listed: seq<Quote>)
      requires Valid() && wanted <= scis.Keys
      ensures NoDuplicates(listed)
      ensures forall q :: q in listed <==> q in Contents() && q.pair in wanted
    {
      listed := [];
      var todo := wanted;
      while todo != {}
        invariant todo <= wanted
        invariant NoDuplicates(listed)
        invariant forall q :: q in listed <==> q in Contents() && q.pair in wanted && q.pair !in todo
      {
        var k :| k in todo;
        SortedNoDuplicates(scis[k]);
        forall q | true ensures q in scis[k] <==> q in Contents() && q.pair == k { InContents(q); }
        ConcatNoDuplicates(listed, scis[k]);
        listed := listed + scis[k];
        todo := todo - {k};
      }
    }

    method GetQuoteById(id: QuoteId) returns (found: Option<Quote>)
      requires Valid()
      ensures Finds(Contents(), id, found)
    {
      var todo := scis.Keys;
      while todo != {}
        invariant todo <= scis.Keys
        invariant forall q :: q in Contents() && q.pair !in todo ==> q.id != id
      {
        var p :| p in todo;
        found := FindIn(scis[p], HasId(id));
        if found.Some? { return; }
        todo := todo - {p};
      }
      found := None;
    }

    method NumScis() returns (n: nat)
      requires Valid()
      ensures n == |Contents()|
    {
      var listed := ListQuotes(scis.Keys);
      NoDuplicatesSize(listed);
      assert Elements(listed) == Contents();
      n := |listed|;
    }
  }

  /** Filtering a longer prefix starts with the filtered shorter one. */
  lemma {:induction false} FilterPrefix<T>(s: seq<T>, n: nat, p: T -> bool)
    requires n <= |s|
    ensures Filter(s[..n], p) <= Filter(s, p)
    decreases |s|
  {
    if n < |s| {
      assert s[..|s| - 1][..n] == s[..n];
      FilterPrefix(s[..|s| - 1], n, p);
    } else {
      assert s[..n] == s;
    }
  }
}
