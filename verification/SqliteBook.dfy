/** Rows of the quotes table and their conversion from and to quotes. */
module SqliteRows {
  import opened Basics
  import opened Quotes
  import opened Encoding

  /** A stored protobuf either decodes to the SCI it was encoded from or does not decode. */
  datatype Protobuf = Encoded(sci: Sci) | Undecodable

  datatype Row = Row(
    id: seq<byte>,
    sciProtobuf: Protobuf,
    baseTokenId: i64,
    counterTokenId: i64,
    baseRangeMin: seq<byte>,
    baseRangeMax: seq<byte>,
    maxCounterTokens: seq<byte>,
    timestamp: i64,
    keyImage: KeyImage,
    tombstoneBlock: i64)

  function IdBytes(id: QuoteId): seq<byte> { ToBytes(id, 32) }

  function ToRow(q: Quote): Row {
    Row(IdBytes(q.id), Encoded(q.sci),
        AsI64(q.pair.baseTokenId), AsI64(q.pair.counterTokenId),
        ToBytes(q.minBase, 8), ToBytes(q.maxBase, 8), ToBytes(q.maxCounter, 8),
        AsI64(q.timestamp), q.KeyImage(), AsI64(q.Tombstone()))
  }

  /** Fails on an id that is not 32 bytes, a blob that is not 8 bytes, or an SCI that does not decode. */
  function FromRow(row: Row): Result<Quote, Error> {
    if |row.id| != 32 || |row.baseRangeMin| != 8 || |row.baseRangeMax| != 8 || |row.maxCounterTokens| != 8
       || row.sciProtobuf.Undecodable? then Err(ImplementationSpecific)
    else
      BytesBounded(row.id);
      BytesBounded(row.baseRangeMin);
      BytesBounded(row.baseRangeMax);
      BytesBounded(row.maxCounterTokens);
      Widths();
      Ok(Quote(row.sciProtobuf.sci, FromBytes(row.id),
               Pair(AsU64(row.baseTokenId), AsU64(row.counterTokenId)),
               FromBytes(row.baseRangeMin), FromBytes(row.baseRangeMax),
               FromBytes(row.maxCounterTokens), AsU64(row.timestamp)))
  }

  lemma {:induction false} BytesBounded(s: seq<byte>)
    ensures FromBytes(s) < Pow256(|s|)
  {
    if s != [] { BytesBounded(s[..|s| - 1]); }
  }

  lemma Widths()
    ensures Pow256(8) == TWO_64
    ensures Pow256(32) == 0x1_0000000000000000_0000000000000000_0000000000000000_0000000000000000
  {
    assert Pow256(4) == 0x1_0000_0000;
    assert Pow256(8) == 256 * (256 * (256 * (256 * Pow256(4))));
    assert Pow256(12) == 256 * (256 * (256 * (256 * Pow256(8))));
    assert Pow256(16) == 256 * (256 * (256 * (256 * Pow256(12))));
    assert Pow256(20) == 256 * (256 * (256 * (256 * Pow256(16))));
    assert Pow256(24) == 256 * (256 * (256 * (256 * Pow256(20))));
    assert Pow256(28) == 256 * (256 * (256 * (256 * Pow256(24))));
    assert Pow256(32) == 256 * (256 * (256 * (256 * Pow256(28))));
  }

  /** No quote is changed by storing it: every field survives its cast or its blob. */
  lemma RowRoundTrip(q: Quote)
    ensures FromRow(ToRow(q)) == Ok(q)
  {
    Widths();
    BytesRoundTrip(q.id, 32);
    BytesRoundTrip(q.minBase, 8);
    BytesRoundTrip(q.maxBase, 8);
    BytesRoundTrip(q.maxCounter, 8);
  }

  /** A reloaded quote is still the one its SCI and timestamp determine. */
  lemma ReloadKeepsGenuine(q: Quote)
    requires Genuine(q)
    ensures FromRow(ToRow(q)).Ok? && Genuine(FromRow(ToRow(q)).value)
  {
    RowRoundTrip(q);
  }
}

/** The write-through book: a table of rows over an in-memory book, changed in transactions. */
module SqliteBook {
  import opened Basics
  import opened Sequences
  import opened Quotes
  import opened BookSpec
  import opened InMemoryBook
  import opened Encoding
  import opened SqliteRows

  type Table = map<seq<byte>, Row>

  ghost function Keys(book: set<Quote>): set<seq<byte>> {
    set q | q in book :: IdBytes(q.id)
  }

  /** The table holds exactly the rows of the quotes in the book. */
  ghost predicate Mirrors(table: Table, book: set<Quote>) {
    && table.Keys == Keys(book)
    && forall q :: q in book ==> table[IdBytes(q.id)] == ToRow(q)
  }

  lemma IdBytesInjective(a: QuoteId, b: QuoteId)
    requires IdBytes(a) == IdBytes(b)
    ensures a == b
  {
    Widths();
    BytesRoundTrip(a, 32);
    BytesRoundTrip(b, 32);
  }

  /** The quote whose row is stored under a key. */
  lemma QuoteOfKey(table: Table, book: set<Quote>, k: seq<byte>) returns (q: Quote)
    requires Mirrors(table, book) && k in table
    ensures q in book && IdBytes(q.id) == k && table[k] == ToRow(q) && FromRow(table[k]) == Ok(q)
  {
    q :| q in book && IdBytes(q.id) == k;
    RowRoundTrip(q);
  }

  ghost predicate UniqueIds(book: set<Quote>) {
    forall q, r :: q in book && r in book && q.id == r.id ==> q == r
  }

  /** As many keys as quotes. */
  lemma {:induction false} KeysCount(book: set<Quote>)
    requires UniqueIds(book)
    ensures |Keys(book)| == |book|
    decreases |book|
  {
    if book == {} {
      assert Keys(book) == {};
    } else {
      var q :| q in book;
      KeysCount(book - {q});
      if IdBytes(q.id) in Keys(book - {q}) {
        var r :| r in book - {q} && IdBytes(r.id) == IdBytes(q.id);
        IdBytesInjective(q.id, r.id);
        assert false;
      }
      assert Keys(book) == Keys(book - {q}) + {IdBytes(q.id)};
    }
  }

  /** Deleting the rows of some quotes leaves a mirror of the rest. */
  lemma MirrorsAfterDelete(table: Table, book: set<Quote>, removed: set<Quote>)
    requires Mirrors(table, book) && UniqueIds(book) && removed <= book
    ensures Mirrors(table - Keys(removed), book - removed)
  {
    forall q, r | q in book && r in removed && IdBytes(q.id) == IdBytes(r.id) ensures q == r {
      IdBytesInjective(q.id, r.id);
    }
    assert Keys(book - removed) == Keys(book) - Keys(removed);
  }

  /** One row is deleted for each quote removed. */
  lemma DeletedCount(book: set<Quote>, p: Quote -> bool, rest: set<Quote>, removed: seq<Quote>)
    requires UniqueIds(book) && PurgeEffect(book, p, rest, removed)
    ensures |Keys(book - rest)| == |removed|
  {
    KeysCount(book - rest);
    NoDuplicatesSize(removed);
    assert Elements(removed) == book - rest;
  }

  /** The keys of the rows with a key image, and of the rows within the tombstone filter. */
  function RowsByKeyImage(table: Table, keyImage: KeyImage): set<seq<byte>> {
    set k | k in table && table[k].keyImage == keyImage
  }

  function RowsByTombstone(table: Table, limit: i64): set<seq<byte>> {
    set k | k in table && 0 < table[k].tombstoneBlock <= limit
  }

  lemma KeyImageSelects(table: Table, book: set<Quote>, keyImage: KeyImage)
    requires Mirrors(table, book)
    ensures RowsByKeyImage(table, keyImage) == Keys(set q | q in book && q.KeyImage() == keyImage)
  {
    var removed := set q | q in book && q.KeyImage() == keyImage;
    forall k | k in RowsByKeyImage(table, keyImage) ensures k in Keys(removed) {
      var q := QuoteOfKey(table, book, k);
      assert q in removed;
    }
  }

  lemma TombstoneSelects(table: Table, book: set<Quote>, currentBlockIndex: u64)
    requires Mirrors(table, book) && currentBlockIndex < TWO_63
    ensures RowsByTombstone(table, AsI64(currentBlockIndex)) == Keys(set q | q in book && Expired(q, currentBlockIndex))
  {
    var removed := set q | q in book && Expired(q, currentBlockIndex);
    forall k | k in RowsByTombstone(table, AsI64(currentBlockIndex)) ensures k in Keys(removed) {
      var q := QuoteOfKey(table, book, k);
      TombstoneFilterSelectsExpired(q, currentBlockIndex);
      assert q in removed;
    }
    forall q | q in removed ensures IdBytes(q.id) in RowsByTombstone(table, AsI64(currentBlockIndex)) {
      TombstoneFilterSelectsExpired(q, currentBlockIndex);
      assert IdBytes(q.id) in Keys(book);
    }
  }

  /** The SQL tombstone filter selects the rows of exactly the expired quotes. */
  lemma TombstoneFilterSelectsExpired(q: Quote, currentBlockIndex: u64)
    requires currentBlockIndex < TWO_63
    ensures 0 < ToRow(q).tombstoneBlock <= AsI64(currentBlockIndex) <==> Expired(q, currentBlockIndex)
  {
    SignedFilterExact(currentBlockIndex);
    assert SignedTombstoneFilter(q.Tombstone(), currentBlockIndex) <==> Expired(q, currentBlockIndex);
  }

  class SqliteQuoteBook {
    var table: Table
    const inner: InMemoryQuoteBook

    ghost predicate Valid()
      reads this, inner
    {
      inner.Valid() && Mirrors(table, inner.Contents())
    }

    ghost function Contents(): set<Quote>
      reads inner
    {
      inner.Contents()
    }

    constructor (table: Table, inner: InMemoryQuoteBook)
      requires inner.Valid() && Mirrors(table, inner.Contents())
      ensures Valid() && this.inner == inner && this.table == table
    {
      this.table := table;
      this.inner := inner;
    }

    /** Insert the row, then the quote; the row is committed only if the inner book takes the quote. */
    method AddQuote(q: Quote) returns (reply: Result<(), Error>)
      requires Valid() && !q.Degenerate() && IdFits(q, Contents())
      modifies this, inner
      ensures Valid()
      ensures AddEffect(old(Contents()), q, Contents(), reply)
      ensures reply.Err? ==> table == old(table)
    {
      var key := IdBytes(q.id);
      if key in table {
        var existing := FromRow(table[key]);
        ghost var e := QuoteOfKey(table, Contents(), key);
        assert existing == Ok(e);
        IdBytesInjective(e.id, q.id);
        return Err(QuoteAlreadyExists(existing.value));
      }
      var uncommitted := table[key := ToRow(q)];
      reply := inner.AddQuote(q);
      if reply.Ok? {
        table := uncommitted;
      }
      assert reply.Ok? ==> Keys(Contents()) == Keys(old(Contents())) + {key};
    }

    method RemoveQuoteById(id: QuoteId) returns (reply: Result<Quote, Error>)
      requires Valid()
      modifies this, inner
      ensures Valid()
      ensures RemoveByIdEffect(old(Contents()), id, Contents(), reply)
    {
      var key := IdBytes(id);
      if key !in table {
        return Err(QuoteNotFound);
      }
      ghost var q := QuoteOfKey(table, Contents(), key);
      IdBytesInjective(q.id, id);
      var uncommitted := table - {key};
      MirrorsAfterDelete(table, Contents(), {q});
      assert Keys({q}) == {key};
      reply := inner.RemoveQuoteById(id);
      assert reply == Ok(q);
      table := uncommitted;
    }

    method RemoveQuotesByKeyImage(keyImage: KeyImage) returns (removed: seq<Quote>)
      requires Valid()
      modifies this, inner
      ensures Valid()
      ensures PurgeEffect(old(Contents()), HasKeyImage(keyImage), Contents(), removed)
    {
      var deleted := RowsByKeyImage(table, keyImage);
      KeyImageSelects(table, Contents(), keyImage);
      removed := inner.RemoveQuotesByKeyImage(keyImage);
      RowsPurged(deleted, old(Contents()), HasKeyImage(keyImage), removed);
      assert |removed| == |deleted|;
      table := table - deleted;
    }

    /** What a purge of the inner book and the deletion of the purged rows come to. */
    lemma RowsPurged(deleted: set<seq<byte>>, before: set<Quote>, p: Quote -> bool, removed: seq<Quote>)
      requires Mirrors(table, before) && UniqueIds(before) && PurgeEffect(before, p, Contents(), removed)
      requires deleted == Keys(set q | q in before && p(q))
      ensures |removed| == |deleted| && Mirrors(table - deleted, Contents())
    {
      assert (set q | q in before && p(q)) == before - Contents();
      DeletedCount(before, p, Contents(), removed);
      MirrorsAfterDelete(table, before, before - Contents());
      assert before - (before - Contents()) == Contents();
    }

    method RemoveQuotesByTombstoneBlock(currentBlockIndex: u64) returns (removed: seq<Quote>)
      requires Valid() && currentBlockIndex < TWO_63
      modifies this, inner
      ensures Valid()
      ensures PurgeEffect(old(Contents()), ExpiredAt(currentBlockIndex), Contents(), removed)
    {
      var deleted := RowsByTombstone(table, AsI64(currentBlockIndex));
      TombstoneSelects(table, Contents(), currentBlockIndex);
      removed := inner.RemoveQuotesByTombstoneBlock(currentBlockIndex);
      RowsPurged(deleted, old(Contents()), ExpiredAt(currentBlockIndex), removed);
      assert |removed| == |deleted|;
      table := table - deleted;
    }

    method GetQuotes(pair: Pair, wanted: Range, limit: nat) returns (quotes: seq<Quote>)
      requires Valid()
      ensures ListsQuotes(Contents(), pair, wanted, limit, quotes)
    {
      quotes := inner.GetQuotes(pair, wanted, limit);
    }

    method GetQuoteIds(pair: Option<Pair>) returns (ids: seq<QuoteId>)
      requires Valid()
      ensures NoDuplicates(ids) && forall id :: id in ids <==> HoldsId(Contents(), pair, id)
    {
      ids := inner.GetQuoteIds(pair);
    }

    method GetQuoteById(id: QuoteId) returns (found: Option<Quote>)
      requires Valid()
      ensures Finds(Contents(), id, found)
    {
      found := inner.GetQuoteById(id);
    }

    method NumScis() returns (n: nat)
      requires Valid()
      ensures n == |Contents()|
    {
      n := inner.NumScis();
    }
  }

  /** What the rows decode to, in order. */
  function DecodeAll(rows: seq<Row>): (decoded: seq<Result<Quote, Error>>)
    ensures |decoded| == |rows| && forall i :: 0 <= i < |rows| ==> decoded[i] == FromRow(rows[i])
  {
    seq(|rows|, i requires 0 <= i < |rows| => FromRow(rows[i]))
  }

  /** Everything decodes, to `quotes`. */
  ghost predicate AllDecode(decoded: seq<Result<Quote, Error>>, quotes: seq<Quote>) {
    |quotes| == |decoded| && forall i :: 0 <= i < |decoded| ==> decoded[i] == Ok(quotes[i])
  }

  /** No two of the quotes offer one input in one pair. */
  ghost predicate ConflictFree(quotes: seq<Quote>) {
    forall i, j :: 0 <= i < j < |quotes| ==> !Conflicts(quotes[i], quotes[j])
  }

  /** Ids keep the promise of the digest in everything that decodes. */
  ghost predicate DecodedFit(decoded: seq<Result<Quote, Error>>) {
    && (forall i :: 0 <= i < |decoded| && decoded[i].Ok? ==> !decoded[i].value.Degenerate())
    && (forall i, j :: 0 <= i < |decoded| && 0 <= j < |decoded| && decoded[i].Ok? && decoded[j].Ok? ==>
          decoded[i].value.id == decoded[j].value.id ==> Conflicts(decoded[i].value, decoded[j].value))
  }

  /**
   * The loop of `SqliteQuoteBook::new`: it succeeds exactly when every row decodes and no two
   * quotes conflict, and then the inner book holds what the rows decode to.
   */
  method Load(decoded: seq<Result<Quote, Error>>, inner: InMemoryQuoteBook) returns (reply: Result<(), Error>)
    requires DecodedFit(decoded)
    requires inner.Valid() && inner.Contents() == {}
    modifies inner
    ensures inner.Valid()
    ensures reply.Ok? <==> exists quotes :: AllDecode(decoded, quotes) && ConflictFree(quotes)
    ensures forall quotes :: reply.Ok? && AllDecode(decoded, quotes) ==> inner.Contents() == Elements(quotes)
  {
    ghost var quotes := [];
    for i := 0 to |decoded|
      invariant inner.Valid()
      invariant AllDecode(decoded[..i], quotes) && ConflictFree(quotes)
      invariant inner.Contents() == Elements(quotes)
    {
      if decoded[i].Err? {
        return Err(decoded[i].error);
      }
      var q := decoded[i].value;
      forall r | r in inner.Contents() && r.id == q.id ensures Conflicts(r, q) {
        var j :| 0 <= j < i && quotes[j] == r;
        assert decoded[..i][j] == decoded[j];
      }
      ghost var loaded := inner.Contents();
      var added := inner.AddQuote(q);
      if added.Err? {
        ghost var j :| 0 <= j < i && quotes[j] == added.error.existing;
        forall other | AllDecode(decoded, other) ensures !ConflictFree(other) {
          assert decoded[..i][j] == decoded[j] && other[j] == quotes[j] && other[i] == q;
        }
        return Err(added.error);
      }
      forall j | 0 <= j < i ensures !Conflicts(quotes[j], q) {
        assert quotes[j] in loaded;
      }
      quotes := quotes + [q];
      assert decoded[..i + 1] == decoded[..i] + [decoded[i]];
    }
    assert decoded[..|decoded|] == decoded;
    forall other | AllDecode(decoded, other) ensures other == quotes {}
    reply := Ok(());
  }

  /**
   * Restart: on a table that mirrors a book, whatever order the rows come in, loading succeeds and
   * rebuilds exactly that book.
   */
  method Reopen(table: Table, rows: seq<Row>, inner: InMemoryQuoteBook, ghost book: set<Quote>)
    returns (reopened: SqliteQuoteBook)
    requires BookInv(book) && Mirrors(table, book)
    requires NoDuplicates(rows) && forall row :: row in rows <==> row in table.Values
    requires inner.Valid() && inner.Contents() == {}
    modifies inner
    ensures fresh(reopened) && reopened.inner == inner && reopened.table == table
    ensures reopened.Valid() && reopened.Contents() == book
  {
    ghost var quotes := QuotesOfRows(table, rows, book);
    var loaded := Load(DecodeAll(rows), inner);
    assert AllDecode(DecodeAll(rows), quotes);
    assert loaded.Ok?;
    reopened := new SqliteQuoteBook(table, inner);
  }

  /** The rows, in the order they are read, decode to the quotes of the book, each once. */
  lemma QuotesOfRows(table: Table, rows: seq<Row>, book: set<Quote>) returns (quotes: seq<Quote>)
    requires BookInv(book) && Mirrors(table, book)
    requires NoDuplicates(rows) && forall row :: row in rows <==> row in table.Values
    ensures AllDecode(DecodeAll(rows), quotes) && ConflictFree(quotes) && Elements(quotes) == book
  {
    quotes := [];
    for i := 0 to |rows|
      invariant |quotes| == i
      invariant forall j :: 0 <= j < i ==>
                  quotes[j] in book && rows[j] == ToRow(quotes[j]) && FromRow(rows[j]) == Ok(quotes[j])
    {
      assert rows[i] in table.Values;
      var k :| k in table && table[k] == rows[i];
      var q := QuoteOfKey(table, book, k);
      quotes := quotes + [q];
    }
    forall q | q in book ensures q in quotes {
      assert table[IdBytes(q.id)] in table.Values;
      var j :| 0 <= j < |rows| && rows[j] == ToRow(q);
      RowRoundTrip(q);
    }
  }
}
