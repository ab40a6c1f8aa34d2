/** The SQLite book and the plain in-memory book are one book: same replies over every run, restarts included. */
module BookRefinement {
  import opened Basics
  import opened Sequences
  import opened Quotes
  import opened BookSpec
  import opened InMemoryBook
  import opened SqliteRows
  import opened SqliteBook

  datatype Op =
    | Add(quote: Quote)
    | RemoveById(id: QuoteId)
    | RemoveByKeyImage(keyImage: KeyImage)
    | RemoveByTombstone(currentBlockIndex: u64)
    | Get(pair: Pair, wanted: Range, limit: nat)
    | GetIds(only: Option<Pair>)
    | GetById(wantedId: QuoteId)
    | Num
    | Restart

  /** Replies over several pairs are compared as sets: the order between pairs is that of a hash map. */
  datatype Reply =
    | Added(result: Result<(), Error>)
    | Removed(quote: Result<Quote, Error>)
    | Drained(quotes: set<Quote>)
    | Listed(listing: seq<Quote>)
    | IdList(ids: set<QuoteId>)
    | Lookup(found: Option<Quote>)
    | Size(n: nat)
    | Restarted

  ghost predicate OpEffect(before: set<Quote>, op: Op, after: set<Quote>, reply: Reply) {
    match op
    case Add(q) => reply.Added? && AddEffect(before, q, after, reply.result)
    case RemoveById(id) => reply.Removed? && RemoveByIdEffect(before, id, after, reply.quote)
    case RemoveByKeyImage(k) => reply.Drained? && DrainedExactly(before, HasKeyImage(k), after, reply.quotes)
    case RemoveByTombstone(c) => reply.Drained? && DrainedExactly(before, ExpiredAt(c), after, reply.quotes)
    case Get(pair, wanted, limit) =>
      after == before && reply.Listed? && ListsQuotes(before, pair, wanted, limit, reply.listing)
    case GetIds(only) => after == before && reply.IdList? && forall id :: id in reply.ids <==> HoldsId(before, only, id)
    case GetById(id) => after == before && reply.Lookup? && Finds(before, id, reply.found)
    case Num => after == before && reply == Size(|before|)
    case Restart => after == before && reply.Restarted?
  }

  ghost predicate DrainedExactly(before: set<Quote>, p: Quote -> bool, after: set<Quote>, removed: set<Quote>) {
    forall q :: (q in removed <==> q in before && p(q)) && (q in after <==> q in before && !p(q))
  }

  /** The effects leave no freedom: a book and an operation fix the next book and the reply. */
  lemma OpDetermined(before: set<Quote>, op: Op, after: set<Quote>, reply: Reply, after': set<Quote>, reply': Reply)
    requires BookInv(before)
    requires OpEffect(before, op, after, reply) && OpEffect(before, op, after', reply')
    ensures after == after' && reply == reply'
  {
    match op
    case Add(q) => AddDetermined(before, q, after, reply.result, after', reply'.result);
    case RemoveById(id) =>
    case RemoveByKeyImage(k) => assert after == after' && reply.quotes == reply'.quotes;
    case RemoveByTombstone(c) => assert after == after' && reply.quotes == reply'.quotes;
    case Get(pair, wanted, limit) =>
      var p := Serves(pair, wanted);
      var all :| SortedListing(all, before, p) && reply.listing == if limit == 0 then all else all[..Min(limit, |all|)];
      var all' :| SortedListing(all', before, p)
        && reply'.listing == if limit == 0 then all' else all'[..Min(limit, |all'|)];
      SortedListingUnique(all, all');
    case GetIds(only) => assert reply.ids == reply'.ids;
    case GetById(id) =>
    case Num =>
    case Restart =>
  }

  /** The operations respect the digest's promise on ids, and block indices stay below 2^63. */
  ghost predicate OpsFit(ops: seq<Op>) {
    && (forall i :: 0 <= i < |ops| && ops[i].RemoveByTombstone? ==> ops[i].currentBlockIndex < TWO_63)
    && (forall i :: 0 <= i < |ops| && ops[i].Add? ==> !ops[i].quote.Degenerate())
    && (forall i, j :: 0 <= i < |ops| && 0 <= j < |ops| && ops[i].Add? && ops[j].Add? ==>
          ops[i].quote.id == ops[j].quote.id ==> Conflicts(ops[i].quote, ops[j].quote))
  }

  /** `books` is the run of the abstract book under `ops`, giving `replies`. */
  ghost predicate IsRun(books: seq<set<Quote>>, ops: seq<Op>, replies: seq<Reply>) {
    && |books| == |ops| + 1 && |replies| == |ops| && books[0] == {}
    && forall i :: 0 <= i < |ops| ==> OpEffect(books[i], ops[i], books[i + 1], replies[i])
  }

  ghost predicate OnlyAdded(book: set<Quote>, ops: seq<Op>) {
    forall q :: q in book ==> exists i :: 0 <= i < |ops| && ops[i] == Add(q)
  }

  ghost predicate CanPerform(op: Op, book: set<Quote>) {
    && (op.Add? ==> !op.quote.Degenerate() && IdFits(op.quote, book))
    && (op.RemoveByTombstone? ==> op.currentBlockIndex < TWO_63)
  }

  method PerformPlain(book: InMemoryQuoteBook, op: Op) returns (reply: Reply)
    requires book.Valid() && CanPerform(op, book.Contents())
    modifies book
    ensures book.Valid() && OpEffect(old(book.Contents()), op, book.Contents(), reply)
  {
    match op
    case Add(q) => var r := book.AddQuote(q); reply := Added(r);
    case RemoveById(id) => var r := book.RemoveQuoteById(id); reply := Removed(r);
    case RemoveByKeyImage(k) => var r := book.RemoveQuotesByKeyImage(k); reply := Drained(set q | q in r);
    case RemoveByTombstone(c) => var r := book.RemoveQuotesByTombstoneBlock(c); reply := Drained(set q | q in r);
    case Get(pair, wanted, limit) => var r := book.GetQuotes(pair, wanted, limit); reply := Listed(r);
    case GetIds(only) => var r := book.GetQuoteIds(only); reply := IdList(set id | id in r);
    case GetById(id) => var r := book.GetQuoteById(id); reply := Lookup(r);
    case Num => var r := book.NumScis(); reply := Size(r);
    case Restart => reply := Restarted;
  }

  /** The rows of a table in some order. */
  method ListRows(table: Table) returns (rows: seq<Row>)
    ensures NoDuplicates(rows) && forall row :: row in rows <==> row in table.Values
  {
    rows := [];
    var todo := table.Values;
    while todo != {}
      invariant todo <= table.Values
      invariant NoDuplicates(rows) && forall row :: row in rows <==> row in table.Values && row !in todo
    {
      var row :| row in todo;
      rows := rows + [row];
      todo := todo - {row};
    }
  }

  /** A restart gives a new book over a new inner one, loaded from the table. */
  method PerformSqlite(book: SqliteQuoteBook, op: Op) returns (next: SqliteQuoteBook, reply: Reply)
    requires book.Valid() && CanPerform(op, book.Contents())
    modifies book, book.inner
    ensures next == book || (fresh(next) && fresh(next.inner))
    ensures next.Valid() && OpEffect(old(book.Contents()), op, next.Contents(), reply)
  {
    next := book;
    match op
    case Add(q) => var r := book.AddQuote(q); reply := Added(r);
    case RemoveById(id) => var r := book.RemoveQuoteById(id); reply := Removed(r);
    case RemoveByKeyImage(k) => var r := book.RemoveQuotesByKeyImage(k); reply := Drained(set q | q in r);
    case RemoveByTombstone(c) => var r := book.RemoveQuotesByTombstoneBlock(c); reply := Drained(set q | q in r);
    case Get(pair, wanted, limit) => var r := book.GetQuotes(pair, wanted, limit); reply := Listed(r);
    case GetIds(only) => var r := book.GetQuoteIds(only); reply := IdList(set id | id in r);
    case GetById(id) => var r := book.GetQuoteById(id); reply := Lookup(r);
    case Num => var r := book.NumScis(); reply := Size(r);
    case Restart =>
      var rows := ListRows(book.table);
      var inner := new InMemoryQuoteBook();
      next := Reopen(book.table, rows, inner, book.Contents());
      reply := Restarted;
  }

  /** One operation on both books: one reply, and still one book. */
  method PerformBoth(a: InMemoryQuoteBook, b: SqliteQuoteBook, op: Op)
    returns (next: SqliteQuoteBook, reply: Reply, reply': Reply)
    requires a.Valid() && b.Valid() && a != b.inner && a.Contents() == b.Contents() && CanPerform(op, a.Contents())
    modifies a, b, b.inner
    ensures a.Valid() && next.Valid() && (next == b || (fresh(next) && fresh(next.inner)))
    ensures a.Contents() == next.Contents() && reply == reply'
    ensures OpEffect(old(a.Contents()), op, a.Contents(), reply)
  {
    ghost var before := a.Contents();
    reply := PerformPlain(a, op);
    next, reply' := PerformSqlite(b, op);
    OpDetermined(before, op, a.Contents(), reply, next.Contents(), reply');
  }

  lemma RunAppend(books: seq<set<Quote>>, ops: seq<Op>, replies: seq<Reply>, op: Op, after: set<Quote>, reply: Reply)
    requires IsRun(books, ops, replies) && OpEffect(books[|ops|], op, after, reply)
    ensures IsRun(books + [after], ops + [op], replies + [reply])
  {
  }

  lemma FitsNext(ops: seq<Op>, i: nat, book: set<Quote>)
    requires OpsFit(ops) && i < |ops| && OnlyAdded(book, ops)
    ensures CanPerform(ops[i], book)
  {
  }

  /** Running any operations on both books gives the same replies, those of the abstract book. */
  method Lockstep(ops: seq<Op>) returns (plain: seq<Reply>, sqlite: seq<Reply>)
    requires OpsFit(ops)
    ensures plain == sqlite
    ensures exists books :: IsRun(books, ops, plain)
  {
    var a := new InMemoryQuoteBook();
    var inner := new InMemoryQuoteBook();
    var b := new SqliteQuoteBook(map[], inner);
    plain, sqlite := [], [];
    ghost var books := [{}];
    for i := 0 to |ops|
      invariant a.Valid() && b.Valid() && fresh(a) && fresh(b) && fresh(b.inner) && a != b.inner
      invariant plain == sqlite
      invariant IsRun(books, ops[..i], plain) && books[i] == a.Contents() == b.Contents()
      invariant OnlyAdded(a.Contents(), ops)
    {
      ghost var before := a.Contents();
      FitsNext(ops, i, before);
      var r, r';
      b, r, r' := PerformBoth(a, b, ops[i]);
      StepOnlyAdded(before, ops, i, a.Contents(), r);
      RunAppend(books, ops[..i], plain, ops[i], a.Contents(), r);
      plain, sqlite := plain + [r], sqlite + [r'];
      books := books + [a.Contents()];
      assert ops[..i + 1] == ops[..i] + [ops[i]];
    }
    assert ops[..|ops|] == ops;
  }

  lemma StepOnlyAdded(before: set<Quote>, ops: seq<Op>, i: nat, after: set<Quote>, reply: Reply)
    requires i < |ops| && OnlyAdded(before, ops) && OpEffect(before, ops[i], after, reply)
    ensures OnlyAdded(after, ops)
  {
  }
}
