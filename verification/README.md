# DEQS, modelled in Dafny

A DEQS server keeps a book of quotes for the MobileCoin network. A quote is a signed contingent
input (SCI): an input that anyone may spend who meets the rules its owner signed, here an amount of
one token for an amount of another. This project models the parts of the system where correctness
is at stake and proves what they promise:

- **Quotes** (`Quotes.dfy`): how an SCI becomes a quote, what a fill costs, and the order of a book.
- **The book** (`BookSpec.dfy`, `InMemoryBook.dfy`): a book is a set of quotes; every operation has
  an effect on that set, and the map of sorted buckets is proved against those effects.
- **The SQLite book** (`Encoding.dfy`, `SqliteBook.dfy`, `BookRefinement.dfy`): rows, casts and
  blobs, the write-through book, its restart, and its equivalence with the plain one.
- **The ledger-synchronised book** (`SyncedBookSteps.dfy`, `SyncedBookTheorems.dfy`,
  `SyncedBook.dfy`, `SyncedBookRace.dfy`): a step system in which the ledger grows, clients add in
  three steps, and a thread purges; what all its runs keep; the code as runs of that system; and the
  race between an add and the thread.
- **The services** (`SciAdds.dfy`, `ClientService.dfy`, `PeerSync.dfy`): batches of adds under any
  schedule, the response to a client, gossip, and sync between peers.
- **The liquidity bot** (`LedgerScanner.dfy`, `LiquidityBot.dfy`, `BotResponses.dfy`,
  `BotSpec.dfy`, `BotLists.dfy`): the chunked wallet scanner, the bot's price, where a response sends
  what was submitted, the bot as a function of its commands and what its runs keep, and the code.

`Basics.dfy` and `Ledgers.dfy` hold shared types. `dafny verify dfyconfig.toml` checks the project.

## Reading the model

Objects that the source updates in place are classes; loops are loops. A hash map is visited, rows
are read, and parallel work is scheduled in an order that is left open (`:|`), so what is proved
holds for all of them. Each class method is proved against a function or a predicate over plain
values, and the theorems are about those.

What lies outside the model enters as data. The digest of an SCI and the verdict of its validation
are fields of `Sci`; an amount that `reveal_amount` cannot reveal is `None`; view-key scanning and
the SCI builder are functions given to the classes; times are parameters. Three hypotheses stand
for code outside this repository:

- `BookSpec.Expired`: tombstone validation fails exactly when the current block index has reached
  a nonzero tombstone block.
- `IdFits`, `NoCollision`, `Sane`: the digest tells the SCIs at hand apart.
- The lists of required outputs and of their amounts have one length, which validation ensures.

A ledger is never empty (the code subtracts one from its length). Reads of it do not fail.

Findings where the code falls short of what one would expect of it, each with its exact limit:

- An add checks the ledger and inserts in separate steps, so a quote can be put back after the
  thread has purged it, and then stays: `RaceHappens` gives such a run for every ledger and every
  quote it accepts, `LeftoverComesFromRace` that a spent quote is left if and only if such an add
  put it there, `LeakStep` which insertions do, and `PublishedHeightIsClean` that atomic adds leave
  none.
- The book ranks a quote with change by what is left after the change, so a cheaper quote can come
  second: `ChangeBreaksCheapestFirst`, and `ChangeMisranks` for exactly which quotes.
- The order is not transitive through a quote of nothing for nothing: `DegenerateQuotesCycle`.
- A partial-fill quote that offers nothing stops the program when asked for the price of nothing:
  `CostPanicsExactly`, with two such quotes in `CostPanics`.
- The SQL tombstone filter compares signed numbers: `SignedFilterExact`.
- The overlap test takes an empty range for one that overlaps: `OverlapExactWhenNonEmpty`.
- The bot loses outputs when a response to a refresh does not align with its request, or when an
  accepted entry of any response does not convert, and then everything from that entry on:
  `SubmitLossExact`, `ResubmitLossExact`, `SubmitLoses` and `ResubmitLoses` say exactly when.
- The comment in `quote-book/api/src/quote_book.rs:40` has the tombstone test the other way round
  from the code and its tests; the model follows the code.

## Model

| member | source | states |
|---|---|---|
| `Quotes.QuotesAreSupported` | quote-book/api/src/quote.rs:47-145 | an SCI makes a quote if and only if it is valid and has one required output, or one partial fill output and at most one output of change that the input covers |
| `Quotes.QuoteErrors` | quote-book/api/src/quote.rs:59-128 | an SCI that makes no quote is invalid, or has an amount that cannot be revealed, or is of an unsupported shape, in this order |
| `Quotes.QuoteAccountsForInput` | quote-book/api/src/quote.rs:74-144 | what a quote offers and what goes back as change is the whole input; the counter tokens are those of the one output the fulfiller pays |
| `Quotes.FlooredShare` | quote-book/api/src/quote.rs:258-268 | the quotient is the exact share of the amount rounded down |
| `Quotes.CostPanicsExactly` | quote-book/api/src/quote.rs:208-277 | on a quote made from an SCI, the price computation hits an assertion or divides by zero if and only if the quote is a partial fill that offers nothing and the amount is in its range |
| `Quotes.CostPanics` | quote-book/api/src/quote.rs:240-268 | it does stop: one genuine quote on an input of nothing, at the division, and one whose input is all change, at an assertion |
| `Quotes.CostIsFlooredPrice` | quote-book/api/src/quote.rs:208-277 | for a quote that offers something, the price is defined on exactly the offered range, no assertion fails, the 64-bit cast loses nothing, and the answer is the exact price rounded down |
| `Quotes.CostMonotone` | quote-book/api/src/quote.rs:258-268 | taking more never costs less |
| `Quotes.CostSplit` | quote-book/api/src/quote.rs:258-268 | cost(a) + cost(b) <= cost(a + b) <= cost(a) + cost(b) + 1 |
| `Quotes.RateFitsU128` | quote-book/api/src/quote.rs:309-310 | the cross-multiplied rates fit 128 bits |
| `Quotes.CompareFlips` | quote-book/api/src/quote.rs:296-317 | comparing the other way round gives the mirrored answer |
| `Quotes.CompareTransitive` | quote-book/api/src/quote.rs:296-317 | the order and its equality are transitive on all quotes but those of nothing for nothing, also when one side of a rate is zero |
| `Quotes.CompareEqual` | quote-book/api/src/quote.rs:296-317 | equal in the order only with the same pair, timestamp and id; genuine quotes whose digests do not collide are then the same quote |
| `Quotes.OrderMeaning` | quote-book/api/src/quote.rs:296-317 | quotes of one pair come by the real unit price, then older first, then by id; pairs by base token, then by counter token |
| `Quotes.DegenerateQuotesCycle` | quote-book/api/src/quote.rs:296-317 | a quote lies on a cycle with two genuine quotes that have a rate, all three with ids and inputs of their own, if and only if it is degenerate and neither first nor last of all by timestamp and id |
| `Quotes.PriceComparisonIsUniform` | quote-book/api/src/quote.rs:258-268 | exact prices compare the same way at every positive amount |
| `Quotes.NoDearerCostsNoMore` | quote-book/api/src/quote.rs:258-268 | a quote that is no dearer before rounding is no dearer after it |
| `Quotes.CheapestFirst` | quote-book/api/src/quote.rs:208-317 | a quote listed before one that offers its whole input never asks more than that one for an amount both can fill |
| `Quotes.ChangeBreaksCheapestFirst` | quote-book/api/src/quote.rs:98-113 | two quotes, one with change, where the one listed first asks more |
| `Quotes.ChangeMisranks` | quote-book/api/src/quote.rs:98-113 | a quote can come after a dearer one if and only if it has change, can fill something and asks something for it |
| `BookSpec.GenuineIdsFit` | quote-book/api/src/quote.rs:130-144 | among genuine quotes whose digests do not collide, one id belongs to one input and pair |
| `BookSpec.AddKeepsInv` | quote-book/in-memory/src/lib.rs:32-55 | an add keeps ids unique in the book and key images unique per pair, loses nothing, and leaves the input on offer |
| `BookSpec.AddDetermined` | quote-book/in-memory/src/lib.rs:32-55 | the effect of an add leaves no freedom, also in which existing quote it reports |
| `BookSpec.SortedListingUnique` | quote-book/api/src/quote_book.rs:50-66 | a set of quotes has one listing in price order |
| `BookSpec.ListingIsCheapestFirst` | quote-book/api/src/quote_book.rs:50-66 | in a listing, no entry asks more than a later one of its pair that offers its whole input, for any amount both can fill |
| `BookSpec.OverlapIsSharing` | quote-book/in-memory/src/lib.rs:182-208 | on non-empty ranges of every kind of bound, the test holds if and only if some 64-bit amount lies in both |
| `BookSpec.ServesExactly` | quote-book/in-memory/src/lib.rs:135 | for a range that is not empty, a quote that can fill anything is selected if and only if it is of the pair and can fill some amount of the range |
| `BookSpec.OverlapExactWhenNonEmpty` | quote-book/in-memory/src/lib.rs:182-208 | the test answers rightly against every non-empty range if and only if its own range is not empty |
| `InMemoryBook.InsertSorted` | quote-book/in-memory/src/lib.rs:51-53 | inserting into a sorted bucket keeps it sorted, adds exactly the quote, and fails only on one that compares equal |
| `InMemoryBook.RemoveSorted` | quote-book/in-memory/src/lib.rs:61-66 | removal from a sorted bucket takes out exactly the quote that is there |
| `InMemoryBook.TakeMatching` | quote-book/in-memory/src/lib.rs:131-142 | the loop returns the matching quotes in order, cut to the limit, 0 meaning all |
| `InMemoryBook.InMemoryQuoteBook.constructor` | quote-book/in-memory/src/lib.rs:23-29 | a new book is empty and valid |
| `InMemoryBook.InMemoryQuoteBook.AddQuote` | quote-book/in-memory/src/lib.rs:32-55 | either the quote is added or nothing changes and the conflicting quote of the same pair and key image is reported; buckets stay sorted, ids and key images unique; the insert assertion holds |
| `InMemoryBook.InMemoryQuoteBook.RemoveQuoteById` | quote-book/in-memory/src/lib.rs:57-71 | removes and returns exactly the quote with the id, or reports it missing and changes nothing; the remove assertion holds |
| `InMemoryBook.InMemoryQuoteBook.DrainWhere` | quote-book/in-memory/src/lib.rs:77-89 | takes out of all buckets, in any order, exactly the quotes that satisfy a test, and returns each once |
| `InMemoryBook.InMemoryQuoteBook.RemoveQuotesByKeyImage` | quote-book/in-memory/src/lib.rs:73-90 | exactly the quotes with the key image leave and are returned once each |
| `InMemoryBook.InMemoryQuoteBook.RemoveQuotesByTombstoneBlock` | quote-book/in-memory/src/lib.rs:92-120 | exactly the expired quotes leave and are returned once each |
| `InMemoryBook.InMemoryQuoteBook.GetQuotes` | quote-book/in-memory/src/lib.rs:122-145 | the price-ordered listing of the overlapping quotes of the pair, cut to the limit; for a range that is not empty, of the quotes that can fill anything exactly those of the pair that can fill some amount of it |
| `InMemoryBook.InMemoryQuoteBook.GetQuoteIds` | quote-book/in-memory/src/lib.rs:147-162 | the ids of all quotes, or of one pair, each once |
| `InMemoryBook.InMemoryQuoteBook.GetQuoteById` | quote-book/in-memory/src/lib.rs:164-174 | the quote with the id if and only if there is one |
| `InMemoryBook.InMemoryQuoteBook.NumScis` | quote-book/in-memory/src/lib.rs:176-179 | the number of quotes in the book |
| `Encoding.BytesRoundTrip` | quote-book/sqlite/src/sql_types.rs:47-67 | big-endian bytes of a given width decode to the number that was encoded, and have that width |
| `Encoding.BytesKeepOrder` | quote-book/api/src/basic_types.rs:20-22 | ids compare byte by byte as the numbers they stand for |
| `Encoding.CastRoundTrip` | quote-book/sqlite/src/models.rs:84-97 | the cast of an unsigned 64-bit number to a signed one and back loses nothing |
| `Encoding.SignedFilterExact` | quote-book/sqlite/src/lib.rs:259-264 | the signed tombstone filter agrees with the unsigned test for every tombstone if and only if the block index is below 2^63 |
| `SqliteRows.RowRoundTrip` | quote-book/sqlite/src/models.rs:80-132 | every quote survives its row |
| `SqliteRows.ReloadKeepsGenuine` | quote-book/sqlite/src/models.rs:113-132 | a reloaded quote is still the one its SCI and timestamp determine |
| `SqliteBook.TombstoneFilterSelectsExpired` | quote-book/sqlite/src/lib.rs:259-264 | the filter selects exactly the rows of the expired quotes |
| `SqliteBook.SqliteQuoteBook.constructor` | quote-book/sqlite/src/lib.rs:71-122 | over a table that mirrors the inner book, the book is valid and holds its contents |
| `SqliteBook.SqliteQuoteBook.AddQuote` | quote-book/sqlite/src/lib.rs:155-204 | the plain add, with table and inner book changing together or not at all and the reply of the inner book passed on |
| `SqliteBook.SqliteQuoteBook.RemoveQuoteById` | quote-book/sqlite/src/lib.rs:206-227 | the plain removal by id, with table and inner book changing together or not at all; the row count assertion holds |
| `SqliteBook.SqliteQuoteBook.RemoveQuotesByKeyImage` | quote-book/sqlite/src/lib.rs:229-248 | the plain purge by key image, with the rows deleted exactly those of the quotes removed |
| `SqliteBook.SqliteQuoteBook.RemoveQuotesByTombstoneBlock` | quote-book/sqlite/src/lib.rs:250-273 | the plain purge by tombstone, for block indices below 2^63; the row count assertion holds |
| `SqliteBook.SqliteQuoteBook.GetQuotes` | quote-book/sqlite/src/lib.rs:275-282 | the listing of the plain book |
| `SqliteBook.SqliteQuoteBook.GetQuoteIds` | quote-book/sqlite/src/lib.rs:284-289 | the ids of all quotes, or of one pair, each once |
| `SqliteBook.SqliteQuoteBook.GetQuoteById` | quote-book/sqlite/src/lib.rs:291-296 | the quote with the id if and only if there is one |
| `SqliteBook.SqliteQuoteBook.NumScis` | quote-book/sqlite/src/lib.rs:298-300 | the number of quotes in the book |
| `SqliteBook.Load` | quote-book/sqlite/src/lib.rs:92-113 | loading rows, in any order, succeeds if and only if all decode and no two conflict, and then gives exactly their quotes |
| `SqliteBook.Reopen` | quote-book/sqlite/src/lib.rs:71-122 | from the table of any valid book, reading the rows in any order rebuilds exactly that book |
| `BookRefinement.OpDetermined` | quote-book/api/src/quote_book.rs:25-66 | a book and an operation fix the next book and the reply |
| `BookRefinement.PerformPlain` | quote-book/in-memory/src/lib.rs:30-180 | each operation on the plain book has its abstract effect |
| `BookRefinement.PerformSqlite` | quote-book/sqlite/src/lib.rs:153-301 | each operation on the SQLite book, a restart included, has the same abstract effect |
| `BookRefinement.Lockstep` | quote-book/sqlite/src/lib.rs:153-301 | over every sequence of operations and restarts, the SQLite book and the plain book give the same replies, those of the abstract book |
| `SyncedBookSteps.RingErrorExact` | quote-book/synchronized/src/lib.rs:87-105 | the ring check passes if and only if every ring member is the output the ledger holds at its claimed index |
| `SyncedBookSteps.RefusalExact` | quote-book/synchronized/src/lib.rs:113-137 | the checks let a quote through if and only if the tombstone block of its own rules is 0 or not reached, no block contains its key image and its ring is in the ledger; it is stale if and only if one of the first two fails |
| `SyncedBookSteps.RingErrorKinds` | quote-book/synchronized/src/lib.rs:87-105 | which error a bad ring gives: for its lengths, or for the first member that is not where it claims to be |
| `SyncedBookSteps.OutputsInOrder` | quote-book/synchronized/src/lib.rs:94-99 | the outputs of the ledger are numbered through its blocks in order |
| `SyncedBookSteps.InitInv` | quote-book/synchronized/src/lib.rs:41-80 | the invariant holds for any non-empty ledger and any loaded book |
| `SyncedBookSteps.InsertKeepsInv` | quote-book/synchronized/src/lib.rs:121-140 | an insertion of a checked quote keeps the invariant: a quote that is spent where the thread is done comes from a race |
| `SyncedBookSteps.ThreadKeepsInv` | quote-book/synchronized/src/lib.rs:249-321 | every step of the thread keeps the invariant |
| `SyncedBookSteps.ExecKeepsInv` | quote-book/synchronized/src/lib.rs:113-321 | every run keeps the invariant |
| `SyncedBookTheorems.HistoryIsTrue` | quote-book/synchronized/src/lib.rs:113-141 | in every run, each quote in the book that was not loaded entered it at a step of its add, read for read as its origin says, and stayed since; each pending add made the reads it says |
| `SyncedBookTheorems.LeftoverComesFromRace` | quote-book/synchronized/src/lib.rs:113-141 | in every run, a quote in the book has outlived the removal of its key image by the thread if and only if the client that put it there looked for the key image before the spending block and inserted after the removal |
| `SyncedBookTheorems.LeakStep` | quote-book/synchronized/src/lib.rs:113-141 | exactly the insertion of a checked quote that conflicts with nothing, after the thread is done with its key image, leaves a spent quote in the book, and its check came before the spending block |
| `SyncedBookTheorems.ExpiredLeftoverIsYoung` | quote-book/synchronized/src/lib.rs:113-141 | in every run, a quote in the book that was expired at the last sweep was put there after that sweep by a client that had read the tip before its tombstone block |
| `SyncedBookTheorems.LeftoverIsPermanent` | quote-book/synchronized/src/lib.rs:286-321 | once the thread is done with its key image, a quote without tombstone stays in every later run without outside removals, unless the ledger spends the key image again |
| `SyncedBookTheorems.HeightMonotone` | quote-book/synchronized/src/lib.rs:249-281 | in every run the published height never falls and never passes the tip |
| `SyncedBookTheorems.PublishedHeightIsClean` | quote-book/synchronized/src/lib.rs:249-321 | with atomic adds, from any loaded book and in every run, once the height is positive no quote in the book is spent or expired in a block up to it |
| `SyncedBookTheorems.RemovalIsConserved` | quote-book/synchronized/src/lib.rs:256-318 | with atomic adds and no outside removals, every quote ever held is in exactly one place: the book, the hands of the thread, or the removal callback, once |
| `SyncedBookTheorems.RemovedIsRefusedForever` | quote-book/synchronized/src/lib.rs:121-136 | a quote that was held and removed is refused as stale in every later state and never comes back |
| `SyncedBook.SynchronizedQuoteBook.constructor` | quote-book/synchronized/src/lib.rs:41-80 | the book starts in the initial state of the step system |
| `SyncedBook.SynchronizedQuoteBook.ValidateQuoteRingMembers` | quote-book/synchronized/src/lib.rs:87-105 | the first ring fault, and none if and only if every member is in the ledger at its index |
| `SyncedBook.SynchronizedQuoteBook.AddQuote` | quote-book/synchronized/src/lib.rs:113-141 | a quote whose tombstone is ahead, whose input is unspent and whose ring is in the ledger is added unless another is in its way; a stale one is answered as stale; a refused one changes nothing; and the call is one atomic add of the step system |
| `SyncedBook.SynchronizedQuoteBook.LoadBlockData` | quote-book/synchronized/src/lib.rs:286-321 | one block: the quotes it spends are removed and reported, key image after key image |
| `SyncedBook.SynchronizedQuoteBook.PurgeBlock` | quote-book/synchronized/src/lib.rs:301-316 | the loop over the key images of a block |
| `SyncedBook.SynchronizedQuoteBook.Sweep` | quote-book/synchronized/src/lib.rs:258-278 | the expired quotes are removed and reported and the last block read is published |
| `SyncedBook.SynchronizedQuoteBook.RunOnce` | quote-book/synchronized/src/lib.rs:249-281 | one turn of the outer loop |
| `SyncedBook.TurnIsRun` | quote-book/synchronized/src/lib.rs:249-281 | one undisturbed turn of the code is a run of the steps of the thread |
| `SyncedBook.TurnMeaning` | quote-book/synchronized/src/lib.rs:249-281 | a turn reads the ledger to its end, keeps exactly the quotes that no new block spends and, if there was one, whose tombstone is ahead, and publishes the last block |
| `SyncedBookRace.TurnRemoves` | quote-book/synchronized/src/lib.rs:286-321 | a turn after the spending block removes and reports the quote once |
| `SyncedBookRace.RaceHappens` | quote-book/synchronized/src/lib.rs:113-141 | for every ledger and every quote it accepts, a run after which the quote is in the book though it was reported removed and is spent in the block of the published height |
| `SciAdds.CandidateIsGenuine` | quote-book/api/src/quote_book.rs:18-23 | a quote added from an SCI is the one the SCI and the timestamp determine |
| `SciAdds.GenuineIsCandidate` | server/src/p2p/mod.rs:358 | a genuine quote that the ledger does not refuse comes out of its SCI and timestamp unchanged |
| `SciAdds.AddSci` | quote-book/api/src/quote_book.rs:18-23 | the errors of construction and of the ledger are passed on, a conflict names the quote in the way, and otherwise the quote is in; the book stays sound |
| `SciAdds.AddAll` | server/src/client_service.rs:107-115 | adds run in any order: each has the reply it is owed and the book grows by exactly the winners |
| `SciAdds.ExactlyOneWinner` | server/src/client_service.rs:107-115 | per acceptable pair and key image that the book did not hold, exactly one entry is created, and every other carries that winner as already existing |
| `SciAdds.HeldBeforeWins` | server/src/client_service.rs:107-115 | an add for an input the book already held is told of the quote that was there |
| `SciAdds.GrowthIsWinners` | server/src/client_service.rs:107-115 | the book grew by exactly the created quotes, each created once |
| `ClientService.ClientService.SubmitQuotes` | server/src/client_service.rs:76-170 | a request is refused as a whole, for its length, the clock or an entry that does not convert, with the status of that reason, and nothing changes; or every SCI is answered at its index under any schedule, and exactly the new quotes are announced, in order |
| `ClientService.ClientService.Respond` | server/src/client_service.rs:116-169 | three lists aligned with the results, with the status code, the message and the quote of each |
| `ClientService.JudgementMeaning` | server/src/client_service.rs:109-113 | an SCI is taken to the book if and only if it is not below the minimum volume of its token, is supported, is not outdated and has its ring in the ledger |
| `ClientService.StatusSaysWhy` | api/src/convert/quote_book_error.rs:6-17 | an entry is created or known already if and only if nothing but a quote in the book stands against its SCI, and every other status tells what does |
| `ClientService.HeldIsReported` | server/src/client_service.rs:151-155 | an SCI for whose pair and input the book held a quote is answered as known already, with that quote |
| `ClientService.ResponseSuitsBot` | server/src/client_service.rs:117-169 | a response is well formed, reports as created only the SCI that was submitted, and as known already the quote that was held |
| `ClientService.SubmitToService` | liquidity-bot/src/lib.rs:467-557 | the bot submitting its queue to this service: its assertion holds, the queue ends up listed or rejected, nothing is lost, also when the request is refused, and an output for whose input the service held a quote is listed with that quote |
| `ClientService.ResubmitToService` | liquidity-bot/src/lib.rs:559-673 | the bot refreshing its listings with this service: its assertion holds, what is due ends up listed or rejected, nothing is lost, also when the request is refused, and an output for whose input the service held a quote stays listed with that quote |
| `PeerSync.AnswerAllQuoteIds` | server/src/p2p/mod.rs:206-210 | exactly the ids of the book |
| `PeerSync.AnswerQuotesById` | server/src/p2p/mod.rs:212-224 | too many ids are refused; otherwise each is answered with the quote of the book that has it |
| `PeerSync.AsPeer` | server/src/p2p/mod.rs:205-224 | the answers of a node are those of a peer that answers from its book |
| `PeerSync.HandleSciQuoteAdded` | server/src/p2p/mod.rs:256-270 | gossip adds the quote its SCI and timestamp determine, with the errors and conflicts of an add, whatever else was sent, and agrees with what was sent if and only if that was genuine |
| `PeerSync.FetchQuotes` | server/src/p2p/rpc.rs:86-130 | an answer of the wrong length is an error |
| `PeerSync.FetchMissing` | server/src/p2p/mod.rs:303-393 | one request for each chunk of 100 ids and one for the rest; what is collected is what the requests yield in order, a failed one nothing |
| `PeerSync.CollectedAnswers` | server/src/p2p/mod.rs:303-393 | from a peer that answers from a book, every id of the book yields its quote: no chunk is too long |
| `PeerSync.Difference` | server/src/p2p/mod.rs:284-292 | exactly the remote ids that are not local, in ascending order |
| `PeerSync.Tabulate` | server/src/p2p/mod.rs:397-425 | each result is counted in exactly one of the four counters |
| `PeerSync.AnswerIsCounted` | server/src/p2p/mod.rs:326-389 | in which counter an answer ends up: missing if and only if the peer does not have the id, added or duplicate if and only if the SCI is supported and the ledger accepts it, an error otherwise |
| `PeerSync.SyncQuotesFromPeer` | server/src/p2p/mod.rs:277-442 | whatever the peer answers, local quotes stay and the book stays sound; with a peer that serves a sound and current book, the two are synced, nothing is missing or fails, the added and the duplicates make up the missing ids, and the added are the growth of the book |
| `PeerSync.SyncMeaning` | server/src/p2p/mod.rs:277-395 | for any order of chunks and adds, the result lies between the local book and the union and covers every pair and key image of either |
| `PeerSync.SyncBothWays` | server/src/p2p/mod.rs:277-395 | two nodes on one ledger sync, A from B and then B from A, each answering from its own book: both end up covering what either covered, neither loses a quote, nothing fails, and both are the exact union if and only if no input was on offer in both under different quotes |
| `PeerSync.SyncIsUnion` | server/src/p2p/mod.rs:277-395 | a sync gives the exact union, timestamps included, if and only if no input is on offer in both books under different quotes |
| `PeerSync.ConvergeToUnion` | server/src/p2p/mod.rs:277-395 | both books end as the exact union under the same condition |
| `PeerSync.OneAddHappens` | server/src/p2p/mod.rs:257-259 | an add from gossip is a batch of one |
| `PeerSync.EventKeepsGenuine` | quote-book/sqlite/src/models.rs:113-132 | client submits, gossip, sync, removals and reloads keep every quote the one its SCI and timestamp determine |
| `PeerSync.EveryQuoteIsGenuine` | server/src/p2p/mod.rs:256-270 | the same for every quote of every book a node can reach from an empty one |
| `LedgerScanner.AccountLedgerScanner.constructor` | liquidity-bot/src/mini_wallet/mod.rs:51-64 | without a saved state, scanning starts at the default block with nothing held |
| `LedgerScanner.AccountLedgerScanner.Restart` | liquidity-bot/src/mini_wallet/mod.rs:51-64 | a restart goes on from the saved state, which is itself a fold |
| `LedgerScanner.ScanErrors` | liquidity-bot/src/mini_wallet/account_ledger_scanner.rs:247-255 | scanning a block goes through if and only if every output scans, and otherwise gives the error of the first that does not |
| `LedgerScanner.ScanMatches` | liquidity-bot/src/mini_wallet/account_ledger_scanner.rs:247-262 | what it gives is the match of every output that is ours and nothing else |
| `LedgerScanner.ScanInOrder` | liquidity-bot/src/mini_wallet/account_ledger_scanner.rs:247-262 | in the order of the outputs |
| `LedgerScanner.AccountLedgerScanner.ProcessBlock` | liquidity-bot/src/mini_wallet/account_ledger_scanner.rs:240-274 | the matches of all outputs of the block that are ours, in order, if every output scans, and otherwise the error of the first that does not |
| `LedgerScanner.AccountLedgerScanner.ScanBlocks` | liquidity-bot/src/mini_wallet/account_ledger_scanner.rs:160-184 | one result per block of the chunk, in order, if and only if all of them scan |
| `LedgerScanner.AccountLedgerScanner.TakeSpent` | liquidity-bot/src/mini_wallet/account_ledger_scanner.rs:193-214 | the held outputs the block spends leave the map and are returned, each once |
| `LedgerScanner.AccountLedgerScanner.TakeBlock` | liquidity-bot/src/mini_wallet/account_ledger_scanner.rs:189-229 | one block after another: the state stays the fold, the index assertion holds, and one event follows the last |
| `LedgerScanner.AccountLedgerScanner.ScanChunk` | liquidity-bot/src/mini_wallet/account_ledger_scanner.rs:128-238 | a turn succeeds if and only if every block of the chunk scans; then it moves to the end of the chunk, stays the fold over the blocks read, and saves; otherwise it changes nothing |
| `LedgerScanner.FoldDomain` | liquidity-bot/src/mini_wallet/account_ledger_scanner.rs:189-222 | the map holds a key image if and only if some scanned block has an output of ours with it and no later block spent it |
| `LedgerScanner.FoldValue` | liquidity-bot/src/mini_wallet/account_ledger_scanner.rs:216-222 | and holds for it the last such output |
| `LedgerScanner.ReceivedMeaning` | liquidity-bot/src/mini_wallet/account_ledger_scanner.rs:247-262 | what a block brings for a key image, in terms of its outputs |
| `LedgerScanner.HeldIsReceivedUnspent` | liquidity-bot/src/mini_wallet/account_ledger_scanner.rs:189-222 | on a ledger that spends outputs only after creating them, the map holds exactly what was received and not spent |
| `LedgerScanner.EventReceivedMeaning` | liquidity-bot/src/mini_wallet/account_ledger_scanner.rs:223-227 | an event tells the index of its block and, as received, exactly the outputs of the block that are ours |
| `LedgerScanner.EventSpentMeaning` | liquidity-bot/src/mini_wallet/account_ledger_scanner.rs:193-229 | an event reports as spent exactly the outputs held before the block whose key images it contains |
| `LedgerScanner.Run` | liquidity-bot/src/mini_wallet/account_ledger_scanner.rs:128-238 | for any mix of ledger growth, chunks and restarts, the index reached and the start of the session are those the actions determine, the state is the block-by-block fold, and the events of the session are one per block in order |
| `LedgerScanner.ScannerCatchesUp` | liquidity-bot/src/mini_wallet/account_ledger_scanner.rs:128-238 | if no block fails to scan, then after any run enough chunks bring the scanner to the end of the ledger |
| `LedgerScanner.CrashResumes` | liquidity-bot/src/mini_wallet/account_ledger_scanner.rs:128-238 | after a crash right after a chunk that went through, the scanner goes on where it was |
| `LiquidityBot.RoundingsDoNotCompound` | liquidity-bot/src/lib.rs:681-689 | rounding the whole up and a part of it down leaves the part within one token of its exact price |
| `LiquidityBot.BotPriceIsFair` | liquidity-bot/src/lib.rs:681-689 | for a quote of the bot, any fill costs within one counter token of the exact rate, and a full fill never less than it |
| `BotSpec.OfferIsFair` | liquidity-bot/src/lib.rs:675-760 | what is queued is the output with an SCI that offers all of it for the counter token of its token, priced so at the rate of the token, for a builder that offers all of the output |
| `BotSpec.OfferNoneExactly` | liquidity-bot/src/lib.rs:675-760 | no offer is made if and only if the token is not traded, or the price rounded up is not a u64, or the builder has no SCI for it |
| `BotResponses.SubmittedIsListedOrDropped` | liquidity-bot/src/lib.rs:482-554 | as far as the loop over a response gets, each submitted output goes to exactly one of listed or rejected |
| `BotResponses.ResubmittedIsListedOrDropped` | liquidity-bot/src/lib.rs:605-670 | the same for outputs submitted again |
| `BotResponses.HonestEnding` | liquidity-bot/src/lib.rs:482-554 | against an honest aligned response no assertion fails, and the loop gets through if and only if the response is well formed |
| `BotResponses.StopMeaning` | liquidity-bot/src/lib.rs:482-554 | the loop gets past an entry if and only if it and all before it pass: one created or known already carries a quote, and a created one that of the SCI submitted |
| `BotResponses.EndingMeaning` | liquidity-bot/src/lib.rs:482-554 | it ends normally if and only if all entries pass, with an error if the first that does not has no quote, and at the assertion otherwise |
| `BotResponses.NewlyListedExactly` | liquidity-bot/src/lib.rs:490-534 | the newly listed outputs are exactly those of the entries created or known already, with their quotes and times |
| `BotResponses.StillListedExactly` | liquidity-bot/src/lib.rs:611-653 | the same for outputs submitted again |
| `BotResponses.SubmittedOrLost` | liquidity-bot/src/lib.rs:482-554 | each submitted output is listed, rejected, or among those from the entry on at which the loop stopped |
| `BotResponses.ResubmittedOrLost` | liquidity-bot/src/lib.rs:605-670 | the same for outputs submitted again |
| `BotResponses.SubmitLossExact` | liquidity-bot/src/lib.rs:482-554 | an aligned and honest response loses no submitted output if and only if it is well formed |
| `BotResponses.ResubmitLossExact` | liquidity-bot/src/lib.rs:605-670 | the same for outputs submitted again |
| `BotSpec.QueueFailsExactly` | liquidity-bot/src/lib.rs:423-465 | the update fails if and only if an output of a traded token that is not tracked cannot be offered |
| `BotSpec.UnlistExactly` | liquidity-bot/src/lib.rs:318-329 | a listed output stays if and only if no spent output has its key image |
| `BotSpec.DueExactly` | liquidity-bot/src/lib.rs:564-572 | an output is due if and only if more than the limit has passed since its last submission |
| `BotSpec.SubmitEntry` | liquidity-bot/src/lib.rs:490-552 | an entry created or known already leaves its output listed with the quote and the time, any other status leaves nothing with its key image listed, and the queue is empty |
| `BotSpec.ResubmitEntry` | liquidity-bot/src/lib.rs:611-669 | the same for an output that is due |
| `BotSpec.FreshStays` | liquidity-bot/src/lib.rs:564-573 | what is not due stays as it is, whatever the response |
| `BotSpec.QueueGrowsExactly` | liquidity-bot/src/lib.rs:423-465 | an update that goes through changes the queue if and only if an output of a traded token came in that is not tracked |
| `BotSpec.BlockMeaning` | liquidity-bot/src/lib.rs:234-273 | after a block, the queue is submitted if and only if something new came in and all of it can be offered |
| `BotSpec.TickMeaning` | liquidity-bot/src/lib.rs:295-303 | after the timer, an answered submission leaves the queue empty, and what was submitted in the last ten minutes stays |
| `BotSpec.RunDistinct` | liquidity-bot/src/lib.rs:225-314 | in every run, whatever the responses, no key image is tracked twice |
| `BotSpec.RunBalanced` | liquidity-bot/src/lib.rs:225-314 | in every run, whatever the responses, an output is as often queued as it is pending or listed at the end, or was spent while listed, rejected by a response, or lost |
| `BotSpec.ReceivedIsQueued` | liquidity-bot/src/lib.rs:225-314 | in every run, an output received in a traded token by a block whose update went through has been queued under its key image |
| `BotSpec.QueuedWasReceived` | liquidity-bot/src/lib.rs:225-314 | in every run, what was queued was received in a token the bot trades |
| `BotSpec.SubmitLoses` | liquidity-bot/src/lib.rs:467-557 | an honest response to a submission loses outputs if and only if it is aligned but not well formed |
| `BotSpec.ResubmitLoses` | liquidity-bot/src/lib.rs:559-673 | an honest response to a refresh loses outputs if and only if something was due and the response is not well formed |
| `BotLists.LiquidityBotTask.UnlistSpentTxOuts` | liquidity-bot/src/lib.rs:318-329 | exactly the listed outputs in the spent list leave and are returned, the others keep their order |
| `BotLists.LiquidityBotTask.CreatePendingTxOut` | liquidity-bot/src/lib.rs:675-689 | the output with the SCI that the builder makes at the rate of its token, or none if the token is not traded, the price does not fit 64 bits or the SCI cannot be built |
| `BotLists.LiquidityBotTask.UpdatePendingFromReceived` | liquidity-bot/src/lib.rs:423-465 | received outputs of traded tokens that are not tracked are queued, up to the first that cannot be offered, in which case and only then it fails |
| `BotLists.LiquidityBotTask.SubmitPendingTxOuts` | liquidity-bot/src/lib.rs:467-557 | without an aligned response nothing changes; otherwise the queue is emptied into listed and rejected up to the first accepted entry that does not convert or is for another SCI, and the rest is lost, with an error or a failed assertion |
| `BotLists.LiquidityBotTask.Partition` | liquidity-bot/src/lib.rs:564-573 | the listed outputs split into those due and those not, in order |
| `BotLists.LiquidityBotTask.ResubmitListedTxOuts` | liquidity-bot/src/lib.rs:559-673 | without a response all stay listed, up to order; a misaligned one loses those due; otherwise the accepted stay up to the first accepted entry that does not convert or is for another SCI, and the rest is lost |
| `BotLists.LiquidityBotTask.HandleBlock` | liquidity-bot/src/lib.rs:234-273 | unlist, queue, and submit if the update went through and queued something, with the state and the ending that follow |
| `BotLists.LiquidityBotTask.HandleTick` | liquidity-bot/src/lib.rs:295-303 | refresh, then submit unless an assertion failed, with the state and the ending that follow |
| `BotLists.Run` | liquidity-bot/src/lib.rs:225-314 | any run of the bot gives the lists of the bot as a function of its commands, about which the run theorems speak, and they are distinct |

## Left out

- Cryptography: validation of SCIs, amount disclosure, digests, view-key scanning, key images, ring sampling and the SCI builder are data or functions given to the model; the builder, which draws a random ring, is a function of the output, the amount and the token.
- libp2p, gRPC, the message bus, streaming of updates, admin services, configuration, logging, metrics and sleeping: plumbing. A peer is a function from requests to answers, so its book does not change during a sync.
- Diesel, connection pools, the write-ahead log and migrations: a table is a map by id, and a transaction commits or leaves it as it was.
- The internals of `rust_decimal`: a rate is an exact real number, and an amount that does not fit 64 bits is the conversion error.
- Protobuf conversions of quotes and messages: one-step field copies. A message that does not convert is `None`.
- Lock poisoning, failed ledger reads and failed commits: they end the process or a request, or are retried, and change no book.
- Fulfilled SCIs, fill percentages and statistics of the bot (`look_for_fulfilled_scis`, `fill_percents`, `Stats`): they change no list.
- Degenerate quotes: a book never holds a quote of nothing for nothing. The source accepts one, and then the order of its sorted sets is unspecified (`DegenerateQuotesCycle`).
- The inner book under the SQLite and the synchronised book is the in-memory one.
- InMemoryBook.InMemoryQuoteBook.AddQuote: not for degenerate quotes, as above; needs that an id already in the book belongs to the same pair and key image, which holds for genuine quotes as long as the digest does not collide.
- SqliteBook.SqliteQuoteBook.RemoveQuotesByTombstoneBlock: for block indices below 2^63 only; beyond that the filter and the inner book differ (`SignedFilterExact`).
- SyncedBookTheorems.PublishedHeightIsClean: for a positive height only; before the first sweep the height is 0 and says nothing.
- SyncedBook.SynchronizedQuoteBook.RunOnce: a turn with nothing else running; interleaved turns are in the step system only.
- SciAdds.AddAll: the ledger stays as it is and nothing is removed while a batch runs.
- PeerSync.SyncQuotesFromPeer: at most ten requests at a time in the source; any number here.
- LedgerScanner.AccountLedgerScanner.ScanChunk: the state file is replaced in one step; a crash in the middle of writing it is not modelled.
- LedgerScanner.AccountLedgerScanner.Restart: a crash in the middle of a chunk is a restart from the last save, and the events told since then are told again in the next session.
- Quotes.ChangeMisranks: not for the quote that is first of all by timestamp and id, which can only be misranked by rate.
- SqliteBook.SqliteQuoteBook.constructor: takes a table that mirrors the inner book; the loading is in `Load` and `Reopen`.
- SqliteBook.SqliteQuoteBook.AddQuote: not for degenerate quotes, as above.
- SyncedBook.SynchronizedQuoteBook.AddQuote: not for degenerate quotes, as above.
- BookRefinement.Lockstep: replies that range over several pairs are compared as sets, since a hash map orders the pairs.
- BotLists.LiquidityBotTask.CreatePendingTxOut: one outcome for all failures, where the source tells them apart.
