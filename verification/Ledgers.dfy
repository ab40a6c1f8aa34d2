/** The append-only ledger: what the book and the wallet read of a block. */
module Ledgers {
  import opened Quotes

  datatype Block = Block(keyImages: seq<KeyImage>, outputs: seq<TxOut>)

  type Ledger = seq<Block>
}
