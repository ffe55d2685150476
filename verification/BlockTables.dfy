/** The block and transaction tables, with the row-level meaning of the statements that
    write them. Clock columns are left out. */
module BlockTables {
  import opened Int64
  import opened Wrappers

  datatype BlockRow = BlockRow(bitcoinBlock: int, hash: string, time: int)
  datatype TxRow = TxRow(bitcoinBlock: int, dnnBlock: int, position: nat, address: string, sum: nat)

  /** dnn_blocks by block_number, bitcoin_transactions by transaction_id, and the
      last_synced_block entry of sync_state (empty while there is none). */
  datatype Tables = Tables(blocks: map<int, BlockRow>, txs: map<string, TxRow>, lastSynced: string)

  const EMPTY: Tables := Tables(map[], map[], "")

  /** INSERT OR REPLACE: rows that clash on the primary key or on the unique Bitcoin block
      number go first. */
  function PutBlock(t: map<int, BlockRow>, n: int, row: BlockRow): map<int, BlockRow> {
    (map k | k in t && k != n && t[k].bitcoinBlock != row.bitcoinBlock :: t[k])[n := row]
  }

  /** INSERT OR IGNORE: nothing happens when the id is taken or another row already has
      this position in this Bitcoin block. */
  function PutTx(t: map<string, TxRow>, id: string, row: TxRow): map<string, TxRow> {
    if id in t || (exists k :: k in t && t[k].bitcoinBlock == row.bitcoinBlock && t[k].position == row.position)
    then t else t[id := row]
  }

  /** DELETE ... WHERE block_number > n */
  function DeleteAfter(t: map<int, BlockRow>, n: int): map<int, BlockRow> {
    map k | k in t && k <= n :: t[k]
  }

  /** The database handle. */
  class Database {
    var blocks: map<int, BlockRow>
    var txs: map<string, TxRow>
    var lastSynced: string

    function View(): Tables
      reads this
    {
      Tables(blocks, txs, lastSynced)
    }

    constructor ()
      ensures View() == EMPTY
    {
      blocks, txs, lastSynced := map[], map[], "";
    }

    method CreateOrUpdateDNNBlock(n: int, bitcoinBlock: int, hash: string, time: int)
      modifies this`blocks
      ensures blocks == PutBlock(old(blocks), n, BlockRow(bitcoinBlock, hash, time))
    {
      var clashing := set k | k in blocks && (k == n || blocks[k].bitcoinBlock == bitcoinBlock);
      blocks := blocks - clashing;
      blocks := blocks[n := BlockRow(bitcoinBlock, hash, time)];
    }

    method StoreBitcoinTransaction(id: string, bitcoinBlock: int, dnnBlock: int, position: nat, address: string, sum: nat)
      modifies this`txs
      ensures txs == PutTx(old(txs), id, TxRow(bitcoinBlock, dnnBlock, position, address, sum))
    {
      if id in txs {
        return;
      }
      if exists k :: k in txs && txs[k].bitcoinBlock == bitcoinBlock && txs[k].position == position {
        return;
      }
      txs := txs[id := TxRow(bitcoinBlock, dnnBlock, position, address, sum)];
    }

    method UpdateSyncState(height: int)
      modifies this`lastSynced
      ensures lastSynced == FormatInt(height)
    {
      lastSynced := FormatInt(height);
    }

    /** The stored hash for a Bitcoin block, if the block is in the table. */
    method GetBitcoinBlockHash(bitcoinBlock: int) returns (r: Option<string>)
      ensures r.Some? ==> exists k :: k in blocks && blocks[k].bitcoinBlock == bitcoinBlock && blocks[k].hash == r.value
      ensures r.None? ==> forall k :: k in blocks ==> blocks[k].bitcoinBlock != bitcoinBlock
    {
      if k: int :| k in blocks && blocks[k].bitcoinBlock == bitcoinBlock {
        return Some(blocks[k].hash);
      }
      return None;
    }

    method UpdateDNNBlock(n: int, bitcoinBlock: int, hash: string, time: int)
      modifies this`blocks
      ensures blocks == PutBlock(old(blocks), n, BlockRow(bitcoinBlock, hash, time))
    {
      CreateOrUpdateDNNBlock(n, bitcoinBlock, hash, time);
    }

    method InvalidateDNNBlocksAfter(n: int)
      modifies this`blocks
      ensures blocks == DeleteAfter(old(blocks), n)
    {
      blocks := map k | k in blocks && k <= n :: blocks[k];
    }
  }
}
