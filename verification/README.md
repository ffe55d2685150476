# Verified model of the DNN node's core

DNN nodes number Bitcoin blocks from a genesis height and give every valid self-transfer
in a block a position. A name is bound to a (block, position) pair, written either in
numbers or as a short word code. All nodes must therefore agree on headers, positions,
stored rows and event versions, even though peers, relays and lookups may answer anything
or nothing. This project models the parts of the node on which that agreement rests and
proves what they keep.

Everything is parametric over the hash functions, the genesis height and the word list.
Integer widths are written out where they matter: the 32-bit accumulator of the bit
regrouper, the 30-bit checksum register and the 64-bit block arithmetic of the name codec.

| files | component |
|---|---|
| `ProofOfWork`, `Merkle`, `MerkleShape`, `HeaderChain`, `HeaderClient`, `HeaderProgress` | peer-to-peer client: work check, Merkle root, header cache and how far downloads get |
| `Bits`, `Bech32Checksum`, `ConvertBits`, `Bech32Address` | Bech32 and Bech32m (BIP-173, BIP-350) |
| `Arith`, `Int64`, `PositionCodec`, `StringOrder`, `WordList`, `NameCodec`, `Notation` | names of (block, position) pairs |
| `SelfTransfer`, `TxOrder`, `Positions` | which transactions count, and in which order |
| `BlockTables`, `BlockLedger`, `BlockSync`, `SyncProgress`, `StoredRows` | block and transaction tables, block-by-block sync, how rounds get on, what the stored rows say |
| `Reorg`, `ReorgCache`, `ReorgRuns` | reorganisation check and recovery: one check, its header cache, whole runs |
| `Wrappers`, `Separator` | shared by several components |
| `EventStore`, `RelayMerge`, `Rebroadcast` | addressable events, concurrent relay answers, rebroadcast limits |

The shape follows the code: objects whose methods change fields are classes
(`P2PClient`, `Database`, `Syncer`, `ReorgHandler`, `EventDatabase`, `BatchQuery`,
`Rebroadcaster`), loops are loops, the sort works in place on an array. Each such method
is tied to a specification function or relation, and the laws are lemmas about those, for
every input, every run, every schedule and every cut.

Main results, hardest first:

- **Header cache.** Whatever peers answer, and however height rounds, targeted syncs and
  clears follow each other, the cache is a hash chain from the checkpoint, each entry past
  the work check; it only grows between clears; the two maps are inverse to each other
  exactly when its hashes are distinct; and these are distinct and none of them the
  checkpoint's exactly when no two headers collide and none hashes to the checkpoint.
  And it does grow: whatever mix of full batches, silence and spoiled batches answers, a
  targeted sync caches exactly the chain up to its target or up to what the answers brought,
  and a height round takes the longer of the first two peers that deliver in full.
- **Merkle root.** Lists of any two lengths share a root if their padded lists agree, and
  only then unless the pair hash collides at nodes of the two trees. The root is also the
  recursion that splits the list at the largest power of two below its length.
- **Checksum.** A created checksum always verifies; any burst of at most six wrong symbols,
  in data of any length, changes it. One wrong symbol is a burst of one. The
  generator polynomial of BIP-173, its doubles and their sums leave nothing in the register.
- **Regrouper.** The 8-to-5 and back trip gives the bytes back although the accumulator
  wraps, and for general widths the trip works exactly when the padding is shorter than an
  input group; bit by bit, the stream comes out in the order in which it went in. An address
  determines its human-readable part, version and program.
- **Codec.** Decoding inverts encoding for all in-range pairs exactly when the word list is
  prefix-free; encoding inverts decoding exactly when the cycle digits are canonical and the
  block number did not wrap; numeric and word forms never collide. Position letters are the
  lowercase strings in dictionary order, shorter ones first. A number with the suffix `qt`
  is read as zero whenever the suffix map is walked with `t` first.
- **Positions.** The comparator is a strict total order, so the positions of a block do not
  depend on the order in which it lists its transactions or on how the sort works: the
  greater digit sum first, and of equal sums the greater id.
- **Sync.** With hash and block lookups failing anywhere and the process dying between any
  two row writes, no run leaves a gap or a wrong row at or below its mark, and a finished
  round repairs what a cut left. Two nodes hold the same rows for every block up to the
  lower of their marks, wherever they were stopped; nodes stopped inside no round, with
  equal marks, hold equal tables. A round ends at its batch, at the tip, or in front of the
  first block that fails or diverges, and rounds that are not hindered reach the tip. The
  rows are, field by field, the self-transfers of the chain's blocks and their ranks.
- **Reorganisation.** A check passes exactly when every stored row of the last 1008 blocks has
  the hash of the REST source, or of the peer-to-peer client where REST says nothing.
  The detected height is the fork. Recovery asks only the peer-to-peer
  client, whose header cache does not change between clears, so it mends the check window
  exactly when the hashes cached before it, from the fork to the tip, are the chain's; rows
  that were synced from that cache are put back as they were. Given sources that tell the
  chain, in runs of cut sync rounds and checks in any order a row is right exactly when it
  was right at the start, was synced since, or lay in the window of some check; and a single
  row below the lowest window tells whether all are.
- **Events.** The tables are a last-writer-wins set that keeps ties: they depend only on the
  set of delivered events, and every stored row tells the event it came from.
- **Relay merge.** Every interleaving of the goroutines ends with the same greatest claims.
- **Rebroadcast.** An attempt sends an event out exactly when it was not sent out in the
  fifteen minutes before; an event can go out
  twice exactly when its first broadcast came early enough before its timestamp.

Where code and comments disagree, the model follows the code: the relay merge keeps the
*latest* claim (the comment at `internal/sync/syncer.go:777` says the first wins);
the height of a round is called a median but with at most two answers is always the higher
one; name events are filed under their *last* `d` tag, connection and metadata events under
their first; and the check window of a reorganisation is counted from the reported tip,
although the check is triggered by the sync mark.

## Model

| member | source | states |
|---|---|---|
| ProofOfWork.CountLeadingZeros | internal/bitcoin/p2p_client.go:506-517 | the nested loops count the zero bits above the highest set bit of the hash read as a little-endian number |
| ProofOfWork.LeadingZerosIsThreshold | internal/bitcoin/p2p_client.go:506-518 | at least z leading zeros exactly when the number is below 2^(8n - z), for hashes of any length n |
| ProofOfWork.EnoughWorkIsBelowTarget | internal/bitcoin/p2p_client.go:506-522 | a 32-byte hash passes the check exactly when its value is below 2^196 |
| ProofOfWork.EnoughWorkByBytes | internal/bitcoin/p2p_client.go:506-522 | byte by byte: the seven most significant bytes are zero and the eighth is below 16 |
| Merkle.CalcMerkleRoot | internal/bitcoin/p2p_client.go:1061-1090 | the level loop terminates for every length, gives the root of the recursive tree and leaves its input alone |
| Merkle.NextLevel | internal/bitcoin/p2p_client.go:1074-1087 | one pass turns level d of the tree into level d + 1, an odd last node paired with itself |
| Merkle.ValidateBlockMerkleRoot | internal/bitcoin/p2p_client.go:1036-1057 | accepted exactly when there are transactions and their root is the header's |
| Merkle.RootCommitsToLeaves | internal/bitcoin/p2p_client.go:1061-1090 | equal roots over equally many leaves mean equal leaves or an explicit collision of the pair hash |
| Merkle.OddTailIsAmbiguous | internal/bitcoin/p2p_client.go:1075-1078 | repeating the last of an odd number of leaves gives the same root, so the root alone does not fix the length |
| MerkleShape.SameRootExactly | internal/bitcoin/p2p_client.go:1034-1090 | for any two lengths: equal padded lists (of leaves, or of nodes at the height difference) give equal roots, and equal roots give equal padded lists or a collision of the pair hash at two nodes |
| MerkleShape.PaddingHasSameRoot | internal/bitcoin/p2p_client.go:1075-1086 | every list shares its root with its padding, whose length is a power of two: repeated subtrees such as 6 leaves against 8 |
| MerkleShape.RootOfHalves | internal/bitcoin/p2p_client.go:1061-1090 | the root of a list split at a power of two pairs the left root, first, with the right one, which is paired with itself until it is as high; with the root of one hash this fixes every root |
| MerkleShape.RootOfTwo | internal/bitcoin/p2p_client.go:1080-1084 | of two transactions the first hash goes in first |
| HeaderClient.P2PClient.FindTip | internal/bitcoin/p2p_client.go:444-464 | scanning the cache finds the highest entry and its hash, or the checkpoint |
| HeaderClient.P2PClient.CheckHeader | internal/bitcoin/p2p_client.go:498-522 | a header is valid exactly when it names the previous hash and has enough work |
| HeaderClient.P2PClient.StoreLocally | internal/bitcoin/p2p_client.go:491-534 | a batch is kept in the local maps in full, or the peer has failed |
| HeaderClient.P2PClient.GetBlockCountFromPeer | internal/bitcoin/p2p_client.go:435-552 | a peer's headers are exactly its good batches up to its tip, or nothing; the shared cache is not touched |
| HeaderClient.P2PClient.CollectResults | internal/bitcoin/p2p_client.go:371-386 | peers are asked in turn until two have answered |
| HeaderClient.P2PClient.PickBest | internal/bitcoin/p2p_client.go:406-412 | the longest answer is chosen, the later one of equals |
| HeaderClient.SortHeights | internal/bitcoin/p2p_client.go:392-403 | the exchange loops sort the heights |
| HeaderClient.MedianIsBest | internal/bitcoin/p2p_client.go:392-412 | the height called median is the height of the chosen answer, so height and cache agree |
| HeaderClient.P2PClient.Adopt | internal/bitcoin/p2p_client.go:414-426 | merging the chosen answer into both maps extends the chain by exactly its headers |
| HeaderClient.P2PClient.MergeBest | internal/bitcoin/p2p_client.go:392-426 | the median height is reported and the longest answer merged: the two agree |
| HeaderClient.P2PClient.GetBlockCountConsensus | internal/bitcoin/p2p_client.go:342-430 | a round extends the chain by the best answer or changes nothing; the reported height is the new tip |
| HeaderClient.P2PClient.GetBlockCount | internal/bitcoin/p2p_client.go:323-337 | a fresh height is reused, otherwise a round runs: one step of the state machine |
| HeaderClient.P2PClient.CacheBatch | internal/bitcoin/p2p_client.go:645-693 | of a batch, the good prefix up to the target is cached |
| HeaderClient.P2PClient.SyncHeadersToHeight | internal/bitcoin/p2p_client.go:585-742 | the loop caches exactly what the specification of a targeted sync says |
| HeaderClient.P2PClient.GetBlockHash | internal/bitcoin/p2p_client.go:555-581 | the answer is the cached hash, synced for if necessary; none means it is still not there |
| HeaderClient.P2PClient.ClearHeaderCache | internal/bitcoin/p2p_client.go:1408-1419 | both maps and the height are emptied |
| HeaderProgress.SyncReaches | internal/bitcoin/p2p_client.go:585-742 | for every mix of full batches of 2000, silence and batches spoiled after some right headers: a targeted sync caches exactly the chain up to its target or up to what the answers brought |
| HeaderProgress.SyncRotates | internal/bitcoin/p2p_client.go:696-737 | it moves on to the next peer once for every answer that fails before the target, and for no other |
| HeaderProgress.LookupReaches | internal/bitcoin/p2p_client.go:555-581 | so a lookup above the cache is answered exactly when the answers brought that height, with the hash of that header |
| HeaderProgress.PeerCountsExactlyWhenDelivers | internal/bitcoin/p2p_client.go:466-551 | in a height round a peer counts with all it has above the known headers exactly when it sends full batches down to its tip; silence or one bad header before and it counts for nothing |
| HeaderProgress.RoundOfTwo | internal/bitcoin/p2p_client.go:352-426 | of the first two of three peers, round robin, that count, the longer answer is taken, the later of equals; the tip becomes the height, known for thirty seconds |
| HeaderProgress.RoundOfOne | internal/bitcoin/p2p_client.go:352-426 | if only one counts its answer is taken |
| HeaderProgress.RoundOfFailures | internal/bitcoin/p2p_client.go:352-390 | if none counts only the peer index moves |
| HeaderProgress.EveryPeerIsAsked | internal/bitcoin/p2p_client.go:352-360 | a third as many rounds as there are peers ask every peer |
| HeaderChain.StepKeeps | internal/bitcoin/p2p_client.go:342-742 | every operation, whatever is answered, keeps the chain linked, and all but a clear only extend it |
| HeaderChain.RunKeepsChain | internal/bitcoin/p2p_client.go:342-742 | in every reachable state the cache is a gap-free hash chain from the checkpoint and the height is not above it |
| HeaderChain.SyncToKeeps | internal/bitcoin/p2p_client.go:585-742 | a targeted sync extends the chain and does not pass its target |
| HeaderChain.CacheOnlyGrows | internal/bitcoin/p2p_client.go:1408-1419 | between clears the chain only grows |
| HeaderChain.CachedHashIsStable | internal/bitcoin/p2p_client.go:414-426 | between clears no cached entry changes |
| HeaderChain.DistinctExactlyWhenCollisionFree | internal/bitcoin/p2p_client.go:681-686 | the hashes of a linked chain are distinct and none is the checkpoint's exactly when no two headers collide and none hashes to the checkpoint |
| HeaderChain.MapsAreInverseExactlyWhenDistinct | internal/bitcoin/p2p_client.go:681-686 | the two maps are exact inverses exactly when the hashes are distinct |
| HeaderChain.RunMapsAreInverse | internal/bitcoin/p2p_client.go:342-742 | if the headers delivered in a run do not collide, the maps are exact inverses in each of its states |
| HeaderChain.OneHashFixesAllBelow | internal/bitcoin/p2p_client.go:498-503 | two clients that agree on one cached hash agree on everything below it |
| Bech32Checksum.Polymod | internal/node/dashboard/static/js/bech32.js:10-22 | the loop feeds the values into the register of the specification |
| Bech32Checksum.FeedFits30 | internal/node/dashboard/static/js/bech32.js:10-22 | the running value never leaves 30 bits |
| Bech32Checksum.FeedLinear | internal/node/dashboard/static/js/bech32.js:10-22 | feeding is linear over exclusive or |
| Bech32Checksum.ShiftKernel | internal/node/dashboard/static/js/bech32.js:13-19 | the zero-input step sends no non-zero 30-bit state to zero |
| Bech32Checksum.GeneratorLeavesNothing | internal/node/dashboard/static/js/bech32.js:8-22 | the generator polynomial of BIP-173 and its doubles in the field of 32 elements leave nothing in the register, which fixes the five generator words |
| Bech32Checksum.HrpExpand | internal/node/dashboard/static/js/bech32.js:24-34 | high parts, a zero, low parts |
| Bech32Checksum.HrpNumbersAre | internal/node/dashboard/static/js/bech32.js:24-34 | that is, quotients by 32 first, remainders last |
| Bech32Checksum.CreateChecksum | internal/node/dashboard/static/js/bech32.js:36-45 | six symbols that spell the register, most significant first |
| Bech32Checksum.CreatedChecksumVerifies | internal/node/dashboard/static/js/bech32.js:36-45 | data with its checksum ends at 1, or at 0x2bc830a3 for Bech32m, for every part and all data |
| Bech32Checksum.BurstChangesRegister | internal/node/dashboard/static/js/bech32.js:10-22 | words that differ within at most six consecutive symbols end with different registers, at any length |
| Bech32Checksum.BurstIsDetected | internal/node/dashboard/static/js/bech32.js:10-45 | a valid word with such a burst of errors does not verify |
| Bech32Checksum.BurstChangesChecksum | internal/node/dashboard/static/js/bech32.js:36-45 | data that differ in such a burst, a single symbol included, get different checksums |
| ConvertBits.Convert | internal/node/dashboard/static/js/bech32.js:47-74 | with a 32-bit wrapping accumulator, the output is exactly the input bits regrouped, padded or rejected as the flag says |
| ConvertBits.Drain | internal/node/dashboard/static/js/bech32.js:59-62 | the inner loop moves whole groups out; only the low bits of the accumulator matter |
| ConvertBits.Finish | internal/node/dashboard/static/js/bech32.js:65-72 | padding completes the last group; without it long or non-zero leftovers are an error |
| ConvertBits.RegroupedUnique | internal/node/dashboard/static/js/bech32.js:47-74 | the contract leaves one result per input |
| ConvertBits.RoundTripExactly | internal/node/dashboard/static/js/bech32.js:47-74 | padding there and strict back returns the input exactly when the padding is shorter than an input group |
| ConvertBits.BytesRoundTrip | internal/node/dashboard/static/js/bech32.js:47-74 | bytes to five-bit groups and back never fails and returns the bytes |
| ConvertBits.BytesInjective | internal/node/dashboard/static/js/bech32.js:47-74 | different byte sequences, of any lengths, give different groups |
| ConvertBits.BitsComeOutInOrder | internal/node/dashboard/static/js/bech32.js:47-74 | every input bit comes out at its own place in the stream |
| ConvertBits.FilledBitsAreZero | internal/node/dashboard/static/js/bech32.js:65-68 | and the bits filled in at the end are zero |
| ConvertBits.StrictBitsComeOutInOrder | internal/node/dashboard/static/js/bech32.js:47-74 | without padding the bits come out in order as well |
| ConvertBits.StrictFailsExactly | internal/node/dashboard/static/js/bech32.js:69-71 | and the conversion fails exactly when the leftover bits would fill an input group or one of them is set |
| Bech32Address.Encode | internal/node/dashboard/static/js/bech32.js:76-84 | part, separator, characters of data and of a checksum that verifies |
| Bech32Address.SameStringSameParts | internal/node/dashboard/static/js/bech32.js:76-84 | one string, one human-readable part and one data sequence: the separator is the last 1 |
| Bech32Address.EncodeSegwitAddress | internal/node/dashboard/static/js/bech32.js:93-105 | fails exactly when an entry is not a byte; otherwise an address of the program, Bech32 for version 0 and Bech32m above |
| Bech32Address.AddressReads | internal/node/dashboard/static/js/bech32.js:76-105 | an address reads as part, 1 and a code word of version and program that leaves 1 in the register for version 0 and 0x2bc830a3 for all others |
| Bech32Address.AddressesInjective | internal/node/dashboard/static/js/bech32.js:93-105 | one address, one human-readable part, one witness version and one program |
| PositionCodec.EncodePosition | internal/encoder/encoder.go:127-139 | the loop writes the position in bijective base 26 |
| PositionCodec.DecodePosition | internal/encoder/encoder.go:143-155 | the loop reads letters back with int64 wrap-around and rejects other characters |
| PositionCodec.ValueOfLetters | internal/encoder/encoder.go:127-155 | reading what was written gives the position |
| PositionCodec.LettersOfValue | internal/encoder/encoder.go:127-155 | writing what was read gives the letters |
| PositionCodec.LettersInOrder | internal/encoder/encoder.go:125-139 | positions in counting order have letters in dictionary order, shorter first: a to z, aa, ab |
| PositionCodec.DecodesExactly | internal/encoder/encoder.go:143-155 | decoding fails exactly on the empty string and on characters outside a to z; every position up to 64 bits is read back |
| PositionCodec.ShortLettersFit | internal/encoder/encoder.go:147-154 | up to thirteen letters stay inside an int64 |
| WordList.MatchWord | internal/encoder/encoder.go:222-239 | the greedy scan returns the longest word that starts the string, and the rest |
| WordList.FindWordIndex | internal/encoder/encoder.go:242-249 | the first index of a word, -1 if it is not there |
| WordList.MatchIsUnambiguous | internal/encoder/encoder.go:222-239 | in a prefix-free list a word followed by anything is matched as that word |
| WordList.SortedPrefixFreeByNeighbours | internal/encoder/bip39_wordlist.go:3-5 | a strictly sorted list is prefix-free exactly when no word starts the next one |
| Int64.ParseOfFormat | internal/sync/syncer.go:286-418 | every int64 printed in decimal parses back |
| Int64.CanonicalDigits | internal/encoder/encoder.go:179-192 | digits print back as themselves exactly when they have no leading zero |
| NameCodec.Encode | internal/encoder/encoder.go:96-123 | two words by the block's place in its cycle, the cycle number if any, the position; errors for negative blocks and positions below 1 |
| NameCodec.Decode | internal/encoder/encoder.go:159-219 | the code is taken apart greedily and combined with int64 wrap-around; each malformed shape is an error |
| NameCodec.CombineBlock | internal/encoder/encoder.go:214-216 | the wrapped block number of the two indices and the cycle |
| NameCodec.EncodingSpells | internal/encoder/encoder.go:96-123 | block c * W * W + i * W + j is n, word i, word j, c if it is not 0, and the letters; errors are negative blocks and positions below 1 |
| NameCodec.DecodingSpells | internal/encoder/encoder.go:159-219 | and n, word i, word j, any digits and letters are read as that block and position, wrapped at 64 bits, digits out of range excepted |
| NameCodec.DecodeOfEncode | internal/encoder/encoder.go:96-219 | decoding an encoded pair returns it, for prefix-free lists and all int64 pairs in range |
| NameCodec.EncodeOfDecode | internal/encoder/encoder.go:96-219 | a decoded code encodes to itself exactly when its cycle digits are absent or have no leading zero, and nothing wrapped |
| NameCodec.RoundTripExactlyWhenPrefixFree | internal/encoder/encoder.go:96-219 | for lists of short lowercase words the round trip works for all pairs exactly when the list is prefix-free without repeats |
| Notation.JoinOfSplit | internal/encoder/encoder.go:252-281 | splitting at dots loses nothing |
| Notation.ParseOfDNNBlock | internal/encoder/encoder.go:252-369 | name, dot and the printed DNN form parse back, whatever the order of the suffix map |
| Notation.ParseOfBitcoinBlock | internal/encoder/encoder.go:252-379 | the same for the Bitcoin form, exactly when the block number is not negative |
| Notation.ParseOfCode | internal/encoder/encoder.go:252-281 | the same for the word form |
| Notation.FormsNeverCollide | internal/encoder/encoder.go:96-379 | the three printed forms are never equal to one another |
| Notation.BitcoinNumberMeans | internal/encoder/encoder.go:284-313 | name.b and a number is the block that far above genesis, position 1 if none is given, and is rejected below genesis |
| Notation.DNNNumberMeans | internal/encoder/encoder.go:252-313 | name.n and a number is that block |
| Notation.OthersAreRejected | internal/encoder/encoder.go:252-297 | no dot, a second half that is empty, a lone n or begins otherwise, and positions that are no numbers are errors |
| Notation.PositionPrintedExactly | internal/encoder/encoder.go:364-379 | the printers write the position exactly when it is not 1 |
| Notation.ShorthandMeans | internal/encoder/encoder.go:316-355 | numbers with the suffixes h, k, m, b, t, qd, o and sp, whatever the order of the map |
| Notation.BareShorthandMeans | internal/encoder/encoder.go:341-344 | a suffix alone counts once |
| Notation.QtDependsOnMapOrder | internal/encoder/encoder.go:317-350 | a number with the suffix qt is scaled exactly when the map is walked with qt before t, and is zero otherwise |
| SelfTransfer.IsValidDNNTransaction | internal/sync/syncer.go:496-570 | accepts exactly the transactions whose inputs and outputs all name one bc1q address, and returns it |
| SelfTransfer.AcceptedExactly | internal/sync/syncer.go:496-570 | exactly when the set of input addresses and the set of output addresses are that one address, every output is a key-hash output and the address starts with bc1q, capitals allowed |
| TxOrder.TxidDigitSum | internal/sync/syncer.go:590-600 | the loop sums the hex digits |
| TxOrder.DigitSumFollowsDigits | internal/sync/syncer.go:588-600 | a greater digit character raises the sum, 0 adds nothing and f fifteen, and the place of a digit does not matter |
| TxOrder.DigitSumIgnoresCase | internal/sync/syncer.go:592 | upper case makes no difference |
| TxOrder.CompareTxidsByDigit | internal/sync/syncer.go:605-625 | the sign of the first differing digit, zero when there is none |
| TxOrder.ComparedIsByValue | internal/sync/syncer.go:605-625 | on equally long ids that is the order of their numeric values |
| TxOrder.ComparedIsTextOrder | internal/sync/syncer.go:605-625 | on hexadecimal ids of one length it is the order of the texts |
| TxOrder.BeforeIsByRank | internal/sync/syncer.go:469-483 | the comparator is (digit sum, numeric value), descending |
| TxOrder.BeforeIsBySumThenText | internal/sync/syncer.go:469-483 | in other words the greater digit sum first, of equal sums the greater id |
| TxOrder.BeforeIsStrictTotalOrder | internal/sync/syncer.go:469-483 | irreflexive, transitive and total on distinct 64-digit ids |
| TxOrder.SortedArrangementUnique | internal/sync/syncer.go:469-483 | a set of distinct entries has one sorted arrangement |
| TxOrder.SortSlice | internal/sync/syncer.go:469-483 | the slice is sorted in place and permuted |
| Positions.FindValidDNNTransactions | internal/sync/syncer.go:450-491 | exactly the valid transactions, in the one sorted order |
| Positions.EntriesAre | internal/sync/syncer.go:453-466 | the entries are the self-transfers of the block with their id, address and digit sum |
| Positions.PositionIsRank | internal/sync/syncer.go:469-483 | an entry comes before another exactly when its sum is greater, or equal and its id greater |
| Positions.PositionsIgnoreBlockOrder | internal/sync/syncer.go:450-491 | rearranging a block changes no position |
| BlockTables.Database.CreateOrUpdateDNNBlock | internal/database/database.go:1776-1786 | INSERT OR REPLACE: rows clashing on either key go, the new one is there |
| BlockTables.Database.StoreBitcoinTransaction | internal/database/database.go:1789-1799 | INSERT OR IGNORE: nothing changes when the id or the place is taken |
| BlockTables.Database.GetBitcoinBlockHash | internal/database/database.go:1659-1670 | a stored hash for the Bitcoin block, none exactly when there is no row |
| BlockTables.Database.InvalidateDNNBlocksAfter | internal/database/database.go:1683-1687 | exactly the rows above the number go |
| BlockTables.Database.UpdateDNNBlock | internal/database/database.go:1697-1705 | INSERT OR REPLACE inside the recovery transaction |
| BlockLedger.WriteTakesEffect | internal/database/database.go:1776-1799 | a block row is there after its write, a transaction row unless its id or place was taken, no transaction row is ever changed, and block rows go only if they clash |
| BlockLedger.WritesKeepKeysUnique | internal/database/database.go:543-602 | after any writes, right or wrong, no two block rows share a Bitcoin block and no two transactions a position in one |
| BlockLedger.ExactIsUnique | internal/sync/syncer.go:311-421 | tables exact at a mark are determined by the chain and the mark |
| BlockLedger.ConsistentAgreeBelow | internal/sync/syncer.go:311-421 | consistent tables of one chain have the same block and transaction rows for every block up to the lower mark |
| BlockLedger.PutRightTx | internal/database/database.go:1789-1799 | writing a right row again changes nothing, and never evicts or is blocked by another right row |
| BlockLedger.WholeBlock | internal/sync/syncer.go:346-420 | processing the next block to its end moves the mark and leaves nothing in part |
| BlockLedger.PartOfBlock | internal/sync/syncer.go:346-420 | stopping anywhere inside a block leaves the mark and everything below it |
| BlockLedger.CutBlocks | internal/sync/syncer.go:311-421 | a round cut after any row write leaves consistent tables and never moves the mark back |
| BlockSync.Syncer.ProcessBlocks | internal/sync/syncer.go:311-421 | the loop writes exactly the blocks before the first stop; divergence clears the header cache and is reported |
| BlockSync.Syncer.StoreBlock | internal/sync/syncer.go:346-420 | the block row, its transactions at positions 1..n, then the mark |
| BlockSync.Syncer.ReadMark | internal/sync/syncer.go:277-290 | the stored mark, or just below genesis |
| BlockSync.Syncer.SyncBitcoin | internal/sync/syncer.go:264-421 | a round is exactly its list of row writes, with the outcome and the cache clear of the specification |
| BlockSync.ReachIs | internal/sync/syncer.go:311-344 | the last block of a round is the one before the first failing lookup or disagreeing REST hash |
| BlockSync.RoundReachesLimit | internal/sync/syncer.go:294-311 | a round ends at its batch limit or the chain height exactly when nothing stops it |
| SyncProgress.RoundEndsExactly | internal/sync/syncer.go:294-351 | a round ends at its batch or at the reported height, whichever comes first, or in front of the first block that is missing, fails a lookup, or is told otherwise by REST where REST is asked |
| SyncProgress.RoundStaysExactly | internal/sync/syncer.go:264-309 | and goes nowhere without a height, at the tip or with an empty batch |
| SyncProgress.DivergesExactly | internal/sync/syncer.go:324-341 | divergence is reported exactly for a block that REST is asked about (the first and every hundredth) and tells otherwise |
| SyncProgress.RoundBeginsWith | internal/sync/syncer.go:277-290 | a round begins with the block after the mark, or with genesis if there is no mark or none that parses |
| SyncProgress.RoundAdvances | internal/sync/syncer.go:294-421 | a round that is not hindered moves the mark by its batch or to the tip, whatever an earlier cut had left |
| SyncProgress.RunCatchesUp | internal/sync/syncer.go:264-421 | from any state of any run, rounds that are not hindered move the mark batch by batch until it is at the tip |
| BlockSync.StepKeeps | internal/sync/syncer.go:264-421 | one round, cut anywhere, keeps the tables consistent and the mark monotone |
| BlockSync.FinishedRoundIsExact | internal/sync/syncer.go:264-421 | a finished round is exact, and repairs what a cut had left if it gets through a block |
| BlockSync.RunStaysConsistent | internal/sync/syncer.go:264-421 | in every run, with failures and cuts anywhere, every state is consistent |
| BlockSync.UncutRunIsExact | internal/sync/syncer.go:264-421 | without cuts every state holds exactly the blocks up to its mark |
| BlockSync.LedgerIsGood | internal/sync/syncer.go:450-491 | a chain with distinct txids meets what the table lemmas ask |
| BlockSync.SyncLeavesNoGap | internal/sync/syncer.go:264-421 | both run theorems for a chain of whole Bitcoin blocks |
| BlockSync.ExactIsProcessedInOrder | internal/sync/syncer.go:311-421 | exact tables are those of processing genesis to the mark in one go |
| BlockSync.NodesAgree | internal/sync/syncer.go:264-421 | two nodes hold the same rows up to the lower of their marks, whatever failed, whatever batches they used and wherever rounds were cut |
| BlockSync.FinishedNodesAreEqual | internal/sync/syncer.go:264-421 | if no round was cut and the marks are equal, so are the tables |
| StoredRows.BlockRowsAre | internal/sync/syncer.go:353-362 | in every state of every run the block rows are those of the blocks to the mark, perhaps one more, under their distance from genesis, with hash and time |
| StoredRows.TxRowsAre | internal/sync/syncer.go:374-381 | a transaction row tells block, DNN block, address and digit sum of a self-transfer of that block |
| StoredRows.SelfTransfersAreStored | internal/sync/syncer.go:365-381 | every self-transfer up to the mark has its row |
| StoredRows.PositionsFollowRank | internal/sync/syncer.go:374-381 | within a block positions follow digit sum, then id |
| StoredRows.NoPositionIsLeftOut | internal/sync/syncer.go:374-381 | and are numbered from 1 without a gap |
| Reorg.ReorgHandler.FindFork | internal/reorg/reorg.go:53-89 | the scan reports the lowest mismatch of the window, or that there is none; a lowest mismatch at height 0 gives way to the next |
| Reorg.CheckFindsExactly | internal/reorg/reorg.go:44-95 | a check passes exactly when every stored row of the last 1008 blocks, not below genesis, has REST's hash, or the peer-to-peer client's where REST fails or is empty; otherwise it finds the lowest that has not |
| Reorg.ReportedIsFound | internal/constants/constants.go:12-22 | with a positive genesis height what is reported is the lowest mismatch |
| Reorg.ReorgHandler.HandleReorg | internal/reorg/reorg.go:103-180 | all of the rescan or none of it: success exactly when every lookup succeeds |
| Reorg.ReorgHandler.CheckAndHandleReorg | internal/reorg/reorg.go:34-100 | when it is due, what it finds, and the table and the recorded check time it leaves in each outcome |
| Reorg.RecoveryShape | internal/reorg/reorg.go:103-180 | below the fork unchanged, from the fork to the tip the chain's rows, above it nothing |
| ReorgCache.RecoveryMendsExactlyWhenCacheIsRight | internal/reorg/reorg.go:103-180 | no wrong row is left in the window exactly when the hashes cached before the rescan, from the fork to the tip, are the chain's |
| ReorgCache.TipTells | internal/bitcoin/p2p_client.go:555-581 | on a linked chain the cached hash at the tip alone decides that |
| ReorgCache.StaleHashSpoilsRecovery | internal/bitcoin/p2p_client.go:555-581 | one wrong hash cached before the check, at or above the fork, and a wrong row is left |
| ReorgCache.NothingMendedWithoutClear | internal/reorg/reorg.go:131-155 | rows that were synced from the cache keep their hashes through a recovery, unless the cache was cleared in between |
| ReorgCache.ForkIsFoundAgain | internal/reorg/reorg.go:80-88 | so the next check finds the same fork |
| ReorgCache.ClientAnswersFromCache | internal/bitcoin/p2p_client.go:555-581 | every hash the client answers before the next clear is what a cache grown from the present one holds |
| ReorgCache.ToldFromCache | internal/bitcoin/p2p_client.go:555-581 | so a hash cached before the rescan is what the rescan is told |
| ReorgCache.ReportedHeightIsCached | internal/bitcoin/p2p_client.go:323-337 | a reported height is cached with everything below it, so the condition covers the whole window |
| ReorgCache.ReportedHeightsGrow | internal/bitcoin/p2p_client.go:323-337 | between clears a later height lookup never reports less: the second lookup of a check is not below the first, nor the mark of an earlier sync above it |
| Reorg.MendedExactlyWhenRescanTold | internal/reorg/reorg.go:131-155 | in terms of the answers: the window is mended exactly when the second height is not below the fork and the rescan is told the chain's hashes |
| Reorg.StoredAnswersChangeNothing | internal/reorg/reorg.go:131-155 | if the rescan is told the stored hashes, every stored row up to the second height keeps its hash |
| Reorg.RecoveryInVain | internal/reorg/reorg.go:131-155 | an input for which the scan finds the wrong row and recovery writes it back |
| Reorg.RecoveredIsStored | internal/reorg/reorg.go:103-180 | recovery leaves the rows up to the new tip, or to the fork row if the tip fell below it |
| Reorg.RecoveredIsLinkedExactlyWhen | internal/reorg/reorg.go:103-180 | they are hash-linked again exactly when the fork is the bottom row or the row below it is the chain's |
| Reorg.NoGapExactlyWhen | internal/reorg/reorg.go:112-125 | recovery does not touch the sync mark, so no row below it is missing exactly when the new tip or the fork is not below it |
| Reorg.MatchCarriesDown | internal/reorg/reorg.go:57-89 | a matching hash makes every stored row below it match: mismatches form a suffix |
| Reorg.FirstMismatchIsFork | internal/reorg/reorg.go:80-88 | stored rows match exactly below the detected height, whatever the rescan is told later |
| Reorg.WholeTableMendedExactlyWhenForkInWindow | internal/policy/policy.go:367-374 | after a check the whole table equals the chain exactly when the row just below the window did |
| Reorg.SyncedTablesAreLinked | internal/sync/syncer.go:311-421 | tables a sync left, wherever it was cut, are gap-free and linked, so the theorems apply to them |
| ReorgRuns.EarlierSyncIsAStart | internal/sync/syncer.go:311-421 | what a sync of an earlier chain left is a starting point of the runs below |
| ReorgRuns.CutRoundWritesRows | internal/sync/syncer.go:311-421 | on tables of any origin a cut round writes exactly the rows above the mark up to some block, and moves the mark to it or just below |
| ReorgRuns.GapStays | internal/sync/syncer.go:285-311 | a sync never fills a gap below its mark |
| ReorgRuns.MarkNotAboveHeight | internal/sync/syncer.go:294-298 | a round moves the mark at most to the height it was told |
| ReorgRuns.CheckKeepsOrder | internal/reorg/reorg.go:34-180 | a check that goes through mends exactly the wrong rows inside its window and leaves no gap |
| ReorgRuns.MixedRunRows | internal/sync/syncer.go:423-438 | in runs of cut sync rounds and checks, no row up to the mark is missing, and a row is right exactly when it was at the start, was synced since, or lay in the window of some check |
| ReorgRuns.RunMendedExactlyWhenForkInLowestWindow | internal/policy/policy.go:367-374 | all rows up to the mark are right after such a run exactly when, before it, the highest row below the lowest window was |
| ReorgRuns.RightRowsAreLinked | internal/reorg/reorg.go:103-180 | a mended table is linked, so the next reorganisation starts from linked rows again |
| Reorg.SyncedTablesPass | internal/reorg/reorg.go:57-95 | tables synced from the chain the sources tell pass the check unchanged |
| EventStore.FirstTag | internal/database/database.go:953-960 | the value of the first such tag, empty if there is none |
| EventStore.FirstAndLast | internal/database/database.go:864-880 | the first and the last tag of a name, among tags with a value |
| EventStore.JoinNames | internal/database/database.go:921-929 | the loop writes the text of the specification |
| EventStore.JsonDeterminesQuoteFreeNames | internal/database/database.go:921-929 | names without quotes can be read back from the stored text |
| EventStore.QuotedNamesCollide | internal/database/database.go:921-929 | a name with quotes, at the end of any list, is stored like several names |
| EventStore.StoreRow | internal/database/database.go:882-919 | skip a known id, skip when a newer version is stored, otherwise drop older versions and insert |
| EventStore.EventDatabase.StoreNameEvent | internal/database/database.go:863-948 | one delivery into the name table, under the last d tag, names in lower case |
| EventStore.EventDatabase.StoreConnectionEvent | internal/database/database.go:952-1025 | one delivery into the connection table, under the first d tag |
| EventStore.EventDatabase.StoreMetadataEvent | internal/database/database.go:1029-1093 | one delivery into the metadata table, under the first d tag |
| EventStore.NameRowsTellEvents | internal/database/database.go:863-948 | a stored name row has author, time, content and signature of a received event, its last d tag, and its last n tag and o tags in lower case |
| EventStore.ConnectionRowsTellEvents | internal/database/database.go:952-1025 | a stored connection row likewise, with the first d tag and all tags |
| EventStore.MetadataRowsTellEvents | internal/database/database.go:1029-1093 | a stored metadata row likewise, with the first d tag |
| EventStore.TableHoldsSurvivors | internal/database/database.go:863-1093 | after any deliveries, in any order and number, the table holds exactly the events nothing delivered supersedes |
| EventStore.SameEventsSameTable | internal/database/migrations.go:700-763 | two nodes that received the same events hold the same table |
| EventStore.KeyHoldsGreatest | internal/database/migrations.go:700-763 | a delivered event is in the table exactly when it has no d tag or no event of its author under the same d tag is later, ties kept |
| EventStore.NewerReplaces | internal/database/database.go:891-914 | of two events of an author the newer removes the older exactly when both are filed under one non-empty d tag, in either order of arrival |
| EventStore.ChangedLastTagKeepsOldName | internal/database/database.go:864-872 | with the first d tag kept, a newer event always replaces connection and metadata, but the name exactly when the last d tags agree |
| RelayMerge.BeatsIsStrictOrder | internal/sync/syncer.go:784-796 | later, or equally late with the higher id, is a strict order, total on distinct ids |
| StringOrder.FirstDifferenceDecides | internal/sync/syncer.go:789 | ids compare by their first differing character, a proper prefix first |
| RelayMerge.MergeKeepsGreatest | internal/sync/syncer.go:775-799 | one locked section keeps the map at the greatest claims merged so far |
| RelayMerge.BatchQuery.MergeReply | internal/sync/syncer.go:760-803 | a reply is filed by its first x tag, if wanted and not beaten |
| RelayMerge.BatchQuery.FindAnchorEventsForTransactionsBatch | internal/sync/syncer.go:660-698 | with goroutines taking the lock in any order, the greatest claim per wanted transaction and no other key |
| RelayMerge.FinalMapHoldsGreatest | internal/sync/syncer.go:757-803 | the same for every explicit interleaving |
| RelayMerge.FinalMapHoldsLatest | internal/sync/syncer.go:784-796 | that is, for every wanted transaction a reply names first, a reply that is later, or equally late with no lower id |
| RelayMerge.SchedulesAgree | internal/sync/syncer.go:757-803 | two interleavings of the same replies end with the same map |
| Rebroadcast.Rebroadcaster.RebroadcastEvent | internal/sync/syncer.go:2474-2487 | the event goes out exactly when the cache does not remember it, and then it does |
| Rebroadcast.Rebroadcaster.CleanupRebroadcastCache | internal/sync/syncer.go:2568-2578 | exactly the entries older than the lifetime go |
| Rebroadcast.CacheRemembers | internal/sync/syncer.go:2474-2578 | for a full lifetime after a broadcast the cache knows of it, cleanups or not |
| Rebroadcast.BroadcastsAreApart | internal/sync/syncer.go:65-72 | two broadcasts of an event are at least the lifetime apart in every run |
| Rebroadcast.BroadcastsExactly | internal/sync/syncer.go:2474-2487 | an attempt sends the event out exactly when it was not sent out in the fifteen minutes before, cleanups or not |
| Rebroadcast.CacheHoldsBroadcasts | internal/sync/syncer.go:2474-2487 | every cache entry is the time of a broadcast |
| Rebroadcast.RepeatsExactlyWhenMayRepeat | internal/sync/syncer.go:1856-1861 | a second broadcast is possible exactly when the first came before the timestamp by the gap of the windows, goroutine delay counted in |
| Rebroadcast.AtMostOnce | internal/sync/syncer.go:2457-2467 | not future-dated at its first broadcast and with short goroutine delays, an event goes out at most once |
| Rebroadcast.FutureDatedIsRepeated | internal/sync/syncer.go:2457-2467 | dated five minutes ahead, an event does go out twice |

## Left out

- Sockets, relay connections, HTTP and DNS serving, the dashboard, logging, configuration and metrics: I/O plumbing.
- Signatures, address derivation, naddr decoding and the concrete hashes: hashes are function parameters, and where a law needs it, freedom from collisions among the hashed values is a stated hypothesis or the collision is part of the conclusion.
- The SQL engine: statements have their row-level meaning and writes succeed; the clock columns are not modelled.
- SyncSpecificBlock and SyncSpecificTransaction move the sync mark past blocks that were not synced, so the run theorems do not cover them.
- Overlapping header syncs: header operations are atomic with respect to each other. A peer's replies are a finite list; a sync that outlives it is reported as still waiting instead of timing out per request.
- Peer scoring, reconnecting and block download with its parallel channels; a block lookup just succeeds or fails.
- Anchor events: their store mixes two timestamps and keeps arrival order on ties. Their batch query is modelled up to the merged map.
- Transaction and anchor rows during a reorganisation: recovery does not rewrite the transaction table, and its validity test is a placeholder, so only the block table has a meaning there.
- The pre-check of incoming event updates drops timestamp ties before the Store functions see them; convergence is about the Store functions.
- Shorthand numbers that are no plain number before the suffix.
- Tie positions and tie digits of the comparator, and the place of a transaction inside its block: display only.
- Concrete genesis heights: constants and tests differ, so the height is a parameter.
- Characters outside the basic multilingual plane in a human-readable part, which JavaScript would count as two.
- BlockSync.Syncer.SyncBitcoin: the anchor query after each block, the reorganisation check at the end of a round and the last-sync time are not part of it; int64 overflow of mark plus batch is not modelled.
- Reorg.ReorgHandler.HandleReorg: removing anchors and renumbering them during the rescan are not part of it.
- Reorg.WholeTableMendedExactlyWhenForkInWindow: for checks whose lookups all succeed; one that fails leaves the table as it was (Reorg.ReorgHandler.HandleReorg).
- ReorgRuns.MixedRunRows: the present chain stays the same during the run, and its checks meet sources that tell it and heights not below the mark; when the client gives such heights is ReorgCache.ReportedHeightsGrow, and what happens otherwise Reorg.NoGapExactlyWhen and ReorgRuns.GapStays.
- ReorgCache.RecoveryMendsExactlyWhenCacheIsRight: asks for a genesis height above the header checkpoint, as all configured ones are.
- HeaderClient.P2PClient.SyncHeadersToHeight: the peer list does not run empty while a sync rotates through it.
- Bech32Address.Encode: data entries and witness versions above 31, which have no character and come out as the text "undefined".
- ConvertBits.Convert: widths sum to at most 32 and entries are integers of magnitude below 2^31, as in every use of it; JavaScript takes shift counts modulo 32 beyond that.
- Rebroadcast.Rebroadcaster.RebroadcastEvent: an event for which there are no relays at all counts as sent; wall clock and monotonic clock are one clock.
- RelayMerge.SchedulesAgree: asks that ids identify events, as they do when they are hashes of the content; so do the EventStore laws on whole histories.
- TxOrder.SortSlice: an insertion sort stands for the library sort; uniqueness of the sorted arrangement makes the algorithm irrelevant for distinct ids.
