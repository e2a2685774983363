# lightwalletd darkside store, mempool filter and request checks, in Dafny

lightwalletd serves compact blocks and mempool transactions to Zcash light
wallets. This project models two of its parts.

The first is the *darkside* mode (common/darkside.go). In this mode a test
driver supplies a synthetic chain instead of a real node. The store keeps
these lists:

- the active blocks, contiguous from a start height;
- staged blocks, in arrival order;
- staged transactions, as (height, bytes) pairs;
- incoming transactions, received by the mock node.

Committing the staged data does three things. It merges the staged blocks
into the active chain, with truncation on a reorg. It patches each staged
transaction into its block, bumping the transaction count at byte 1487 and
byte 68. It relinks every block's previous-block hash (bytes 4..36). A mock
node dispatcher answers `getblockchaininfo`, `getblock`,
`getrawtransaction` and `sendrawtransaction` from this store.

The second part is in frontend/service.go:

- `MempoolFilter`: two in-place sorts, then a two-pass merge with a cursor
  and a counter array. It decides which mempool transactions a wallet
  still needs, given the short-id prefixes the wallet already has.
- The mempool cache behind `GetMempoolTx`: refresh every two seconds,
  carry forward known entries, stream entries that have a hash.
- The transparent-address check.
- The validation of the darkside `Reset` request.
- The parsing of the node's `sendrawtransaction` error text.
- The start-height and max-entries filter of `getAddressUtxos`.

Layout (one module per file):

- `wrappers.dfy`: `Option` and `Result`.
- `gostrings.dfy` (`GoStrings`): Go's string order `<` and its facts,
  `HasPrefix`, the truncated comparison the filter uses, `TrimSpace`,
  splitting at the first `:`, and the ASCII classes.
- `goencoding.dfy` (`GoEncoding`): bytes, the UTF-8 bytes of a string,
  hex encoding and decoding,
  `strconv.ParseInt`/`FormatInt`, Go's integer conversions, and
  little-endian heights.
- `goregexp.dfy` (`GoRegexp`): the anchored patterns the server matches,
  with a matcher and the closed form of each pattern.
- `darkside.dfy` (`Darkside`): pure chain functions, the `State` class
  (the package-level `state`), and the mock node's replies.
- `mempool.dfy` (`Mempool`): what the filter sends, and the in-place
  `MempoolFilter`.
- `mempool_cache.dfy` (`MempoolCache`): the refresh and serving of the
  cache, and the `Cache` class (the package-level `lastMempool`,
  `mempoolList`, `mempoolMap`).
- `service.dfy` (`Frontend`): `checkTaddress`, `Reset`, the
  `SendTransaction` reply, and `getAddressUtxos`.

Code that lightwalletd calls but that is not part of this model is passed
in as function values:

- in darkside, the `Foreign` record: `ParseFromSlice`, `GetEncodableHash`,
  `BlockHeader.MarshalBinary` with the SHA-256 seed, and decoding a JSON
  string;
- in the mempool cache, the `Node` record: `getrawtransaction`, decoding a
  JSON string, and the transaction parser;
- the node reply for `getrawmempool`, `sendrawtransaction` and
  `getaddressutxos`: a parameter.

Time is a parameter in nanoseconds.

Behaviour the model reproduces from the code as written:

- `DarksideApplyStaged` with staged transactions always errors. It errors
  after patching the blocks, and it keeps the transaction list; relinking
  and the new latest height do not happen (common/darkside.go:174-193).
- Merging a staged block links it in place: the block appended to the
  chain shares its bytes with the staged entry, so the entry's
  previous-block hash is rewritten too (common/darkside.go:130, 164-166).
  When a later staged block fails to merge, the staged blocks stay, with
  the entries merged before it already carrying their new hashes.
- `DarksideStageBlockStream` does not check that a reset happened.
- `DarksideReset` leaves the start height at 0.
- `getblock` checks neither the lower bound nor gaps. A height below the
  start height, or past the active blocks, indexes out of range; that is a
  `Panic` reply.
- The previous-block hash that `setPrevhash` writes is the hash of the
  preceding block after that block's own patch.
- The synthetic coinbase is the decoded template. Its only `d12c0c00`
  (byte 47) is replaced by the little-endian height.
- A transaction that leaves the node's mempool between `getrawmempool` and
  `getrawtransaction` stays in `mempoolList` with no map entry. Serving it
  dereferences nil (frontend/service.go:574-575); that is a `Panicked`
  reply.
- A refresh that fails part-way has already replaced `mempoolList`. When
  there was no map before, the map is the partly built one, because the
  source points `mempoolMap` at the map under construction.
- The mempool refresh ignores the error of `tx.ParseFromSlice`
  (frontend/service.go:558). A transaction that fails to parse with no
  bytes left over is cached anyway: blank, or the compact form of what was
  parsed.
- `getAddressUtxos` compares `uint32(n) > MaxEntries`. With
  `MaxEntries == 2^32 - 1` the counter wraps before the test fires, so the
  bound holds only below that value.

Where the model differs from the code:

- `ParseBlock` returns an error of its own for a block of at most 1487
  bytes, the offset of the transaction count behind a header with a
  1344-byte Equihash solution. The block parser reads the solution behind
  a length prefix, so it may accept such a block where the model does not
  (see "Left out").
- Go's `sort.Slice` is modelled by an insertion sort whose contract is
  "sorted and a permutation". That is all the filter relies on.

## Model

| member | source | states |
|---|---|---|
| Darkside.ParseBlock | common/darkside.go:97-104 | a block longer than 1487 bytes gets the parser's result; a shorter one is refused, so every block that parses can be patched at byte 1487 |
| Darkside.SetPrevHash | common/darkside.go:130 | bytes 4..36 become the given hash; every other byte and the length are unchanged |
| Darkside.AddBlockEffect | common/darkside.go:96-134 | addBlockActive: a parse error or trailing bytes leave the chain unchanged. Otherwise the new block is last, at its declared height. A block that starts a new range forms a one-block chain at its height. Otherwise the start is kept, the blocks before the new one are an unchanged prefix of the old chain, and the new block carries the hash of its predecessor |
| Darkside.MergeAllTip | common/darkside.go:164-169 | after merging all staged blocks without error, the last staged block is the tip at its declared height, and the last staged entry is that tip as linked |
| Darkside.MergeAll | common/darkside.go:164-169 | merging nothing changes nothing; blocks stay long enough to patch; the staged list the merge leaves is as long as the one staged |
| Darkside.MergeAllPatchesPrevHash | common/darkside.go:127-169 | a merge changes each staged entry at most in its previous-block hash |
| Darkside.MergeAllFailure | common/darkside.go:164-169 | after a failed merge, the entry that failed and every later one are as staged, and each entry before it was added without error and is left as it went into the chain |
| Darkside.PlaceTxEffect | common/darkside.go:174-189 | a staged transaction lands iff its height is within the active range and the target block has fewer than 253 transactions. Below the range and above the range are distinct errors. On success byte 1487 and byte 68 are incremented mod 256 and the bytes are appended to that block only |
| Darkside.PlaceAll | common/darkside.go:174-189 | placing keeps the number of blocks; errors are only the three placement errors; no transactions means no change |
| Darkside.RelinkLinks | common/darkside.go:137-152 | after relinking, block 0 carries the given previous hash. Each later block carries the hash of the block before it in the relinked list. Nothing outside bytes 4..36 changes |
| Darkside.CommitPlaced | common/darkside.go:174-199 | committing placed transactions keeps the start height and clears the staged blocks |
| Darkside.CommitPlacedCases | common/darkside.go:174-199 | with transactions staged, the commit leaves the blocks as placed and unlinked, with the placement error or else "transaction height too high"; with none, it succeeds iff relinking succeeds, leaves the relinked blocks, and a failed relink is fatal and leaves the blocks as they were |
| Darkside.ApplyStaged | common/darkside.go:157-162 | before a reset, ApplyStaged errors and changes nothing |
| Darkside.ApplyStagedFrame | common/darkside.go:157-204 | ApplyStaged never changes the reset flag, sapling activation, branch ID, chain name, incoming transactions or staged transactions |
| Darkside.ApplyStagedWithTransactions | common/darkside.go:157-199 | with staged transactions, ApplyStaged always errors and keeps the staged transactions, the latest height and the ingestor flag. A failed merge of a staged block reports its error and leaves the merged chain and the staged blocks as the merge left them. Otherwise the staged blocks are cleared, the active blocks are the placed blocks, not relinked, and the error is the placement error or "transaction height too high" |
| Darkside.ApplyStagedMergeFails | common/darkside.go:127-169 | a staged block that fails to merge ends ApplyStaged with its error; only the chain (as merged so far) and the staged blocks change, and each staged block changes at most in its previous-block hash |
| Darkside.ApplyStagedCommitted | common/darkside.go:157-204 | a successful ApplyStaged had no staged transactions. It empties the staged blocks and sets the latest height. The chain is linked with a zero hash in block 0, and the ingestor runs iff there are blocks |
| Darkside.ApplyNothingStaged | common/darkside.go:157-204 | with nothing staged, ApplyStaged succeeds iff relinking the active blocks succeeds, and then only relinks them |
| Darkside.StagedTransactionsBlockCommit | common/darkside.go:174-193 | with staged transactions, a second ApplyStaged fails again with the same list and latest height: the store is stuck until the next reset |
| Darkside.TemplateHeight | common/darkside.go:260-269 | the coinbase template is 178 bytes, its height field is at byte 47, and that field reads back as 797905 |
| Darkside.Coinbase | common/darkside.go:269-274 | the patched coinbase keeps the template's length |
| Darkside.CoinbaseReplacesHeight | common/darkside.go:269-274 | the patched coinbase equals the template except for bytes 47..51, which are the little-endian height |
| Darkside.SyntheticBlocks | common/darkside.go:258-303 | StageBlocksCreate builds max(count, 0) blocks |
| Darkside.SyntheticBlockHeight | common/darkside.go:258-303 | block i is a header, a transaction count of 1, then the coinbase template, equal to it everywhere except bytes 47..51 of the coinbase, which decode to int32(height + i) |
| Darkside.CoinbaseHeight | common/darkside.go:269-301 | a synthetic block for height h is a header, a count of 1 and the template with h in its height field |
| Darkside.SyntheticLayout | common/darkside.go:297-301 | header ++ [1] ++ coinbase puts the coinbase height field at byte 1488 + 47, with the template's bytes on both sides of it |
| Darkside.BlockAt | common/darkside.go:362-370 | getblock replies with JSON iff there are blocks, the height is at most the latest height and within the active range. Outside that range it panics; otherwise it is the "-8:" error. The JSON is a quoted hex string of twice the block's length |
| Darkside.BlockAtRoundTrip | common/darkside.go:370 | decoding the JSON reply of getblock gives back the active block at that height |
| Darkside.GetBlock | common/darkside.go:349-370 | no parameter panics; a parameter that is not a JSON string is "failed to parse getblock request"; text that is not a decimal int64 is "error parsing height as integer"; otherwise the reply is BlockAt of the parsed height |
| Darkside.RawTransactionBytes | common/darkside.go:379-386 | no parameter panics; a parameter that is not a JSON string is "failed to parse sendrawtransaction JSON"; text that is not hex is "failed to parse sendrawtransaction value as a hex string"; otherwise the bytes are the decoded text |
| Darkside.FirstWithHash | common/darkside.go:412-424 | the transaction found is the first with the requested display hash; none is found iff no transaction has it |
| Darkside.FirstAtTail | common/darkside.go:412-424 | a search that skips a non-matching first transaction still finds the first match |
| Darkside.FindTransaction | common/darkside.go:405-429 | "-5" iff every active block parses with no bytes left over and holds no transaction with the id. Otherwise the reply is that of the first block that stops the search: its parse error after "-9: ", "-9: block serialization is too long", or the first transaction with the id as hex with the block's height |
| Darkside.FindTransactionTail | common/darkside.go:405-429 | when the search passes over the first block, its reply through the rest is its reply through all the blocks |
| Darkside.GetRawTransaction | common/darkside.go:397-430 | before reset the reply is the reset error; a missing parameter, or one shorter than 65 bytes of UTF-8, panics; an id whose bytes 1..65 are not hex is "-9: " and Go's hex error; otherwise the reply is FindTransaction of the decoded id |
| Darkside.GetRawTransactionQuoted | common/darkside.go:401-404 | a quoted 64-digit hex id, as a wallet sends it, is looked up as the 32 bytes it encodes |
| Darkside.GetRawTransactionBadFirst | common/darkside.go:401-404 | an id whose first character is not a hex digit is refused with the U+00XX code of that character's first byte, as soon as the text is 65 bytes long, however few characters it has |
| GoEncoding.Utf8Char | common/darkside.go:402 | a character takes one to four bytes, the first being its lead byte, and one byte exactly when it is ASCII |
| GoEncoding.Utf8 | common/darkside.go:402 | a string has at least as many bytes as characters |
| GoEncoding.Utf8Length | common/darkside.go:402 | an ASCII string has one byte per character, each the character's code; a string with any other character has more bytes than characters |
| GoEncoding.Utf8Append | common/darkside.go:402 | the bytes of two joined strings are the bytes of each in order |
| GoEncoding.HexEncodeBytes | common/darkside.go:422 | hex text has one byte per character |
| GoEncoding.InvalidByteError | common/darkside.go:402-404 | Go's invalid byte error starts with "encoding/hex: invalid byte: " and then U+00 and the byte's two upper-case hex digits |
| GoEncoding.HexDecodeBytes | common/darkside.go:402 | decoding bytes succeeds iff they are an even number of hex digits, giving half as many bytes; a failure is the odd-length or an invalid byte error |
| GoEncoding.LeadByteNibble | common/darkside.go:402 | a character is a hex digit iff the byte it starts with is, and a hex digit is a single byte |
| GoEncoding.HexDecodeUtf8 | common/darkside.go:402 | decoding a string's bytes gives exactly what decoding the string gives, errors included |
| GoEncoding.HexDecodeError | common/darkside.go:401-404 | an undecodable id gives Go's hex error: "invalid byte" with the U+00XX code of the first non-hex character (and the character itself when printable), and the odd-length error only when every character is hex |
| Darkside.State.constructor | common/darkside.go:20-52 | the zero state: not reset, start height 0, all lists empty |
| Darkside.State.DarksideReset | common/darkside.go:76-93 | reset is true and latest height is -1. Start height is 0. All four lists are empty. Activation, branch ID and chain name are the arguments, and the ingestor is stopped |
| Darkside.State.AddBlockActive | common/darkside.go:96-134 | the new start height, blocks and error are AddBlock of the old chain; the caller's block is left as appended (linked) on success and untouched on error |
| Darkside.State.SetPrevhash | common/darkside.go:137-152 | the loop relinks every block from the zero hash, or reports the fatal error Relink reports; the length is kept |
| Darkside.State.MergeStaged | common/darkside.go:164-169 | the loop over staged blocks is MergeAll of the old chain and staged blocks: the new chain, the error, and the staged blocks with each merged entry as linked |
| Darkside.State.PlaceStaged | common/darkside.go:174-189 | the loop over staged transactions is PlaceAll of the old blocks |
| Darkside.State.PlaceAndRelink | common/darkside.go:174-199 | placing and relinking is CommitPlaced; the staged transactions are left as they were |
| Darkside.State.DarksideApplyStaged | common/darkside.go:157-204 | status and new state are ApplyStaged of the old state |
| Darkside.State.CommitMerged | common/darkside.go:170-204 | after the merge: the status is CommitPlaced's; the staged blocks are cleared and the staged transactions kept; the latest height and the ingestor are set only on success |
| Darkside.State.DarksideGetIncomingTransactions | common/darkside.go:208-210 | returns the incoming list |
| Darkside.State.DarksideClearIncomingTransactions | common/darkside.go:308-310 | the incoming list is empty afterwards |
| Darkside.State.DarksideStageBlockStream | common/darkside.go:244-251 | a hex block is appended to the staged blocks, with no reset check; a hex error leaves them unchanged |
| Darkside.State.DarksideStageBlocksCreate | common/darkside.go:254-305 | before reset it errors and stages nothing; otherwise it appends exactly the synthetic blocks |
| Darkside.State.DarksideSendTransaction | common/darkside.go:314-334 | succeeds iff reset and the hex parses as exactly one transaction. It then returns the transaction's hash and appends the bytes to the incoming list; otherwise the list is unchanged |
| Darkside.State.DarksideStageTransaction | common/darkside.go:433-443 | before reset it errors and stages nothing; otherwise it appends (height, bytes) at the end |
| Darkside.State.LookupRawTransaction | common/darkside.go:397-430 | the reply is GetRawTransaction of the active blocks |
| Darkside.State.SearchBlocks | common/darkside.go:408-429 | the loop over blocks gives the reply FindTransaction gives |
| Darkside.State.SearchTransactions | common/darkside.go:419-428 | the loop over a block's transactions finds FirstWithHash |
| Darkside.State.RawRequest | common/darkside.go:336-395 | dispatch: chain info, getblock, "not implemented" for getaddresstxids, getrawtransaction, and sendrawtransaction (appends on success); any other method is the unsupported error; only a successful send changes the incoming list |
| Mempool.FirstPrefix | frontend/service.go:606-615 | the first exclude entry that is a prefix of the item, or none when no entry is |
| Mempool.FirstPrefixShortest | frontend/service.go:589-615 | in a sorted exclude list, the first prefix entry is the shortest prefix entry |
| Mempool.OwnedIsPrefixed | frontend/service.go:606-615 | for a sorted exclude list and an entry k that is the first prefix entry of some string, the count of items whose first prefix entry is k equals the count of items that entry k prefixes |
| Mempool.FilterMembers | frontend/service.go:585-587 | an item is sent iff it is in the list and it survives: no entry prefixes it, or its entry prefixes more than one item |
| Mempool.FilterSubMultiset | frontend/service.go:617-628 | the items sent are a sub-multiset of the items |
| Mempool.FilterSorted | frontend/service.go:617-628 | the items sent from a sorted list are sorted |
| Mempool.KeptSelection | frontend/service.go:589-628 | the filter's result is sorted and a sub-multiset of the items |
| Mempool.NoPrefixSent | frontend/service.go:585-587 | an item that no exclude entry prefixes is always sent |
| Mempool.NothingExcluded | frontend/service.go:585-587 | with an empty exclude list every item is sent, in order |
| Mempool.UniqueMatchWithheld | frontend/service.go:585-587 | an item whose matching entries each match only it is withheld |
| Mempool.AmbiguousMatchSent | frontend/service.go:585-587 | every item matched by an entry that matches two or more items is sent |
| Mempool.CountPrefixedMonotone | frontend/service.go:585-587 | a shorter prefix matches at least as many items |
| Mempool.FilterExample | frontend/service.go:585-629 | short id "abcd" matching two items sends both; full id "ef000000" matching one withholds it |
| Mempool.CursorMatch | frontend/service.go:606-615 | where the merge cursor stops, the filter's prefix test finds exactly the first prefix entry |
| Mempool.CursorCarries | frontend/service.go:606-615 | entries behind one item are behind every later item, so the cursor never moves back |
| Mempool.SortStrings | frontend/service.go:589-594 | the array ends sorted and a permutation of its old contents |
| Mempool.Insert | frontend/service.go:589-594 | one round of the sort leaves the first i+1 strings sorted and the array a permutation |
| Mempool.AdvanceCursor | frontend/service.go:607-609 | the inner loop stops at the cursor position for the item |
| Mempool.Locate | frontend/service.go:607-610 | from the previous item's cursor, the cursor moves to this item's and the match test holds exactly when the entry there is the item's first prefix entry |
| Mempool.CountMatches | frontend/service.go:606-615 | the first pass leaves in nmatches[k] the number of items whose first prefix entry is k |
| Mempool.Decide | frontend/service.go:619-625 | the second pass keeps an item exactly when it survives |
| Mempool.SelectItems | frontend/service.go:617-628 | the second pass returns exactly the surviving items in order |
| Mempool.MempoolFilter | frontend/service.go:588-629 | both arrays end sorted and permuted, and the result is the items that survive |
| MempoolCache.FetchTx | frontend/service.go:533-565 | a fetch is gone iff the node returns no transaction. When the reply decodes to bytes b, the entry is the compact form of the parse of b (blank unless it has Sapling parts) if nothing is left over, and the extra-data error otherwise. When it does not decode, the error is the JSON error or else the hex error |
| MempoolCache.CollectContents | frontend/service.go:523-567 | a refresh that completes holds exactly the listed ids that are carried forward or fetched; each has the carried or fetched entry |
| MempoolCache.CollectFails | frontend/service.go:527-566 | a refresh fails iff some listed id not already held fails to fetch, and the error is that id's |
| MempoolCache.RefreshedPool | frontend/service.go:523-567 | a completed refresh from scratch: the keys of the new map are exactly the listed ids that were already held or could be fetched; ids already held keep their identical entry, fetched ones hold their compact form, and ids the node no longer has (Gone) are absent |
| MempoolCache.SendPanics | frontend/service.go:573-581 | the send loop panics iff some id to send has no map entry |
| MempoolCache.Streamed | frontend/service.go:573-581 | the streamed entries are entries of the ids to send, each with a hash, and every such entry is among them |
| MempoolCache.SentEntries | frontend/service.go:573-581 | when every id to send is in the map, the send loop appends exactly Streamed: the entries of the ids in order, skipping those without a hash |
| MempoolCache.NonSaplingNeverSent | frontend/service.go:562-581 | after a completed refresh, a newly listed id whose reply decodes to a transaction without Sapling parts is in the map as the blank entry, and a send that completes never streams the blank entry |
| MempoolCache.VanishedTransactionPanics | frontend/service.go:540-544 | an id that vanished from the node between listing and fetch, and that no exclude entry prefixes, makes serving panic |
| MempoolCache.RefreshedServesListed | frontend/service.go:511-581 | after a completed refresh, serving panics only because of a vanished id |
| MempoolCache.RefreshAtMostEveryTwoSeconds | frontend/service.go:511-512 | within two seconds of a refresh the node is not asked again |
| MempoolCache.ExcludeHex | frontend/service.go:569-572 | each exclude id becomes hex of twice its length that decodes back to the id reversed |
| MempoolCache.Cache.constructor | frontend/service.go:504-508 | zero time, empty list and no map |
| MempoolCache.Cache.Refresh | frontend/service.go:511-567 | the refresh loop, with the map being built visible when there was none, ends in Refreshed of the old state |
| MempoolCache.Cache.GetMempoolTx | frontend/service.go:510-583 | refreshes only when due. A refresh error is the reply. Otherwise the list is sorted in place, and the reply is the send loop over the filter's result for the reversed-hex exclude ids |
| MempoolCache.Cache.EncodeExclude | frontend/service.go:569-572 | the loop fills a new array with ExcludeHex of the exclude ids |
| MempoolCache.Cache.Send | frontend/service.go:573-581 | the send loop is SendFrom of the current map |
| GoRegexp.RepeatMatches | frontend/service.go:65 | `[class]{n}` matches exactly the strings of length n drawn from the class |
| GoRegexp.PlusMatches | frontend/service.go:728-736 | `[class]+` matches exactly the non-empty strings drawn from the class |
| GoRegexp.TaddrMatches | frontend/service.go:65 | the address pattern matches iff the string has 35 characters, starts with 't', and the rest are ASCII letters and digits |
| Frontend.CheckTaddress | frontend/service.go:64-70 | no error iff the string has 35 characters, starts with 't', and the rest are ASCII letters and digits; otherwise "invalid address" |
| Frontend.ValidateMetaState | frontend/service.go:728-736 | passes iff the branch ID is non-empty hex and the chain name is non-empty alphanumeric; a bad branch ID is reported first |
| Frontend.Reset | frontend/service.go:727-744 | a rejected request changes nothing; otherwise the darkside state is reset and the mempool map and list are nil |
| Frontend.ParseRpcError | frontend/service.go:417-431 | text without ':' or with a prefix that is not an int32 is the parse error; a parsed code is an int32 and the message has no surrounding white space |
| Frontend.ParseRpcErrorSplit | frontend/service.go:417-431 | the parse succeeds iff the text is c + ":" + m with no ':' in c and c a decimal int32; the reply then has that code and TrimSpace(m) |
| Frontend.ParseCodeAndMessage | frontend/service.go:422-431 | the parse fails exactly when the code is not a decimal int32; otherwise the reply is that code and the trimmed message, which has no surrounding white space |
| Frontend.SendTransaction | frontend/service.go:404-442 | nil data is "bad Transaction or Data"; without a node error the code is 0 and the message is the node's result; a node error is parsed by ParseRpcError |
| Frontend.RpcErrorRoundTrip | frontend/service.go:417-431 | the text "code: message" parses back to that code and that message |
| Frontend.SplitAtFirst | frontend/service.go:418 | splitting at the first separator gives back the part before it when that part has none |
| Frontend.TrimPadded | frontend/service.go:422 | trimming " " + m gives m when m has no white space at its ends |
| Frontend.FormatIntNoColon | frontend/service.go:418-423 | a decimal code contains no ':' |
| Frontend.Convert | frontend/service.go:664-679 | an entry converts iff both hex fields decode; the txid is reversed into wire order, and the height is uint64 of the node's height |
| Frontend.ConvertFields | frontend/service.go:664-679 | a converted entry holds the decoded script, and int32 of the index and int64 of the satoshis; a failure carries the txid's hex error, or else the script's |
| Frontend.FullExactly | frontend/service.go:661 | below 2^32 - 1, the loop stops exactly at entry MaxEntries + 1 |
| Frontend.LimitCons | frontend/service.go:660-663 | a bound with room keeps the first entry and one less of the rest |
| Frontend.WalkDelivers | frontend/service.go:655-683 | the loop delivers the entries at or above the start height, at most MaxEntries of them when positive, converted in order until one fails to decode |
| Frontend.ConvertAllInOrder | frontend/service.go:664-683 | each delivered entry is the conversion of the entry at the same position. Without an error all are delivered; with one, the entry after the last delivered is the one that failed |
| Frontend.EligibleMembers | frontend/service.go:657-659 | the entries considered are exactly those at or above the start height |
| Frontend.GetAddressUtxos | frontend/service.go:631-685 | every address is checked first; then the reply is walked with the counter, skipping, stopping and failing as AddressUtxos says |

## Left out

- gRPC streaming, JSON encoding and decoding, the node connection, and
  logging. The node's replies are parameters, and JSON decoding of a
  string is a function value.
- The block cache and its ingestor. `startIngestor`/`stopIngestor` are a
  boolean flag; `cache.Reset` is not modelled.
- The mutex of the darkside state. The model is sequential.
- `DarksideInit` and its 30-minute fatal timer, and `DarksideStageBlocks`
  (an HTTP fetch and line scanner).
- The parser package, SHA-256 and Go's `string(int32)` conversion. They
  are function values in `Foreign` and `Node`.
- `Log.Fatal`: the model reports it as a `Fatal` status and says nothing
  about the state after it, since the process exits.
- Errors from `json.Marshal` of a string, and from `resp.Send` and the
  `getAddressUtxos` callback. The first cannot happen for strings; the
  others are transport errors.
- Darkside.ParseBlock: a block of at most 1487 bytes is refused where the
  Go parser, reading a length-prefixed Equihash solution, may accept it;
  the index-out-of-range panic Go would then hit when placing a
  transaction in such a block (`block[1487]`) is not modelled.
- Darkside.CommitPlaced: its own contract states only the start height
  and the clearing of the staged blocks; the status and blocks of each
  case are stated by Darkside.CommitPlacedCases, kept apart so that the
  proofs that use CommitPlaced stay small.
- Frontend.ParseRpcError: its own contract states the error text and the
  bounds; the exact reply for each split of the text is stated by
  Frontend.ParseRpcErrorSplit.
- Frontend.Convert: its own contract states success, the txid, address
  and height; the script, index, amount and error text are stated by
  Frontend.ConvertFields, kept apart for the same reason.
- Mempool.MempoolFilter: requires the two arrays to be distinct. The
  source calls it with two separate slices.
- Mempool.SortStrings: Go's `sort.Slice` algorithm is not modelled, only
  its result.
- MempoolCache.Cache.GetMempoolTx: the sorted exclude list is stated to
  exist, sorted and a permutation of the reversed-hex ids, rather than
  being named.
- MempoolCache.Cache.Refresh: `getrawmempool`'s reply arrives already
  decoded. A JSON error in it leaves the list as it was; Go's decoder
  could leave a partly filled list.
- Darkside.GetRawTransaction: a parameter shorter than 65 bytes panics.
  Go checks the slice bound against the capacity of the decoded buffer,
  which may exceed the text, so it may read past the text instead.
- Frontend.WalkDelivers: stated for MaxEntries below 2^32 - 1. At that
  value the counter's uint32 wrap keeps the loop from stopping.
- Frontend.GetAddressUtxos: the node's reply entries are given already
  decoded. Their field widths (int height, int64 index, uint64 satoshis)
  come from the RPC type definitions, which are not part of this model.
