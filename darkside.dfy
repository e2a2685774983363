/** The darksidewalletd mock node of common/darkside.go: a synthetic chain
    that test code builds block by block. Blocks and transactions are staged
    first and then committed to the active chain, which the mock node serves
    to the rest of the server through its raw-request dispatcher.

    The block and transaction parsers, the block hash and the marshalling of
    the synthetic block header belong to the parser package and are not part
    of this model; they are the function-valued fields of a `Foreign` record,
    fixed for the life of the state. */
module Darkside {

  import opened Wrappers
  import opened GoEncoding

  // ---------------------------------------------------------------------
  // Block layout and foreign code

  type Hash32 = h: Bytes | |h| == 32 witness ZeroHash

  const ZeroHash: Bytes := [0, 0, 0, 0, 0, 0, 0, 0, 0, 0, 0, 0, 0, 0, 0, 0, 0, 0, 0, 0, 0, 0, 0, 0, 0, 0, 0, 0, 0, 0, 0, 0]

  /** A block is a 1487-byte header followed by the transaction count. */
  const HeaderSize := 1487
  /** The transaction count byte. */
  const TxCountByte := 1487
  /** A byte of the final Sapling root, bumped so that the block hash changes. */
  const SaplingRootByte := 68
  /** The previous-block hash occupies bytes [4, 36) of the header. */
  const PrevHashStart := 4
  const PrevHashEnd := 36
  /** The transaction count is a one-byte compact size, so at most 253. */
  const MaxBlockTxs: byte := 253

  datatype Tx = Tx(displayHash: Bytes, raw: Bytes)
  datatype ParsedBlock = ParsedBlock(height: int, txs: seq<Tx>, rest: Bytes)
  datatype ParsedTx = ParsedTx(tx: Tx, rest: Bytes)

  /** The code this model takes as given: `Block.ParseFromSlice` with
      `GetHeight`/`Transactions`, `Transaction.ParseFromSlice` with
      `GetDisplayHash`, `GetEncodableHash`, the marshalled header of a
      synthetic block for a nonce and height (its merkle root is a SHA-256
      of the two), and `json.Unmarshal` of a raw parameter into a string. */
  datatype Foreign = Foreign(
    parseBlock: Bytes -> Result<ParsedBlock, string>,
    parseTransaction: Bytes -> Result<ParsedTx, string>,
    blockHash: Bytes -> Hash32,
    syntheticHeader: (int, int) -> Bytes,
    unmarshalString: string -> Option<string>)

  /** Block parsing as the model sees it: a block no longer than the offset
      of the transaction count (byte 1487, where a header with a 1344-byte
      Equihash solution ends) is refused with an error of its own, and any
      longer block gets the parser's result. The parser reads the solution
      behind a length prefix, so it may accept a shorter block; refusing
      those keeps byte 1487 in range wherever a block is patched. */
  function ParseBlock(f: Foreign, b: Bytes): (r: Result<ParsedBlock, string>)
    ensures r.Success? ==> |b| > TxCountByte && r == f.parseBlock(b)
    ensures |b| > TxCountByte ==> r == f.parseBlock(b)
  {
    if |b| <= TxCountByte then Failure(ErrShortBlock) else f.parseBlock(b)
  }

  /** The marshalled header of a synthetic block is exactly a header long. */
  ghost predicate HeadersSized(f: Foreign) {
    forall nonce, height :: |f.syntheticHeader(nonce, height)| == HeaderSize
  }

  predicate WellFormed(blocks: seq<Bytes>) {
    forall k :: 0 <= k < |blocks| ==> |blocks[k]| > TxCountByte
  }

  const ErrShortBlock := "block is shorter than a header"
  const ErrResetFirst := "please call Reset first"
  const ErrBlockTooLong := "block serialization is too long"
  const ErrPrevTooLong := "block is too long"
  const ErrTxTooLow := "transaction height too low"
  const ErrTxTooHigh := "transaction height too high"
  const ErrTooManyTxs := "too many transactions in a block (max 253)"
  const ErrTxNoBlock := "one or more transactions have no block"
  const ErrTxTooLong := "transaction serialization is too long"

  // ---------------------------------------------------------------------
  // Adding a block to the active chain (addBlockActive)

  /** The blocks of the active chain; `blocks[0]` is at height `start`. */
  datatype Chain = Chain(start: int, blocks: seq<Bytes>)

  /** A chain after an operation that may stop with an error part way. */
  datatype Step = Step(chain: Chain, err: Option<string>)

  /** `b` is `a` with at most its previous-block hash rewritten. */
  predicate OnlyPrevHashDiffers(a: Bytes, b: Bytes) {
    && |b| == |a|
    && forall k :: 0 <= k < |a| && !(PrevHashStart <= k < PrevHashEnd) ==> b[k] == a[k]
  }

  /** The block with its previous-block hash overwritten. */
  function SetPrevHash(b: Bytes, h: Hash32): (r: Bytes)
    requires |b| >= PrevHashEnd
    ensures |r| == |b| && r[PrevHashStart..PrevHashEnd] == h
    ensures forall k :: 0 <= k < |b| && !(PrevHashStart <= k < PrevHashEnd) ==> r[k] == b[k]
  {
    b[..PrevHashStart] + h + b[PrevHashEnd..]
  }

  /** Block `b` added to chain `c`: it replaces the block at its own height
      and everything after it; a block that does not extend the chain
      contiguously, or lies below it, starts a new chain. A block placed after
      another takes that block's hash as its previous-block hash. */
  function AddBlock(f: Foreign, c: Chain, b: Bytes): (r: Step)
    requires WellFormed(c.blocks)
    ensures WellFormed(r.chain.blocks)
    ensures r.err.None? ==> |r.chain.blocks| > 0
  {
    match ParseBlock(f, b)
    case Failure(e) => Step(c, Some(e))
    case Success(p) =>
      if p.rest != [] then Step(c, Some(ErrBlockTooLong))
      else
        var h := p.height;
        var kept := if h > c.start + |c.blocks| || h < c.start then [] else c.blocks[..h - c.start];
        if kept == [] then Step(Chain(h, [b]), None)
        else
          var prev := kept[|kept| - 1];
          match ParseBlock(f, prev)
          case Failure(e) => Step(Chain(c.start, kept), Some(e))
          case Success(q) =>
            if q.rest != [] then Step(Chain(c.start, kept), Some(ErrPrevTooLong))
            else Step(Chain(c.start, kept + [SetPrevHash(b, f.blockHash(prev))]), None)
  }

  /** Where `AddBlock` puts a block: a block that does not parse changes
      nothing; an added block is the tip, at its own height, after the kept
      prefix of the old chain, linked to the block before it; a block off
      either end of the chain, or at its start, is a chain of its own. */
  lemma AddBlockEffect(f: Foreign, c: Chain, b: Bytes)
    requires WellFormed(c.blocks)
    ensures var r := AddBlock(f, c, b);
      && (ParseBlock(f, b).Failure? || ParseBlock(f, b).value.rest != [] ==> r.chain == c && r.err.Some?)
      && (r.err.None? ==>
            && ParseBlock(f, b).Success?
            && |r.chain.blocks| > 0
            && r.chain.start + |r.chain.blocks| - 1 == ParseBlock(f, b).value.height)
      && (r.err.None? && |r.chain.blocks| == 1 ==> r.chain == Chain(ParseBlock(f, b).value.height, [b]))
      && (r.err.None? && |r.chain.blocks| > 1 ==>
            && r.chain.start == c.start
            && |r.chain.blocks| - 1 <= |c.blocks|
            && r.chain.blocks[..|r.chain.blocks| - 1] == c.blocks[..|r.chain.blocks| - 1]
            && r.chain.blocks[|r.chain.blocks| - 1] == SetPrevHash(b, f.blockHash(r.chain.blocks[|r.chain.blocks| - 2])))
      && (r.err.None? && (ParseBlock(f, b).value.height > c.start + |c.blocks| || ParseBlock(f, b).value.height <= c.start) ==>
            r.chain == Chain(ParseBlock(f, b).value.height, [b]))
  {
  }

  /** A merge of the staged blocks: the chain it leaves, the first error,
      and the staged blocks as it leaves them. The block appended to the
      chain shares its bytes with the staged entry, so linking it rewrites
      the staged entry's previous-block hash too. */
  datatype Merge = Merge(chain: Chain, err: Option<string>, staged: seq<Bytes>)

  /** The staged blocks added one after another, in arrival order, stopping
      at the first error; each entry added is left as it went into the
      chain. */
  function MergeAll(f: Foreign, c: Chain, staged: seq<Bytes>): (r: Merge)
    requires WellFormed(c.blocks)
    ensures WellFormed(r.chain.blocks)
    ensures |r.staged| == |staged|
    ensures staged == [] ==> r == Merge(c, None, [])
    decreases |staged|
  {
    if staged == [] then Merge(c, None, [])
    else
      var s := AddBlock(f, c, staged[0]);
      if s.err.Some? then Merge(s.chain, s.err, staged)
      else
        Prefixed([s.chain.blocks[|s.chain.blocks| - 1]], MergeAll(f, s.chain, staged[1..]))
  }

  /** A merge changes each staged entry at most in its previous-block hash. */
  lemma {:induction false} MergeAllPatchesPrevHash(f: Foreign, c: Chain, staged: seq<Bytes>)
    requires WellFormed(c.blocks)
    ensures forall k :: 0 <= k < |staged| ==> OnlyPrevHashDiffers(staged[k], MergeAll(f, c, staged).staged[k])
    decreases |staged|
  {
    if staged != [] {
      var s := AddBlock(f, c, staged[0]);
      if s.err.None? {
        MergeAllPatchesPrevHash(f, s.chain, staged[1..]);
        AddBlockEffect(f, c, staged[0]);
        PatchedCons(staged, s.chain.blocks[|s.chain.blocks| - 1], MergeAll(f, s.chain, staged[1..]).staged);
      }
    }
  }

  /** Entries each changed at most in their previous-block hash, with one
      more such entry in front. */
  lemma PatchedCons(staged: seq<Bytes>, first: Bytes, later: seq<Bytes>)
    requires staged != [] && OnlyPrevHashDiffers(staged[0], first) && |later| == |staged| - 1
    requires forall k :: 0 <= k < |later| ==> OnlyPrevHashDiffers(staged[1..][k], later[k])
    ensures forall k :: 0 <= k < |staged| ==> OnlyPrevHashDiffers(staged[k], ([first] + later)[k])
  {
    forall k | 1 <= k < |staged|
      ensures OnlyPrevHashDiffers(staged[k], ([first] + later)[k])
    {
      assert staged[k] == staged[1..][k - 1] && ([first] + later)[k] == later[k - 1];
    }
  }

  /** After a failed merge, the entry that failed and every later one are as
      they were staged, and the entries before it were each added without
      error and are left as they went into the chain. */
  lemma {:induction false} MergeAllFailure(f: Foreign, c: Chain, staged: seq<Bytes>)
    requires WellFormed(c.blocks)
    requires MergeAll(f, c, staged).err.Some?
    ensures var r := MergeAll(f, c, staged);
      exists i :: 0 <= i < |staged| && r.staged[i..] == staged[i..] && Merged(f, c, staged[..i], r.staged[..i])
    decreases |staged|
  {
    var s := AddBlock(f, c, staged[0]);
    var r := MergeAll(f, c, staged);
    if s.err.Some? {
      assert r.staged[0..] == staged[0..] && staged[..0] == [] && r.staged[..0] == [];
    } else {
      var m := MergeAll(f, s.chain, staged[1..]);
      MergeAllFailure(f, s.chain, staged[1..]);
      var i :| 0 <= i < |staged[1..]| && m.staged[i..] == staged[1..][i..] && Merged(f, s.chain, staged[1..][..i], m.staged[..i]);
      MergedCons(f, c, staged, m.staged, i);
    }
  }

  /** The entries merged before a failure, with one more merged entry in
      front. */
  lemma MergedCons(f: Foreign, c: Chain, staged: seq<Bytes>, later: seq<Bytes>, i: int)
    requires WellFormed(c.blocks) && staged != [] && AddBlock(f, c, staged[0]).err.None?
    requires 0 <= i < |staged| - 1 == |later|
    requires later[i..] == staged[1..][i..] && Merged(f, AddBlock(f, c, staged[0]).chain, staged[1..][..i], later[..i])
    ensures var s := AddBlock(f, c, staged[0]);
      var after := [s.chain.blocks[|s.chain.blocks| - 1]] + later;
      after[i + 1..] == staged[i + 1..] && Merged(f, c, staged[..i + 1], after[..i + 1])
  {
    var s := AddBlock(f, c, staged[0]);
    var after := [s.chain.blocks[|s.chain.blocks| - 1]] + later;
    assert after[i + 1..] == later[i..] && staged[i + 1..] == staged[1..][i..];
    assert staged[..i + 1][0] == staged[0] && staged[..i + 1][1..] == staged[1..][..i];
    assert after[..i + 1][0] == after[0] && after[..i + 1][1..] == later[..i];
  }

  /** A merge with entries already merged put before its staged list. */
  function Prefixed(done: seq<Bytes>, m: Merge): (r: Merge)
    ensures r.chain == m.chain && r.err == m.err && r.staged == done + m.staged
  {
    m.(staged := done + m.staged)
  }

  /** One step of a merge from entry `i` on, where `merged` holds the
      entries before `i` as merged and the rest as staged: an entry that
      fails ends the merge with `merged` as it is; an entry added is
      written back as linked. */
  lemma MergeStep(f: Foreign, c: Chain, staged: seq<Bytes>, i: int, merged: seq<Bytes>, s: Step)
    requires WellFormed(c.blocks) && 0 <= i < |staged| == |merged|
    requires merged[i..] == staged[i..]
    requires s == AddBlock(f, c, staged[i])
    ensures s.err.Some? ==> Prefixed(merged[..i], MergeAll(f, c, staged[i..])) == Merge(s.chain, s.err, merged)
    ensures s.err.None? ==>
      var next := merged[i := s.chain.blocks[|s.chain.blocks| - 1]];
      && next[i + 1..] == staged[i + 1..]
      && Prefixed(merged[..i], MergeAll(f, c, staged[i..])) == Prefixed(next[..i + 1], MergeAll(f, s.chain, staged[i + 1..]))
  {
    assert staged[i..][0] == staged[i] && staged[i..][1..] == staged[i + 1..];
    if s.err.None? {
      var tip := s.chain.blocks[|s.chain.blocks| - 1];
      var m := MergeAll(f, s.chain, staged[i + 1..]);
      assert merged[..i] + ([tip] + m.staged) == (merged[..i] + [tip]) + m.staged;
      assert merged[i := tip][..i + 1] == merged[..i] + [tip];
      assert merged[i := tip][i + 1..] == merged[i + 1..] == staged[i + 1..];
    } else {
      assert merged == merged[..i] + staged[i..];
    }
  }

  /** Every one of `staged` is added without error, and `after` holds each
      as it went into the chain. */
  predicate Merged(f: Foreign, c: Chain, staged: seq<Bytes>, after: seq<Bytes>)
    requires WellFormed(c.blocks)
    decreases |staged|
  {
    if staged == [] then after == []
    else
      var s := AddBlock(f, c, staged[0]);
      && s.err.None? && |after| > 0
      && after[0] == s.chain.blocks[|s.chain.blocks| - 1]
      && Merged(f, s.chain, staged[1..], after[1..])
  }

  /** After staging blocks without error, the tip is the last staged block,
      at its own height. */
  lemma {:induction false} MergeAllTip(f: Foreign, c: Chain, staged: seq<Bytes>)
    requires WellFormed(c.blocks)
    requires MergeAll(f, c, staged).err.None? && |staged| > 0
    ensures var r := MergeAll(f, c, staged);
      && ParseBlock(f, staged[|staged| - 1]).Success?
      && |r.chain.blocks| > 0
      && r.chain.start + |r.chain.blocks| - 1 == ParseBlock(f, staged[|staged| - 1]).value.height
      && r.staged[|staged| - 1] == r.chain.blocks[|r.chain.blocks| - 1]
    decreases |staged|
  {
    var s := AddBlock(f, c, staged[0]);
    AddBlockEffect(f, c, staged[0]);
    if |staged| > 1 {
      assert staged[1..][|staged| - 2] == staged[|staged| - 1];
      MergeAllTip(f, s.chain, staged[1..]);
      assert MergeAll(f, c, staged).staged[|staged| - 1] == MergeAll(f, s.chain, staged[1..]).staged[|staged| - 2];
    }
  }

  // ---------------------------------------------------------------------
  // Placing staged transactions into active blocks

  datatype StagedTx = StagedTx(height: int, bytes: Bytes)

  /** `after` is `before` with one more transaction: the count byte and the
      Sapling-root byte each up by one (mod 256) and `tx` appended. */
  predicate Bumped(before: Bytes, tx: Bytes, after: Bytes)
    requires |before| > TxCountByte
  {
    && |after| == |before| + |tx|
    && after[TxCountByte] == Inc(before[TxCountByte])
    && after[SaplingRootByte] == Inc(before[SaplingRootByte])
    && (forall k :: 0 <= k < |before| && k != TxCountByte && k != SaplingRootByte ==> after[k] == before[k])
    && after[|before|..] == tx
  }

  /** One staged transaction appended to the active block at its height. */
  function PlaceTx(start: int, blocks: seq<Bytes>, tx: StagedTx): (r: Result<seq<Bytes>, string>)
    requires WellFormed(blocks)
    ensures r.Success? ==> |r.value| == |blocks| && WellFormed(r.value)
  {
    if tx.height < start then Failure(ErrTxTooLow)
    else if tx.height >= start + |blocks| then Failure(ErrTxTooHigh)
    else
      var k := tx.height - start;
      var b := blocks[k];
      if b[TxCountByte] == MaxBlockTxs then Failure(ErrTooManyTxs)
      else
        var bumped := b[TxCountByte := Inc(b[TxCountByte])][SaplingRootByte := Inc(b[SaplingRootByte])];
        Success(blocks[k := bumped + tx.bytes])
  }

  /** A staged transaction is placed exactly when an active block is at its
      height and that block is not full; the block gains one transaction and
      no other block changes. */
  lemma PlaceTxEffect(start: int, blocks: seq<Bytes>, tx: StagedTx)
    requires WellFormed(blocks)
    ensures var r := PlaceTx(start, blocks, tx);
      && (r.Success? <==> start <= tx.height < start + |blocks| && blocks[tx.height - start][TxCountByte] != MaxBlockTxs)
      && (tx.height < start ==> r == Failure(ErrTxTooLow))
      && (start + |blocks| <= tx.height ==> r == Failure(ErrTxTooHigh))
      && (r.Success? ==>
        && Bumped(blocks[tx.height - start], tx.bytes, r.value[tx.height - start])
        && (forall k :: 0 <= k < |blocks| && k != tx.height - start ==> r.value[k] == blocks[k]))
  {
    var r := PlaceTx(start, blocks, tx);
    if r.Success? {
      var k := tx.height - start;
      var b := blocks[k];
      var after := r.value[k];
      assert after[|b|..] == tx.bytes;
    }
  }

  datatype Placed = Placed(blocks: seq<Bytes>, err: Option<string>)

  /** The staged transactions placed in order, stopping at the first error;
      the blocks patched before it stay patched. */
  function PlaceAll(start: int, blocks: seq<Bytes>, txs: seq<StagedTx>): (r: Placed)
    requires WellFormed(blocks)
    ensures |r.blocks| == |blocks| && WellFormed(r.blocks)
    ensures r.err.Some? ==> r.err.value in {ErrTxTooLow, ErrTxTooHigh, ErrTooManyTxs}
    ensures txs == [] ==> r == Placed(blocks, None)
    decreases |txs|
  {
    if txs == [] then Placed(blocks, None)
    else match PlaceTx(start, blocks, txs[0])
      case Failure(e) => Placed(blocks, Some(e))
      case Success(next) => PlaceAll(start, next, txs[1..])
  }

  // ---------------------------------------------------------------------
  // Relinking the active chain (setPrevhash)

  /** Every block's previous-block hash rewritten in one pass: the first
      block's to `prev`, each later one's to the hash of the block before it
      as rewritten. A block that no longer parses is fatal. */
  function Relink(f: Foreign, blocks: seq<Bytes>, prev: Hash32): (r: Result<seq<Bytes>, string>)
    requires WellFormed(blocks)
    ensures r.Success? ==> |r.value| == |blocks| && WellFormed(r.value)
    decreases |blocks|
  {
    if blocks == [] then Success([])
    else match ParseBlock(f, blocks[0])
      case Failure(e) => Failure(e)
      case Success(p) =>
        if p.rest != [] then Failure(ErrPrevTooLong)
        else
          var patched := SetPrevHash(blocks[0], prev);
          match Relink(f, blocks[1..], f.blockHash(patched))
          case Failure(e) => Failure(e)
          case Success(rest) => Success([patched] + rest)
  }

  /** Each block after the first names the hash of its predecessor. */
  predicate Linked(f: Foreign, blocks: seq<Bytes>)
    requires WellFormed(blocks)
  {
    forall k :: 0 < k < |blocks| ==> blocks[k][PrevHashStart..PrevHashEnd] == f.blockHash(blocks[k - 1])
  }

  /** Outside the previous-block hash the two blocks agree. */
  predicate SameOutsidePrevHash(a: Bytes, b: Bytes) {
    |a| == |b| && forall k :: 0 <= k < |a| && !(PrevHashStart <= k < PrevHashEnd) ==> a[k] == b[k]
  }

  /** A relinked chain is linked, starts from `prev`, and changed nothing but
      previous-block hashes. */
  lemma {:induction false} RelinkLinks(f: Foreign, blocks: seq<Bytes>, prev: Hash32)
    requires WellFormed(blocks) && Relink(f, blocks, prev).Success?
    ensures var r := Relink(f, blocks, prev).value;
      && Linked(f, r)
      && (|r| > 0 ==> r[0][PrevHashStart..PrevHashEnd] == prev)
      && (forall k :: 0 <= k < |r| ==> SameOutsidePrevHash(r[k], blocks[k]))
    decreases |blocks|
  {
    if blocks != [] {
      var patched := SetPrevHash(blocks[0], prev);
      var tail := blocks[1..];
      RelinkLinks(f, tail, f.blockHash(patched));
      var rest := Relink(f, tail, f.blockHash(patched)).value;
      var r := Relink(f, blocks, prev).value;
      assert r == [patched] + rest;
      forall k | 0 < k < |r|
        ensures r[k][PrevHashStart..PrevHashEnd] == f.blockHash(r[k - 1])
      {
        assert r[k] == rest[k - 1];
        if k > 1 {
          assert r[k - 1] == rest[k - 2];
        }
      }
      forall k | 0 <= k < |r|
        ensures SameOutsidePrevHash(r[k], blocks[k])
      {
        if k > 0 {
          assert r[k] == rest[k - 1] && blocks[k] == tail[k - 1];
        }
      }
    }
  }

  // ---------------------------------------------------------------------
  // The whole state and the commit (DarksideApplyStaged)

  /** The value of every field of the darkside state. */
  datatype Snapshot = Snapshot(
    resetted: bool,
    startHeight: int,
    saplingActivation: int,
    branchID: string,
    chainName: string,
    latestHeight: int,
    activeBlocks: seq<Bytes>,
    stagedBlocks: seq<Bytes>,
    incomingTransactions: seq<Bytes>,
    stagedTransactions: seq<StagedTx>,
    ingestorRunning: bool)

  /** An error is returned to the caller; a fatal error ends the process. */
  datatype Status = Ok | Error(message: string) | Fatal(message: string)

  datatype Applied = Applied(state: Snapshot, status: Status)

  /** What a commit does: the chain and the staged blocks it leaves, and how
      it ended. */
  datatype Commit = Commit(chain: Chain, staged: seq<Bytes>, status: Status)

  /** The commit of a reset state: staged blocks into the chain, then staged
      transactions into their blocks, then the chain relinked. Any staged
      transaction makes it fail after it has been placed. */
  function CommitStaged(f: Foreign, c: Chain, staged: seq<Bytes>, txs: seq<StagedTx>): (r: Commit)
    requires WellFormed(c.blocks)
    ensures WellFormed(r.chain.blocks)
  {
    var m := MergeAll(f, c, staged);
    if m.err.Some? then Commit(m.chain, m.staged, Error(m.err.value))
    else CommitPlaced(f, m.chain, txs)
  }

  /** The rest of a commit once the staged blocks are in the chain: the
      staged transactions placed, then the chain relinked. */
  function CommitPlaced(f: Foreign, c: Chain, txs: seq<StagedTx>): (r: Commit)
    requires WellFormed(c.blocks)
    ensures WellFormed(r.chain.blocks)
    ensures r.chain.start == c.start && r.staged == []
  {
    var p := PlaceAll(c.start, c.blocks, txs);
    var placed := Chain(c.start, p.blocks);
    if p.err.Some? then Commit(placed, [], Error(p.err.value))
    else if txs != [] then Commit(placed, [], Error(ErrTxNoBlock))
    else match Relink(f, p.blocks, ZeroHash)
      case Failure(e) => Commit(placed, [], Fatal(e))
      case Success(linked) => Commit(Chain(c.start, linked), [], Ok)
  }

  /** With any transaction staged the commit fails and leaves the blocks as
      placed, unlinked; with none it succeeds exactly when the relink does,
      and a failed relink leaves the chain as it was. */
  lemma CommitPlacedCases(f: Foreign, c: Chain, txs: seq<StagedTx>)
    requires WellFormed(c.blocks)
    ensures var r, p := CommitPlaced(f, c, txs), PlaceAll(c.start, c.blocks, txs);
      txs != [] ==> r.chain.blocks == p.blocks && r.status == Error(if p.err.Some? then p.err.value else ErrTxNoBlock)
    ensures var r := CommitPlaced(f, c, txs);
      txs == [] ==> (r.status.Ok? <==> Relink(f, c.blocks, ZeroHash).Success?)
    ensures var r := CommitPlaced(f, c, txs);
      txs == [] && r.status.Ok? ==> r.chain.blocks == Relink(f, c.blocks, ZeroHash).value
    ensures var r := CommitPlaced(f, c, txs);
      txs == [] && !r.status.Ok? ==>
        r.chain.blocks == c.blocks && r.status == Fatal(Relink(f, c.blocks, ZeroHash).error)
  {
  }

  /** DarksideApplyStaged on the whole state. */
  function ApplyStaged(f: Foreign, s: Snapshot, height: int): (r: Applied)
    requires WellFormed(s.activeBlocks)
    ensures WellFormed(r.state.activeBlocks)
    ensures !s.resetted ==> r == Applied(s, Error(ErrResetFirst))
  {
    if !s.resetted then Applied(s, Error(ErrResetFirst))
    else
      var c := CommitStaged(f, Chain(s.startHeight, s.activeBlocks), s.stagedBlocks, s.stagedTransactions);
      var ok := c.status.Ok?;
      Applied(s.(startHeight := c.chain.start,
                 activeBlocks := c.chain.blocks,
                 stagedBlocks := c.staged,
                 latestHeight := if ok then height else s.latestHeight,
                 ingestorRunning := if ok then |c.chain.blocks| > 0 else s.ingestorRunning),
              c.status)
  }

  /** How a commit of a reset state is read off the chain-level commit. */
  lemma ApplyStagedIs(f: Foreign, s: Snapshot, height: int)
    requires WellFormed(s.activeBlocks) && s.resetted
    ensures var c := CommitStaged(f, Chain(s.startHeight, s.activeBlocks), s.stagedBlocks, s.stagedTransactions);
      ApplyStaged(f, s, height) == Applied(s.(startHeight := c.chain.start,
                 activeBlocks := c.chain.blocks,
                 stagedBlocks := c.staged,
                 latestHeight := if c.status.Ok? then height else s.latestHeight,
                 ingestorRunning := if c.status.Ok? then |c.chain.blocks| > 0 else s.ingestorRunning),
              c.status)
  {
  }

  /** A commit touches only the chain, the staged blocks, the tip height and
      the ingestor. */
  lemma ApplyStagedFrame(f: Foreign, s: Snapshot, height: int)
    requires WellFormed(s.activeBlocks)
    ensures var t := ApplyStaged(f, s, height).state;
      && t.resetted == s.resetted && t.saplingActivation == s.saplingActivation
      && t.branchID == s.branchID && t.chainName == s.chainName
      && t.incomingTransactions == s.incomingTransactions
      && t.stagedTransactions == s.stagedTransactions
  {
  }

  /** With a transaction staged the commit fails: either merging a staged
      block fails first, or the staged blocks are merged and cleared and the
      transactions placed, and the chain is left as placed, not relinked.
      The staged transactions stay and the tip height is not set. */
  lemma ApplyStagedWithTransactions(f: Foreign, s: Snapshot, height: int)
    requires WellFormed(s.activeBlocks)
    requires s.resetted && s.stagedTransactions != []
    ensures var r := ApplyStaged(f, s, height);
      && r.status.Error?
      && r.state.stagedTransactions == s.stagedTransactions
      && r.state.latestHeight == s.latestHeight
      && r.state.ingestorRunning == s.ingestorRunning
    ensures var r := ApplyStaged(f, s, height);
      var m := MergeAll(f, Chain(s.startHeight, s.activeBlocks), s.stagedBlocks);
      && (m.err.Some? ==> r.status == Error(m.err.value) && r.state.activeBlocks == m.chain.blocks
                          && r.state.stagedBlocks == m.staged)
      && (m.err.None? ==>
            var p := PlaceAll(m.chain.start, m.chain.blocks, s.stagedTransactions);
            && r.state.activeBlocks == p.blocks && r.state.stagedBlocks == []
            && r.status == Error(if p.err.Some? then p.err.value else ErrTxNoBlock))
  {
    var m := MergeAll(f, Chain(s.startHeight, s.activeBlocks), s.stagedBlocks);
    if m.err.None? {
      CommitPlacedCases(f, m.chain, s.stagedTransactions);
    }
  }

  /** A staged block that fails to merge ends the commit with its error. The
      chain is left as merged so far and nothing else changes but the staged
      blocks: they stay, each rewritten at most in its previous-block hash,
      for an entry merged before the failure was linked in place. */
  lemma ApplyStagedMergeFails(f: Foreign, s: Snapshot, height: int)
    requires WellFormed(s.activeBlocks) && s.resetted
    requires MergeAll(f, Chain(s.startHeight, s.activeBlocks), s.stagedBlocks).err.Some?
    ensures var r, m := ApplyStaged(f, s, height), MergeAll(f, Chain(s.startHeight, s.activeBlocks), s.stagedBlocks);
      && r.status == Error(m.err.value)
      && r.state == s.(startHeight := m.chain.start, activeBlocks := m.chain.blocks, stagedBlocks := m.staged)
    ensures var t := ApplyStaged(f, s, height).state;
      && |t.stagedBlocks| == |s.stagedBlocks|
      && forall k :: 0 <= k < |s.stagedBlocks| ==> OnlyPrevHashDiffers(s.stagedBlocks[k], t.stagedBlocks[k])
  {
    MergeAllPatchesPrevHash(f, Chain(s.startHeight, s.activeBlocks), s.stagedBlocks);
  }

  /** A successful commit had no staged transactions; it empties the staged
      blocks, leaves the chain linked from a zero hash, and sets the tip. */
  lemma ApplyStagedCommitted(f: Foreign, s: Snapshot, height: int)
    requires WellFormed(s.activeBlocks)
    requires ApplyStaged(f, s, height).status.Ok?
    ensures var t := ApplyStaged(f, s, height).state;
      && s.resetted && s.stagedTransactions == []
      && t.stagedBlocks == []
      && t.latestHeight == height
      && Linked(f, t.activeBlocks)
      && (|t.activeBlocks| > 0 ==> t.activeBlocks[0][PrevHashStart..PrevHashEnd] == ZeroHash)
      && t.ingestorRunning == (|t.activeBlocks| > 0)
  {
    var m := MergeAll(f, Chain(s.startHeight, s.activeBlocks), s.stagedBlocks);
    var p := PlaceAll(m.chain.start, m.chain.blocks, s.stagedTransactions);
    RelinkLinks(f, p.blocks, ZeroHash);
  }

  /** Committing a reset state with nothing staged only relinks the chain and
      sets the tip height. */
  lemma ApplyNothingStaged(f: Foreign, s: Snapshot, height: int)
    requires WellFormed(s.activeBlocks)
    requires s.resetted && s.stagedBlocks == [] && s.stagedTransactions == []
    ensures var r := ApplyStaged(f, s, height);
      && (r.status.Ok? <==> Relink(f, s.activeBlocks, ZeroHash).Success?)
      && (r.status.Ok? ==>
            r.state.activeBlocks == Relink(f, s.activeBlocks, ZeroHash).value && r.state.startHeight == s.startHeight)
  {
  }

  /** Once a transaction is staged, every commit fails until the next reset,
      and the transaction is placed again by each attempt. */
  lemma StagedTransactionsBlockCommit(f: Foreign, s: Snapshot, h1: int, h2: int)
    requires WellFormed(s.activeBlocks)
    requires s.resetted && s.stagedTransactions != []
    ensures var first := ApplyStaged(f, s, h1).state;
      && ApplyStaged(f, s, h1).status.Error?
      && ApplyStaged(f, first, h2).status.Error?
      && ApplyStaged(f, first, h2).state.stagedTransactions == s.stagedTransactions
      && ApplyStaged(f, first, h2).state.latestHeight == s.latestHeight
  {
    ApplyStagedWithTransactions(f, s, h1);
    ApplyStagedFrame(f, s, h1);
    var first := ApplyStaged(f, s, h1).state;
    ApplyStagedWithTransactions(f, first, h2);
  }

  // ---------------------------------------------------------------------
  // Synthetic blocks (DarksideStageBlocksCreate)

  /** The coinbase transaction of block 797905, the template of every
      synthetic block: the bytes before its height, the height 797905 in
      little-endian, and the bytes after it. */
  const CoinbaseHead: Bytes := [
    0x04, 0x00, 0x00, 0x80, 0x85, 0x20, 0x2f, 0x89, 0x01, 0x00, 0x00, 0x00,
    0x00, 0x00, 0x00, 0x00, 0x00, 0x00, 0x00, 0x00, 0x00, 0x00, 0x00, 0x00,
    0x00, 0x00, 0x00, 0x00, 0x00, 0x00, 0x00, 0x00, 0x00, 0x00, 0x00, 0x00,
    0x00, 0x00, 0x00, 0x00, 0x00, 0xff, 0xff, 0xff, 0xff, 0x2a, 0x03
  ]
  const TemplateHeightBytes: Bytes := [0xd1, 0x2c, 0x0c, 0x00]
  const CoinbaseTail: Bytes := [
    0x04, 0x38, 0x55, 0x97, 0x5e, 0x46, 0x4b, 0x88, 0x96, 0x79, 0x07, 0x58,
    0xf8, 0x24, 0xce, 0xac, 0x97, 0x83, 0x62, 0x2c, 0x17, 0xed, 0x38, 0xf1,
    0x66, 0x9b, 0x8a, 0x45, 0xce, 0x1d, 0xa8, 0x57, 0xdb, 0xbe, 0x79, 0x50,
    0xe2, 0xff, 0xff, 0xff, 0xff, 0x02, 0xa0, 0xeb, 0xce, 0x1d, 0x00, 0x00,
    0x00, 0x00, 0x19, 0x76, 0xa9, 0x14, 0x7e, 0xd1, 0x59, 0x46, 0xec, 0x14,
    0xae, 0x0c, 0xd8, 0xfa, 0x89, 0x91, 0xeb, 0x60, 0x84, 0x45, 0x2e, 0xb3,
    0xf7, 0x7c, 0x88, 0xac, 0x40, 0x59, 0x73, 0x07, 0x00, 0x00, 0x00, 0x00,
    0x17, 0xa9, 0x14, 0xe4, 0x45, 0xcf, 0xa9, 0x44, 0xb6, 0xf2, 0xbd, 0xac,
    0xef, 0xbd, 0xa9, 0x04, 0xa8, 0x1d, 0x5f, 0xdd, 0x26, 0xd7, 0x7f, 0x87,
    0x00, 0x00, 0x00, 0x00, 0x00, 0x00, 0x00, 0x00, 0x00, 0x00, 0x00, 0x00,
    0x00, 0x00, 0x00, 0x00, 0x00, 0x00, 0x00
  ]
  const CoinbaseTemplate: Bytes := CoinbaseHead + TemplateHeightBytes + CoinbaseTail

  /** Where the template holds its block height, and its length. */
  const CoinbaseHeightAt := 47
  const CoinbaseSize := 178

  lemma TemplateHeight()
    ensures |CoinbaseHead| == CoinbaseHeightAt && |CoinbaseTail| == CoinbaseSize - CoinbaseHeightAt - 4
    ensures |CoinbaseTemplate| == CoinbaseSize
    ensures CoinbaseTemplate[CoinbaseHeightAt..CoinbaseHeightAt + 4] == TemplateHeightBytes
    ensures Int32FromLittleEndian(TemplateHeightBytes) == 797905
  {
    assert CoinbaseTemplate[CoinbaseHeightAt..CoinbaseHeightAt + 4] == TemplateHeightBytes;
  }

  /** The template with its height bytes replaced by those of `height`. */
  function Coinbase(height: int): (r: Bytes)
    ensures |r| == CoinbaseSize
  {
    TemplateHeight();
    CoinbaseHead + LittleEndian32(height) + CoinbaseTail
  }

  /** The coinbase of a synthetic block differs from the template only in
      the four bytes of its height, which hold `height` in little-endian. */
  lemma CoinbaseReplacesHeight(height: int)
    ensures |Coinbase(height)| == |CoinbaseTemplate|
    ensures Coinbase(height)[..CoinbaseHeightAt] == CoinbaseTemplate[..CoinbaseHeightAt]
    ensures Coinbase(height)[CoinbaseHeightAt..CoinbaseHeightAt + 4] == LittleEndian32(height)
    ensures Coinbase(height)[CoinbaseHeightAt + 4..] == CoinbaseTemplate[CoinbaseHeightAt + 4..]
  {
    TemplateHeight();
    var r := Coinbase(height);
    assert r[..CoinbaseHeightAt] == CoinbaseHead;
    assert r[CoinbaseHeightAt + 4..] == CoinbaseTail;
  }

  /** Header, a transaction count of one, and the coinbase. */
  function SyntheticBlock(f: Foreign, height: int, nonce: int): Bytes {
    f.syntheticHeader(nonce, height) + [1] + Coinbase(height)
  }

  function Max0(n: int): nat {
    if n > 0 then n else 0
  }

  /** The `count` blocks made by one call, at int32 heights counting up (and
      wrapping) from `height`. */
  function SyntheticBlocks(f: Foreign, height: int, nonce: int, count: int): (r: seq<Bytes>)
    ensures |r| == Max0(count)
  {
    seq(Max0(count), i => SyntheticBlock(f, Int32(height + i), nonce))
  }

  /** Block `i` of a synthetic run is one header long plus a one-transaction
      count, and its coinbase is the template with the height `height + i`
      (as int32) in place of the template's own. */
  lemma SyntheticBlockHeight(f: Foreign, height: int, nonce: int, count: int, i: int)
    requires HeadersSized(f) && 0 <= i < count
    ensures SyntheticHeight(SyntheticBlocks(f, height, nonce, count)[i], Int32(height + i))
  {
    CoinbaseHeight(f, nonce, Int32(height + i));
    assert SyntheticBlocks(f, height, nonce, count)[i] == SyntheticBlock(f, Int32(height + i), nonce);
  }

  /** `b` has the size of a synthetic block, a transaction count of one,
      and after them the coinbase template with the height `h` in place of
      the template's. */
  predicate SyntheticHeight(b: Bytes, h: int) {
    var at := HeaderSize + 1 + CoinbaseHeightAt;
    && |b| == HeaderSize + 1 + CoinbaseSize
    && b[TxCountByte] == 1
    && b[HeaderSize + 1..at] == CoinbaseTemplate[..CoinbaseHeightAt]
    && Int32FromLittleEndian(b[at..at + 4]) == h
    && b[at + 4..] == CoinbaseTemplate[CoinbaseHeightAt + 4..]
  }

  lemma CoinbaseHeight(f: Foreign, nonce: int, h: int)
    requires HeadersSized(f) && IsInt32(h)
    ensures SyntheticHeight(SyntheticBlock(f, h, nonce), h)
  {
    CoinbaseReplacesHeight(h);
    SyntheticLayout(f.syntheticHeader(nonce, h), Coinbase(h), h);
  }

  lemma SyntheticLayout(header: Bytes, coinbase: Bytes, h: int)
    requires |header| == HeaderSize && |coinbase| == CoinbaseSize && IsInt32(h)
    requires coinbase[..CoinbaseHeightAt] == CoinbaseTemplate[..CoinbaseHeightAt]
    requires coinbase[CoinbaseHeightAt..CoinbaseHeightAt + 4] == LittleEndian32(h)
    requires coinbase[CoinbaseHeightAt + 4..] == CoinbaseTemplate[CoinbaseHeightAt + 4..]
    ensures SyntheticHeight(header + [1] + coinbase, h)
  {
    var b := header + [1] + coinbase;
    var at := HeaderSize + 1 + CoinbaseHeightAt;
    assert b[HeaderSize + 1..at] == coinbase[..CoinbaseHeightAt];
    assert b[at..at + 4] == coinbase[CoinbaseHeightAt..CoinbaseHeightAt + 4];
    assert b[at + 4..] == coinbase[CoinbaseHeightAt + 4..];
    LittleEndian32RoundTrip(h);
  }

  lemma Int32OfInt32(x: int)
    requires IsInt32(x)
    ensures Int32(x) == x
  {
    if x < 0 {
      assert x % TwoTo32 == x + TwoTo32;
    }
  }

  // ---------------------------------------------------------------------
  // The mock node's replies

  /** A result of `darksideRawRequest`: the values a reply carries, an error
      message, or a Go run-time panic. */
  datatype Reply =
    | ChainInfo(chain: string, saplingActivation: int, headers: int, branchID: string)
    | Json(text: string)
    | RawTransaction(hex: string, height: int)
    | NoResult
    | RpcError(message: string)
    | Panic(reason: string)

  const ErrNotFound := "-8:"
  const ErrNoSuchTx := "-5: " + "No information available about transaction"
  const ErrUnsupported := "there was an attempt to call an unsupported RPC"

  /** `getblock` for a parsed height: the quoted hex of the active block at
      that height. Only the tip is checked, so a height below the chain's
      start indexes out of range. */
  function BlockAt(start: int, latest: int, active: seq<Bytes>, height: int): (r: Reply)
    ensures r.Json? <==> |active| > 0 && height <= latest && start <= height < start + |active|
    ensures r.Panic? <==> |active| > 0 && height <= latest && !(start <= height < start + |active|)
    ensures !r.Json? && !r.Panic? ==> r == RpcError(ErrNotFound)
    ensures r.Json? ==> |r.text| == 2 * |active[height - start]| + 2 && r.text[0] == '"' && r.text[|r.text| - 1] == '"'
  {
    if |active| == 0 then RpcError(ErrNotFound)
    else if height > latest then RpcError(ErrNotFound)
    else
      var index := height - start;
      if index < 0 || index >= |active| then Panic("index out of range")
      else Json("\"" + HexEncode(active[index]) + "\"")
  }

  /** The text inside the quotes decodes to the block at the height. */
  lemma BlockAtRoundTrip(start: int, latest: int, active: seq<Bytes>, height: int)
    requires BlockAt(start, latest, active, height).Json?
    ensures var t := BlockAt(start, latest, active, height).text;
      HexDecode(t[1..|t| - 1]) == Success(active[height - start])
  {
    var b := active[height - start];
    var t := BlockAt(start, latest, active, height).text;
    assert t[1..|t| - 1] == HexEncode(b);
    HexRoundTrip(b);
  }

  /** `getblock`: the first parameter is the height as a JSON string. */
  function GetBlock(f: Foreign, start: int, latest: int, active: seq<Bytes>, params: seq<string>): (r: Reply)
    ensures params == [] ==> r.Panic?
    ensures params != [] && f.unmarshalString(params[0]).None? ==> r == RpcError("failed to parse getblock request")
    ensures params != [] && f.unmarshalString(params[0]).Some? ==>
              var text := f.unmarshalString(params[0]).value;
              && (ParseInt(text, 64).None? ==> r == RpcError("error parsing height as integer"))
              && (ParseInt(text, 64).Some? ==> r == BlockAt(start, latest, active, ParseInt(text, 64).value))
    ensures r.Json? ==> exists h :: Some(h) == ParseInt(f.unmarshalString(params[0]).value, 64) && r == BlockAt(start, latest, active, h)
  {
    if params == [] then Panic("index out of range")
    else match f.unmarshalString(params[0])
      case None => RpcError("failed to parse getblock request")
      case Some(text) =>
        match ParseInt(text, 64)
        case None => RpcError("error parsing height as integer")
        case Some(h) => BlockAt(start, latest, active, h)
  }

  /** `sendrawtransaction`: the transaction's bytes, decoded from the hex
      string of the first parameter. */
  function RawTransactionBytes(f: Foreign, params: seq<string>): (r: Result<Bytes, Reply>)
    ensures params == [] ==> r.Failure? && r.error.Panic?
    ensures params != [] && f.unmarshalString(params[0]).None? ==>
              r == Failure(RpcError("failed to parse sendrawtransaction JSON"))
    ensures params != [] && f.unmarshalString(params[0]).Some? ==>
              var text := f.unmarshalString(params[0]).value;
              && (HexDecode(text).Success? ==> r == Success(HexDecode(text).value))
              && (HexDecode(text).Failure? ==> r == Failure(RpcError("failed to parse sendrawtransaction value as a hex string")))
    ensures r.Success? ==> exists text :: f.unmarshalString(params[0]) == Some(text) && HexDecode(text) == Success(r.value)
    ensures r.Failure? ==> !r.error.Json? && !r.error.NoResult?
  {
    if params == [] then Failure(Panic("index out of range"))
    else match f.unmarshalString(params[0])
      case None => Failure(RpcError("failed to parse sendrawtransaction JSON"))
      case Some(text) =>
        match HexDecode(text)
        case Failure(_) => Failure(RpcError("failed to parse sendrawtransaction value as a hex string"))
        case Success(bytes) => Success(bytes)
  }

  /** The first transaction with the given display hash. */
  function FirstWithHash(txs: seq<Tx>, id: Bytes): (r: Option<Tx>)
    ensures r.None? <==> forall k :: 0 <= k < |txs| ==> txs[k].displayHash != id
    ensures r.Some? ==> exists k :: FirstAt(txs, id, k) && txs[k] == r.value
    decreases |txs|
  {
    if txs == [] then None
    else if txs[0].displayHash == id then Some(txs[0])
    else
      var r := FirstWithHash(txs[1..], id);
      FirstAtTail(txs, id, r);
      r
  }

  /** `txs[k]` is the first transaction with display hash `id`. */
  predicate FirstAt(txs: seq<Tx>, id: Bytes, k: int) {
    0 <= k < |txs| && txs[k].displayHash == id && forall j :: 0 <= j < k ==> txs[j].displayHash != id
  }

  lemma FirstAtTail(txs: seq<Tx>, id: Bytes, r: Option<Tx>)
    requires |txs| > 0 && txs[0].displayHash != id
    requires r.Some? ==> exists k :: FirstAt(txs[1..], id, k) && txs[1..][k] == r.value
    ensures r.Some? ==> exists k :: FirstAt(txs, id, k) && txs[k] == r.value
  {
    if r.Some? {
      var k :| FirstAt(txs[1..], id, k) && txs[1..][k] == r.value;
      assert FirstAt(txs, id, k + 1);
    }
  }

  /** The search goes past block `b`: it parses with nothing left over and
      holds no transaction with display hash `id`. */
  predicate PassesOver(f: Foreign, b: Bytes, id: Bytes) {
    && ParseBlock(f, b).Success? && ParseBlock(f, b).value.rest == []
    && FirstWithHash(ParseBlock(f, b).value.txs, id).None?
  }

  /** The search stops at block `b` with the reply `r`: the parse error, the
      error for bytes left over after the block, or the first transaction
      with display hash `id` together with the block's height. */
  predicate StopsWith(f: Foreign, b: Bytes, id: Bytes, r: Reply) {
    match ParseBlock(f, b)
    case Failure(e) => r == RpcError("-9: " + e)
    case Success(p) =>
      if p.rest != [] then r == RpcError("-9: " + ErrBlockTooLong)
      else FirstWithHash(p.txs, id).Some? && r == RawTransaction(HexEncode(FirstWithHash(p.txs, id).value.raw), p.height)
  }

  /** The search went past every block before block `k`. */
  predicate PassedBefore(f: Foreign, blocks: seq<Bytes>, id: Bytes, k: int) {
    0 <= k <= |blocks| && forall j :: 0 <= j < k ==> PassesOver(f, blocks[j], id)
  }

  /** The linear search of `getrawtransaction` through the active blocks in
      order: "-5" exactly when it goes past every block, and otherwise the
      reply of the first block it stops at. */
  function FindTransaction(f: Foreign, blocks: seq<Bytes>, id: Bytes): (r: Reply)
    ensures r == RpcError(ErrNoSuchTx) <==> PassedBefore(f, blocks, id, |blocks|)
    ensures r != RpcError(ErrNoSuchTx) ==>
              exists k :: PassedBefore(f, blocks, id, k) && k < |blocks| && StopsWith(f, blocks[k], id, r)
    ensures r.RawTransaction? || r.RpcError?
    decreases |blocks|
  {
    if blocks == [] then RpcError(ErrNoSuchTx)
    else match ParseBlock(f, blocks[0])
      case Failure(e) =>
        var r := RpcError("-9: " + e);
        assert ("-9: " + e)[1] == "-9: "[1] && ErrNoSuchTx[1] == "-5: "[1];
        assert StopsWith(f, blocks[0], id, r) && PassedBefore(f, blocks, id, 0);
        r
      case Success(p) =>
        if p.rest != [] then
          var r := RpcError("-9: " + ErrBlockTooLong);
          assert r.message[1] == '9' && ErrNoSuchTx[1] == "-5: "[1];
          assert StopsWith(f, blocks[0], id, r) && PassedBefore(f, blocks, id, 0);
          r
        else match FirstWithHash(p.txs, id)
          case Some(tx) =>
            var r := RawTransaction(HexEncode(tx.raw), p.height);
            assert StopsWith(f, blocks[0], id, r) && PassedBefore(f, blocks, id, 0);
            r
          case None =>
            var r := FindTransaction(f, blocks[1..], id);
            FindTransactionTail(f, blocks, id, r);
            r
  }

  /** The search through `blocks` is the search through all but the first
      when the first is passed over. */
  lemma FindTransactionTail(f: Foreign, blocks: seq<Bytes>, id: Bytes, r: Reply)
    requires |blocks| > 0 && PassesOver(f, blocks[0], id)
    requires r == RpcError(ErrNoSuchTx) <==> PassedBefore(f, blocks[1..], id, |blocks| - 1)
    requires r != RpcError(ErrNoSuchTx) ==>
               exists k :: PassedBefore(f, blocks[1..], id, k) && k < |blocks| - 1 && StopsWith(f, blocks[1..][k], id, r)
    ensures r == RpcError(ErrNoSuchTx) <==> PassedBefore(f, blocks, id, |blocks|)
    ensures r != RpcError(ErrNoSuchTx) ==>
              exists k :: PassedBefore(f, blocks, id, k) && k < |blocks| && StopsWith(f, blocks[k], id, r)
  {
    PassedShift(f, blocks, id, |blocks| - 1);
    if r != RpcError(ErrNoSuchTx) {
      var k :| PassedBefore(f, blocks[1..], id, k) && k < |blocks| - 1 && StopsWith(f, blocks[1..][k], id, r);
      PassedShift(f, blocks, id, k);
      assert blocks[k + 1] == blocks[1..][k];
      assert PassedBefore(f, blocks, id, k + 1) && StopsWith(f, blocks[k + 1], id, r);
    }
  }

  /** Past a first block that is passed over, going past `k` more blocks is
      going past the first `k + 1`. */
  lemma PassedShift(f: Foreign, blocks: seq<Bytes>, id: Bytes, k: int)
    requires |blocks| > 0 && PassesOver(f, blocks[0], id) && 0 <= k < |blocks|
    ensures PassedBefore(f, blocks[1..], id, k) <==> PassedBefore(f, blocks, id, k + 1)
  {
    if PassedBefore(f, blocks[1..], id, k) {
      forall j | 1 <= j < k + 1
        ensures PassesOver(f, blocks[j], id)
      {
        assert blocks[j] == blocks[1..][j - 1];
      }
    }
    if PassedBefore(f, blocks, id, k + 1) {
      forall j | 0 <= j < k
        ensures PassesOver(f, blocks[1..][j], id)
      {
        assert blocks[1..][j] == blocks[j + 1];
      }
    }
  }

  /** `getrawtransaction`: the id is the 64 bytes after the opening quote
      of the first parameter's raw JSON text, counted and cut in bytes. */
  function GetRawTransaction(f: Foreign, resetted: bool, blocks: seq<Bytes>, params: seq<string>): (r: Reply)
    ensures !resetted ==> r == RpcError(ErrResetFirst)
    ensures resetted && (params == [] || |Utf8(params[0])| < 65) ==> r.Panic?
    ensures resetted && params != [] && |Utf8(params[0])| >= 65 ==>
              var id := HexDecodeBytes(Utf8(params[0])[1..65]);
              && (id.Failure? ==> r == RpcError("-9: " + id.error))
              && (id.Success? ==> r == FindTransaction(f, blocks, id.value))
    ensures r.RawTransaction? ==> exists id :: HexDecodeBytes(Utf8(params[0])[1..65]) == Success(id) && r == FindTransaction(f, blocks, id)
  {
    if !resetted then RpcError(ErrResetFirst)
    else if params == [] || |Utf8(params[0])| < 65 then Panic("slice bounds out of range")
    else match HexDecodeBytes(Utf8(params[0])[1..65])
      case Failure(e) => RpcError("-9: " + e)
      case Success(id) => FindTransaction(f, blocks, id)
  }

  /** An id whose first character is not a hex digit is refused with that
      character's lead byte, once the raw text is 65 bytes long, however
      few characters it has. */
  lemma GetRawTransactionBadFirst(f: Foreign, blocks: seq<Bytes>, text: string, rest: seq<string>)
    requires |text| >= 2 && text[0] == '"' && !GoStrings.IsHexDigit(text[1]) && |Utf8(text)| >= 65
    ensures GetRawTransaction(f, true, blocks, [text] + rest) == RpcError("-9: " + HexByteError(text[1]))
  {
    var u := Utf8(text);
    assert u == Utf8Char(text[0]) + Utf8(text[1..]);
    assert Utf8(text[1..]) == Utf8Char(text[1..][0]) + Utf8(text[1..][1..]);
    assert u[1] == LeadByte(text[1]);
    LeadByteNibble(text[1]);
    assert HexNibble(Latin1(u[1..65][0])) == None;
  }

  /** A quoted id in hex, as a wallet sends it, is looked up as the bytes
      it encodes. */
  lemma GetRawTransactionQuoted(f: Foreign, blocks: seq<Bytes>, id: Bytes, rest: seq<string>)
    requires |id| == 32
    ensures GetRawTransaction(f, true, blocks, ["\"" + HexEncode(id) + "\""] + rest) == FindTransaction(f, blocks, id)
  {
    var h := HexEncode(id);
    Utf8Append("\"", h);
    Utf8Append("\"" + h, "\"");
    HexEncodeBytes(id);
    var u := Utf8("\"" + h + "\"");
    assert Utf8("\"") == [0x22];
    assert u == [0x22] + Utf8(h) + [0x22];
    assert u[1..65] == Utf8(h);
    HexDecodeUtf8(HexEncode(id));
    HexRoundTrip(id);
  }

  // ---------------------------------------------------------------------
  // The state

  class State {
    const foreign: Foreign
    var resetted: bool
    var startHeight: int
    var saplingActivation: int
    var branchID: string
    var chainName: string
    var latestHeight: int
    var activeBlocks: seq<Bytes>
    var stagedBlocks: seq<Bytes>
    var incomingTransactions: seq<Bytes>
    var stagedTransactions: seq<StagedTx>
    var ingestorRunning: bool

    ghost predicate Valid()
      reads this`activeBlocks
    {
      WellFormed(activeBlocks)
    }

    function Snap(): Snapshot
      reads this
    {
      Snapshot(resetted, startHeight, saplingActivation, branchID, chainName, latestHeight,
               activeBlocks, stagedBlocks, incomingTransactions, stagedTransactions, ingestorRunning)
    }

    /** The zero value of the state, before any reset. */
    constructor(f: Foreign)
      ensures Valid() && foreign == f
      ensures Snap() == Snapshot(false, 0, 0, "", "", 0, [], [], [], [], false)
    {
      foreign := f;
      resetted := false;
      startHeight := 0;
      saplingActivation := 0;
      branchID := "";
      chainName := "";
      latestHeight := 0;
      activeBlocks := [];
      stagedBlocks := [];
      incomingTransactions := [];
      stagedTransactions := [];
      ingestorRunning := false;
    }

    /** DarksideReset: a fresh, empty state with the given chain metadata.
        The start height is not among the fields it sets, so it is 0. */
    method DarksideReset(sa: int, bi: string, cn: string)
      requires Valid()
      modifies this
      ensures Valid()
      ensures Snap() == Snapshot(true, 0, sa, bi, cn, -1, [], [], [], [], false)
    {
      ingestorRunning := false;
      resetted := true;
      startHeight := 0;
      saplingActivation := sa;
      branchID := bi;
      chainName := cn;
      latestHeight := -1;
      activeBlocks := [];
      stagedBlocks := [];
      incomingTransactions := [];
      stagedTransactions := [];
    }

    /** addBlockActive. `linked` is the caller's block as the call leaves
        it: the block appended shares its bytes, so linking it rewrites the
        caller's previous-block hash as well. */
    method AddBlockActive(blockBytes: Bytes) returns (err: Option<string>, linked: Bytes)
      requires Valid()
      modifies this`startHeight, this`activeBlocks
      ensures Valid()
      ensures Step(Chain(startHeight, activeBlocks), err) == AddBlock(foreign, Chain(old(startHeight), old(activeBlocks)), blockBytes)
      ensures linked == if err.None? then activeBlocks[|activeBlocks| - 1] else blockBytes
    {
      linked := blockBytes;
      var parsed := ParseBlock(foreign, blockBytes);
      if parsed.Failure? {
        return Some(parsed.error), linked;
      }
      if parsed.value.rest != [] {
        return Some(ErrBlockTooLong), linked;
      }
      var blockHeight := parsed.value.height;
      if blockHeight > startHeight + |activeBlocks| {
        activeBlocks := [];
      } else if blockHeight < startHeight {
        activeBlocks := [];
      } else {
        activeBlocks := activeBlocks[..blockHeight - startHeight];
      }
      var block := blockBytes;
      if |activeBlocks| == 0 {
        startHeight := blockHeight;
      } else {
        var prev := ParseBlock(foreign, activeBlocks[|activeBlocks| - 1]);
        if prev.Failure? {
          return Some(prev.error), linked;
        }
        if prev.value.rest != [] {
          return Some(ErrPrevTooLong), linked;
        }
        block := SetPrevHash(block, foreign.blockHash(activeBlocks[|activeBlocks| - 1]));
      }
      activeBlocks := activeBlocks + [block];
      return None, block;
    }

    /** setPrevhash: rewrites the previous-block hash of each active block in
        place. After a fatal error the process is gone, so nothing is said of
        the blocks then. */
    method SetPrevhash() returns (fatal: Option<string>)
      requires Valid()
      modifies this`activeBlocks
      ensures Valid() && |activeBlocks| == |old(activeBlocks)|
      ensures fatal.None? <==> Relink(foreign, old(activeBlocks), ZeroHash).Success?
      ensures fatal.None? ==> activeBlocks == Relink(foreign, old(activeBlocks), ZeroHash).value
      ensures fatal.Some? ==> fatal.value == Relink(foreign, old(activeBlocks), ZeroHash).error
    {
      var blocks := activeBlocks;
      var prevhash: Hash32 := ZeroHash;
      var i := 0;
      assert blocks[i..] == blocks && blocks[..i] == [];
      PrependNothing(Relink(foreign, blocks, prevhash));
      while i < |blocks|
        invariant 0 <= i <= |blocks| == |activeBlocks|
        invariant activeBlocks == old(activeBlocks)
        invariant Valid() && WellFormed(blocks)
        invariant Relink(foreign, activeBlocks, ZeroHash) == Prepend(blocks[..i], Relink(foreign, blocks[i..], prevhash))
      {
        var blockBytes := blocks[i];
        var parsed := ParseBlock(foreign, blockBytes);
        assert blocks[i..][0] == blockBytes && blocks[i..][1..] == blocks[i + 1..];
        if parsed.Failure? {
          activeBlocks := blocks;
          return Some(parsed.error);
        }
        if parsed.value.rest != [] {
          activeBlocks := blocks;
          return Some(ErrPrevTooLong);
        }
        var patched := SetPrevHash(blockBytes, prevhash);
        ghost var later := Relink(foreign, blocks[i + 1..], foreign.blockHash(patched));
        assert Relink(foreign, blocks[i..], prevhash) == Prepend([patched], later);
        PrependTwice(blocks[..i], [patched], later);
        ghost var before := blocks;
        blocks := blocks[i := patched];
        assert blocks[..i + 1] == before[..i] + [patched];
        assert blocks[i + 1..] == before[i + 1..];
        prevhash := foreign.blockHash(patched);
        i := i + 1;
      }
      assert blocks[..i] == blocks;
      activeBlocks := blocks;
      return None;
    }

    /** The loop of DarksideApplyStaged over the staged blocks; each entry
        added is left as it went into the chain. */
    method MergeStaged() returns (err: Option<string>)
      requires Valid()
      modifies this`startHeight, this`activeBlocks, this`stagedBlocks
      ensures Valid()
      ensures Merge(Chain(startHeight, activeBlocks), err, stagedBlocks)
              == MergeAll(foreign, Chain(old(startHeight), old(activeBlocks)), old(stagedBlocks))
    {
      var staged := stagedBlocks;
      var i := 0;
      while i < |staged|
        invariant 0 <= i <= |staged| == |stagedBlocks|
        invariant Valid()
        invariant stagedBlocks[i..] == staged[i..]
        invariant MergeAll(foreign, Chain(old(startHeight), old(activeBlocks)), staged)
               == Prefixed(stagedBlocks[..i], MergeAll(foreign, Chain(startHeight, activeBlocks), staged[i..]))
      {
        ghost var c := Chain(startHeight, activeBlocks);
        var linked;
        err, linked := AddBlockActive(staged[i]);
        MergeStep(foreign, c, staged, i, stagedBlocks, Step(Chain(startHeight, activeBlocks), err));
        if err.Some? {
          return;
        }
        stagedBlocks := stagedBlocks[i := linked];
        i := i + 1;
      }
      assert stagedBlocks[..i] == stagedBlocks;
      return None;
    }

    /** The loop of DarksideApplyStaged over the staged transactions. */
    method PlaceStaged() returns (err: Option<string>)
      requires Valid()
      modifies this`activeBlocks
      ensures Valid()
      ensures Placed(activeBlocks, err) == PlaceAll(startHeight, old(activeBlocks), stagedTransactions)
    {
      var blocks := activeBlocks;
      var txs := stagedTransactions;
      var j := 0;
      while j < |txs|
        invariant 0 <= j <= |txs|
        invariant WellFormed(blocks)
        invariant PlaceAll(startHeight, activeBlocks, txs) == PlaceAll(startHeight, blocks, txs[j..])
      {
        var tx := txs[j];
        assert txs[j..][0] == tx && txs[j..][1..] == txs[j + 1..];
        var k := tx.height - startHeight;
        if tx.height < startHeight {
          assert PlaceTx(startHeight, blocks, tx) == Failure(ErrTxTooLow);
          activeBlocks := blocks;
          return Some(ErrTxTooLow);
        }
        if tx.height >= startHeight + |blocks| {
          assert PlaceTx(startHeight, blocks, tx) == Failure(ErrTxTooHigh);
          activeBlocks := blocks;
          return Some(ErrTxTooHigh);
        }
        var block := blocks[k];
        if block[TxCountByte] == MaxBlockTxs {
          assert PlaceTx(startHeight, blocks, tx) == Failure(ErrTooManyTxs);
          activeBlocks := blocks;
          return Some(ErrTooManyTxs);
        }
        block := block[TxCountByte := Inc(block[TxCountByte])];
        block := block[SaplingRootByte := Inc(block[SaplingRootByte])];
        block := block + tx.bytes;
        assert PlaceTx(startHeight, blocks, tx) == Success(blocks[k := block]);
        blocks := blocks[k := block];
        j := j + 1;
      }
      activeBlocks := blocks;
      return None;
    }

    /** DarksideApplyStaged */
    method DarksideApplyStaged(height: int) returns (status: Status)
      requires Valid()
      modifies this
      ensures Valid()
      ensures status == ApplyStaged(foreign, old(Snap()), height).status
      ensures !status.Fatal? ==> Snap() == ApplyStaged(foreign, old(Snap()), height).state
    {
      if !resetted {
        return Error(ErrResetFirst);
      }
      ghost var s0 := Snap();
      ghost var c := CommitStaged(foreign, Chain(startHeight, activeBlocks), stagedBlocks, stagedTransactions);
      ApplyStagedIs(foreign, s0, height);
      var err := MergeStaged();
      if err.Some? {
        assert c.chain == Chain(startHeight, activeBlocks) && c.staged == stagedBlocks;
        return Error(err.value);
      }
      assert c == CommitPlaced(foreign, Chain(startHeight, activeBlocks), stagedTransactions);
      status := CommitMerged(height);
    }

    /** The part of DarksideApplyStaged after the staged blocks are merged:
        they are cleared, the transactions placed and the chain relinked,
        and on success the tip height is set and the ingestor started when
        there are blocks. */
    method CommitMerged(height: int) returns (status: Status)
      requires Valid()
      modifies this`activeBlocks, this`stagedTransactions, this`stagedBlocks, this`latestHeight, this`ingestorRunning
      ensures Valid()
      ensures var c := CommitPlaced(foreign, Chain(startHeight, old(activeBlocks)), old(stagedTransactions));
        && status == c.status
        && (!status.Fatal? ==> activeBlocks == c.chain.blocks)
        && stagedBlocks == [] && stagedTransactions == old(stagedTransactions)
        && latestHeight == (if status.Ok? then height else old(latestHeight))
        && ingestorRunning == (if status.Ok? then |activeBlocks| > 0 else old(ingestorRunning))
    {
      stagedBlocks := [];
      status := PlaceAndRelink();
      if status.Ok? {
        latestHeight := height;
        ingestorRunning := |activeBlocks| > 0;
      }
    }

    /** The part of DarksideApplyStaged after the staged blocks are merged:
        the staged transactions placed, and the chain relinked when there
        were none. */
    method PlaceAndRelink() returns (status: Status)
      requires Valid()
      modifies this`activeBlocks, this`stagedTransactions
      ensures Valid()
      ensures status == CommitPlaced(foreign, Chain(startHeight, old(activeBlocks)), old(stagedTransactions)).status
      ensures !status.Fatal? ==> activeBlocks == CommitPlaced(foreign, Chain(startHeight, old(activeBlocks)), old(stagedTransactions)).chain.blocks
      ensures stagedTransactions == old(stagedTransactions)
    {
      var err := PlaceStaged();
      if err.Some? {
        return Error(err.value);
      }
      if |stagedTransactions| > 0 {
        return Error(ErrTxNoBlock);
      }
      stagedTransactions := [];
      var fatal := SetPrevhash();
      if fatal.Some? {
        return Fatal(fatal.value);
      }
      return Ok;
    }

    /** DarksideGetIncomingTransactions: every transaction received, in
        arrival order. */
    method DarksideGetIncomingTransactions() returns (txs: seq<Bytes>)
      ensures txs == incomingTransactions
    {
      txs := incomingTransactions;
    }

    /** DarksideClearIncomingTransactions */
    method DarksideClearIncomingTransactions()
      modifies this`incomingTransactions
      ensures incomingTransactions == []
    {
      incomingTransactions := [];
    }

    /** DarksideStageBlockStream: one hex-encoded block staged. Unlike the
        other staging operations it does not require a reset. */
    method DarksideStageBlockStream(blockHex: string) returns (err: Option<string>)
      modifies this`stagedBlocks
      ensures HexDecode(blockHex).Failure? ==> err == Some(HexDecode(blockHex).error) && stagedBlocks == old(stagedBlocks)
      ensures HexDecode(blockHex).Success? ==> err.None? && stagedBlocks == old(stagedBlocks) + [HexDecode(blockHex).value]
    {
      var decoded := HexDecode(blockHex);
      if decoded.Failure? {
        return Some(decoded.error);
      }
      stagedBlocks := stagedBlocks + [decoded.value];
      return None;
    }

    /** DarksideStageBlocksCreate: `count` synthetic blocks staged, with
        int32 heights counting up from `height`. */
    method DarksideStageBlocksCreate(height: int, nonce: int, count: int) returns (err: Option<string>)
      requires IsInt32(height) && IsInt32(nonce) && IsInt32(count)
      modifies this`stagedBlocks
      ensures !resetted ==> err == Some(ErrResetFirst) && stagedBlocks == old(stagedBlocks)
      ensures resetted ==> err.None? && stagedBlocks == old(stagedBlocks) + SyntheticBlocks(foreign, height, nonce, count)
    {
      if !resetted {
        return Some(ErrResetFirst);
      }
      var h := height;
      var i := 0;
      Int32OfInt32(height);
      while i < count
        invariant 0 <= i <= Max0(count)
        invariant h == Int32(height + i)
        invariant stagedBlocks == old(stagedBlocks) + SyntheticBlocks(foreign, height, nonce, i)
      {
        var blockBytes := foreign.syntheticHeader(nonce, h) + [1] + Coinbase(h);
        assert SyntheticBlocks(foreign, height, nonce, i + 1) == SyntheticBlocks(foreign, height, nonce, i) + [blockBytes];
        stagedBlocks := stagedBlocks + [blockBytes];
        Int32Increment(height, i);
        h := Int32(h + 1);
        i := i + 1;
      }
      return None;
    }

    /** DarksideSendTransaction: a hex-encoded transaction received from a
        wallet, returned by its display hash. */
    method DarksideSendTransaction(txHex: string) returns (r: Result<Bytes, string>)
      modifies this`incomingTransactions
      ensures !resetted ==> r == Failure(ErrResetFirst)
      ensures r.Success? <==>
        && resetted && HexDecode(txHex).Success?
        && foreign.parseTransaction(HexDecode(txHex).value).Success?
        && foreign.parseTransaction(HexDecode(txHex).value).value.rest == []
      ensures r.Success? ==>
        && r.value == foreign.parseTransaction(HexDecode(txHex).value).value.tx.displayHash
        && incomingTransactions == old(incomingTransactions) + [HexDecode(txHex).value]
      ensures r.Failure? ==> incomingTransactions == old(incomingTransactions)
    {
      if !resetted {
        return Failure(ErrResetFirst);
      }
      var decoded := HexDecode(txHex);
      if decoded.Failure? {
        return Failure(decoded.error);
      }
      var parsed := foreign.parseTransaction(decoded.value);
      if parsed.Failure? {
        return Failure(parsed.error);
      }
      if parsed.value.rest != [] {
        return Failure(ErrTxTooLong);
      }
      incomingTransactions := incomingTransactions + [decoded.value];
      return Success(parsed.value.tx.displayHash);
    }

    /** DarksideStageTransaction */
    method DarksideStageTransaction(height: int, txBytes: Bytes) returns (err: Option<string>)
      modifies this`stagedTransactions
      ensures !resetted ==> err == Some(ErrResetFirst) && stagedTransactions == old(stagedTransactions)
      ensures resetted ==> err.None? && stagedTransactions == old(stagedTransactions) + [StagedTx(height, txBytes)]
    {
      if !resetted {
        return Some(ErrResetFirst);
      }
      stagedTransactions := stagedTransactions + [StagedTx(height, txBytes)];
      return None;
    }

    /** darksideGetRawTransaction, searching the blocks in place. */
    method LookupRawTransaction(params: seq<string>) returns (r: Reply)
      ensures r == GetRawTransaction(foreign, resetted, activeBlocks, params)
    {
      if !resetted {
        return RpcError(ErrResetFirst);
      }
      if params == [] || |Utf8(params[0])| < 65 {
        return Panic("slice bounds out of range");
      }
      var txid := HexDecodeBytes(Utf8(params[0])[1..65]);
      if txid.Failure? {
        return RpcError("-9: " + txid.error);
      }
      r := SearchBlocks(activeBlocks, txid.value);
    }

    /** The linear search through the blocks, in order. */
    method SearchBlocks(blocks: seq<Bytes>, id: Bytes) returns (r: Reply)
      ensures r == FindTransaction(foreign, blocks, id)
    {
      var i := 0;
      while i < |blocks|
        invariant 0 <= i <= |blocks|
        invariant FindTransaction(foreign, blocks, id) == FindTransaction(foreign, blocks[i..], id)
      {
        assert blocks[i..][1..] == blocks[i + 1..];
        var parsed := ParseBlock(foreign, blocks[i]);
        if parsed.Failure? {
          return RpcError("-9: " + parsed.error);
        }
        if parsed.value.rest != [] {
          return RpcError("-9: " + ErrBlockTooLong);
        }
        var found := SearchTransactions(parsed.value.txs, id);
        if found.Some? {
          return RawTransaction(HexEncode(found.value.raw), parsed.value.height);
        }
        i := i + 1;
      }
      return RpcError(ErrNoSuchTx);
    }

    /** The search through one block's transactions, in order. */
    method SearchTransactions(txs: seq<Tx>, id: Bytes) returns (found: Option<Tx>)
      ensures found == FirstWithHash(txs, id)
    {
      var j := 0;
      while j < |txs|
        invariant 0 <= j <= |txs|
        invariant FirstWithHash(txs, id) == FirstWithHash(txs[j..], id)
      {
        assert txs[j..][1..] == txs[j + 1..];
        if txs[j].displayHash == id {
          return Some(txs[j]);
        }
        j := j + 1;
      }
      return None;
    }

    /** darksideRawRequest: the mock node's answer to a JSON-RPC call. */
    method RawRequest(name: string, params: seq<string>) returns (r: Reply)
      modifies this`incomingTransactions
      ensures name == "getblockchaininfo" ==> r == ChainInfo(chainName, saplingActivation, latestHeight, branchID)
      ensures name == "getblock" ==> r == GetBlock(foreign, startHeight, latestHeight, activeBlocks, params)
      ensures name == "getaddresstxids" ==> r == RpcError("not implemented yet")
      ensures name == "getrawtransaction" ==> r == GetRawTransaction(foreign, resetted, activeBlocks, params)
      ensures name == "sendrawtransaction" ==>
        var sent := RawTransactionBytes(foreign, params);
        && (sent.Success? ==> r == NoResult && incomingTransactions == old(incomingTransactions) + [sent.value])
        && (sent.Failure? ==> r == sent.error)
      ensures name !in {"getblockchaininfo", "getblock", "getaddresstxids", "getrawtransaction", "sendrawtransaction"} ==>
        r == RpcError(ErrUnsupported)
      ensures name != "sendrawtransaction" || r != NoResult ==> incomingTransactions == old(incomingTransactions)
    {
      if name == "getblockchaininfo" {
        r := ChainInfo(chainName, saplingActivation, latestHeight, branchID);
      } else if name == "getblock" {
        r := GetBlock(foreign, startHeight, latestHeight, activeBlocks, params);
      } else if name == "getaddresstxids" {
        r := RpcError("not implemented yet");
      } else if name == "getrawtransaction" {
        r := LookupRawTransaction(params);
      } else if name == "sendrawtransaction" {
        var sent := RawTransactionBytes(foreign, params);
        if sent.Failure? {
          r := sent.error;
        } else {
          incomingTransactions := incomingTransactions + [sent.value];
          r := NoResult;
        }
      } else {
        r := RpcError(ErrUnsupported);
      }
    }
  }

  lemma PrependNothing(r: Result<seq<Bytes>, string>)
    ensures Prepend([], r) == r
  {
    if r.Success? {
      assert [] + r.value == r.value;
    }
  }

  lemma PrependTwice(a: seq<Bytes>, b: seq<Bytes>, r: Result<seq<Bytes>, string>)
    ensures Prepend(a, Prepend(b, r)) == Prepend(a + b, r)
  {
    if r.Success? {
      assert a + (b + r.value) == (a + b) + r.value;
    }
  }

  /** `done` in front of the blocks of a relinking that is still to come. */
  function Prepend(done: seq<Bytes>, r: Result<seq<Bytes>, string>): Result<seq<Bytes>, string> {
    match r
    case Success(rest) => Success(done + rest)
    case Failure(e) => Failure(e)
  }
}
