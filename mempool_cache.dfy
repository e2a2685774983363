/** The server's cached copy of the node's mempool, as kept by
    `GetMempoolTx` in frontend/service.go: the list of transaction ids from
    `getrawmempool`, a map from id to compact transaction, and the time of
    the last refresh. A refresh carries known transactions forward and asks
    the node only for new ones; serving filters the list against the
    wallet's exclude list and streams the compact transactions that have a
    hash. */
module MempoolCache {

  import opened Wrappers
  import opened GoStrings
  import opened GoEncoding
  import Mempool

  /** A compact transaction as streamed to wallets. Only its hash matters
      to the server; the rest is carried opaquely. */
  datatype CompactTx = CompactTx(hash: Bytes, body: Bytes)

  /** `&walletrpc.CompactTx{}`: the placeholder stored for a transaction
      without Sapling parts. Its hash is empty, so it is never sent. */
  const Blank := CompactTx([], [])

  /** What the transaction parser yields for the raw bytes: the bytes left
      over, whether the transaction has Sapling spends or outputs, and its
      compact form at height 0. The refresh ignores the parser's error
      (frontend/service.go:558), so a transaction that fails to parse with
      no bytes left over is cached like one that parsed: as the blank
      entry, or as the compact form of whatever part was parsed. */
  datatype ParsedTx = ParsedTx(rest: Bytes, hasSapling: bool, compact: CompactTx)

  /** The code the cache calls but the model does not contain: the node's
      `getrawtransaction` (None when it answers with an error), decoding a
      JSON string, and the transaction parser. */
  datatype Node = Node(
    getRawTransaction: string -> Option<string>,
    unmarshalString: string -> Result<string, string>,
    parseTransaction: Bytes -> ParsedTx)

  const ErrExtraData := "extra data deserializing transaction"

  /** The refresh interval, in nanoseconds. */
  const TwoSeconds := 2_000_000_000

  // ---------------------------------------------------------------------
  // What a refresh computes

  /** The outcome of asking the node for one transaction: it has left the
      mempool, it is fetched, or the reply is malformed. */
  datatype Fetch = Gone | Fetched(tx: CompactTx) | FetchFailed(error: string)

  /** The entry the cache stores for a parsed transaction. */
  function Compact(p: ParsedTx): CompactTx {
    if p.hasSapling then p.compact else Blank
  }

  /** The node answers for `txid` with a JSON string that holds the hex of
      `b`. */
  predicate Decodes(node: Node, txid: string, b: Bytes) {
    && node.getRawTransaction(txid).Some?
    && node.unmarshalString(node.getRawTransaction(txid).value).Success?
    && HexDecode(node.unmarshalString(node.getRawTransaction(txid).value).value) == Success(b)
  }

  /** Fetching one transaction that the cache does not know yet: the node's
      reply is decoded and parsed; the entry is the parsed transaction when
      it has Sapling parts and the blank one otherwise. */
  function FetchTx(node: Node, txid: string): (r: Fetch)
    ensures r.Gone? <==> node.getRawTransaction(txid).None?
    ensures r.Fetched? <==> exists b :: Decodes(node, txid, b) && |node.parseTransaction(b).rest| == 0
    ensures forall b :: Decodes(node, txid, b) && |node.parseTransaction(b).rest| == 0 ==>
              r.Fetched? && r.tx == Compact(node.parseTransaction(b))
    ensures forall b :: Decodes(node, txid, b) && |node.parseTransaction(b).rest| > 0 ==> r == FetchFailed(ErrExtraData)
    ensures r.FetchFailed? && (forall b :: !Decodes(node, txid, b)) ==>
              || node.unmarshalString(node.getRawTransaction(txid).value) == Failure(r.error)
              || (node.unmarshalString(node.getRawTransaction(txid).value).Success?
                  && HexDecode(node.unmarshalString(node.getRawTransaction(txid).value).value) == Failure(r.error))
  {
    match node.getRawTransaction(txid)
    case None => Gone
    case Some(raw) =>
      match node.unmarshalString(raw)
      case Failure(e) => FetchFailed(e)
      case Success(text) =>
        match HexDecode(text)
        case Failure(e) => FetchFailed(e)
        case Success(b) =>
          assert Decodes(node, txid, b);
          var p := node.parseTransaction(b);
          if |p.rest| > 0 then FetchFailed(ErrExtraData) else Fetched(Compact(p))
  }

  /** The map built so far and the error that ended the refresh, if any. */
  datatype Collected = Collected(pool: map<string, CompactTx>, error: Option<string>)

  /** The refresh loop over `ids`, continuing from the map `acc` built so
      far. Known transactions are looked up in `prior`, the previous map;
      when there was none (`None`), the loop looks them up in the map it is
      building. */
  function Collect(node: Node, prior: Option<map<string, CompactTx>>, ids: seq<string>,
                   acc: map<string, CompactTx>): Collected
    decreases |ids|
  {
    if ids == [] then Collected(acc, None)
    else
      var id := ids[0];
      var known := if prior.Some? then prior.value else acc;
      if id in known then Collect(node, prior, ids[1..], acc[id := known[id]])
      else match FetchTx(node, id)
        case Gone => Collect(node, prior, ids[1..], acc)
        case FetchFailed(e) => Collected(acc, Some(e))
        case Fetched(tx) => Collect(node, prior, ids[1..], acc[id := tx])
  }

  /** The previous map already holds `k`. */
  predicate Known(prior: Option<map<string, CompactTx>>, k: string) {
    prior.Some? && k in prior.value
  }

  /** After a refresh the cache can hold `k`: carried forward or fetched. */
  predicate Available(node: Node, prior: Option<map<string, CompactTx>>, k: string) {
    Known(prior, k) || FetchTx(node, k).Fetched?
  }

  /** The entry a refresh stores for an available id. */
  function Entry(node: Node, prior: Option<map<string, CompactTx>>, k: string): CompactTx
    requires Available(node, prior, k)
  {
    if Known(prior, k) then prior.value[k] else FetchTx(node, k).tx
  }

  /** A refresh that runs to the end keeps exactly the listed ids that are
      known or fetched, with the known entry carried forward and the new
      one fetched; ids that left the mempool are dropped. */
  lemma {:induction false} CollectContents(node: Node, prior: Option<map<string, CompactTx>>, ids: seq<string>,
                                           acc: map<string, CompactTx>)
    requires Collect(node, prior, ids, acc).error.None?
    requires prior.None? ==> forall k :: k in acc ==> FetchTx(node, k) == Fetched(acc[k])
    ensures var r := Collect(node, prior, ids, acc).pool;
      && (forall k :: k in r <==> k in acc || (k in ids && Available(node, prior, k)))
      && (forall k :: k in ids && Available(node, prior, k) ==> r[k] == Entry(node, prior, k))
      && (forall k :: k in r && k !in ids ==> r[k] == acc[k])
    decreases |ids|
  {
    if ids != [] {
      var id := ids[0];
      var known := if prior.Some? then prior.value else acc;
      assert forall k :: k in ids <==> k == id || k in ids[1..];
      if id in known {
        CollectContents(node, prior, ids[1..], acc[id := known[id]]);
      } else {
        match FetchTx(node, id)
        case Gone =>
          CollectContents(node, prior, ids[1..], acc);
        case Fetched(tx) =>
          CollectContents(node, prior, ids[1..], acc[id := tx]);
      }
    }
  }

  /** A refresh stops with an error exactly when some listed id that the
      previous map does not hold comes back malformed, and the error is
      that transaction's. */
  lemma {:induction false} CollectFails(node: Node, prior: Option<map<string, CompactTx>>, ids: seq<string>,
                                        acc: map<string, CompactTx>)
    requires prior.None? ==> forall k :: k in acc ==> FetchTx(node, k).Fetched?
    ensures var r := Collect(node, prior, ids, acc);
      && (r.error.Some? <==> exists k :: k in ids && !Known(prior, k) && FetchTx(node, k).FetchFailed?)
      && (r.error.Some? ==> exists k :: k in ids && !Known(prior, k) && FetchTx(node, k) == FetchFailed(r.error.value))
    decreases |ids|
  {
    if ids != [] {
      var id := ids[0];
      var known := if prior.Some? then prior.value else acc;
      assert forall k :: k in ids <==> k == id || k in ids[1..];
      if id in known {
        CollectFails(node, prior, ids[1..], acc[id := known[id]]);
      } else {
        match FetchTx(node, id)
        case Gone =>
          CollectFails(node, prior, ids[1..], acc);
        case FetchFailed(e) =>
        case Fetched(tx) =>
          CollectFails(node, prior, ids[1..], acc[id := tx]);
      }
    }
  }

  /** A refresh from scratch: the new map holds the listed ids that are
      carried forward or fetched, and nothing else. */
  lemma RefreshedPool(node: Node, prior: Option<map<string, CompactTx>>, ids: seq<string>)
    requires Collect(node, prior, ids, map[]).error.None?
    ensures var r := Collect(node, prior, ids, map[]).pool;
      && (forall k :: k in r <==> k in ids && Available(node, prior, k))
      && (forall k :: k in r ==> r[k] == Entry(node, prior, k))
  {
    CollectContents(node, prior, ids, map[]);
  }

  // ---------------------------------------------------------------------
  // What serving computes

  /** The reply of `GetMempoolTx`: the transactions streamed, an error, or
      a panic (a nil pointer dereference) after streaming `sent`. */
  datatype Reply = Sent(txs: seq<CompactTx>) | Failed(error: string) | Panicked(sent: seq<CompactTx>)

  /** The send loop over `txids`, having streamed `sent` already. A
      missing map or a missing entry is dereferenced as nil; an entry with
      an empty hash is skipped. */
  function SendFrom(pool: Option<map<string, CompactTx>>, txids: seq<string>, sent: seq<CompactTx>): Reply
    decreases |txids|
  {
    if txids == [] then Sent(sent)
    else if Missing(pool, txids[0]) then Panicked(sent)
    else
      var tx := pool.value[txids[0]];
      SendFrom(pool, txids[1..], if |tx.hash| > 0 then sent + [tx] else sent)
  }

  /** Dereferencing the entry for `id` fails: there is no map, or no
      entry for it. */
  predicate Missing(pool: Option<map<string, CompactTx>>, id: string) {
    pool.None? || id !in pool.value
  }

  /** The send loop panics exactly when some id to send has no entry. */
  lemma {:induction false} SendPanics(pool: Option<map<string, CompactTx>>, txids: seq<string>, sent: seq<CompactTx>)
    ensures SendFrom(pool, txids, sent).Panicked? <==> exists j :: 0 <= j < |txids| && Missing(pool, txids[j])
    ensures !SendFrom(pool, txids, sent).Failed?
    decreases |txids|
  {
    if txids != [] {
      if Missing(pool, txids[0]) {
        assert SendFrom(pool, txids, sent) == Panicked(sent);
      } else {
        var tx := pool.value[txids[0]];
        SendPanics(pool, txids[1..], if |tx.hash| > 0 then sent + [tx] else sent);
        assert forall j :: 0 < j < |txids| ==> txids[j] == txids[1..][j - 1];
        assert forall j :: 0 <= j < |txids| - 1 ==> txids[1..][j] == txids[j + 1];
      }
    }
  }

  /** The entries of `txids` that have a hash, one per id, in the order of
      `txids`. */
  function Streamed(pool: map<string, CompactTx>, txids: seq<string>): (r: seq<CompactTx>)
    requires forall j :: 0 <= j < |txids| ==> txids[j] in pool
    ensures |r| <= |txids|
    ensures forall t :: t in r ==> |t.hash| > 0 && exists id :: id in txids && pool[id] == t
    ensures forall id :: id in txids && |pool[id].hash| > 0 ==> pool[id] in r
    decreases |txids|
  {
    if txids == [] then []
    else
      var tx := pool[txids[0]];
      var rest := Streamed(pool, txids[1..]);
      assert forall id :: id in txids <==> id == txids[0] || id in txids[1..];
      (if |tx.hash| > 0 then [tx] else []) + rest
  }

  /** When every id has an entry, the send loop streams, after `sent`,
      exactly the entries with a hash, in the order of the ids. */
  lemma {:induction false} SentEntries(pool: map<string, CompactTx>, txids: seq<string>, sent: seq<CompactTx>)
    requires forall j :: 0 <= j < |txids| ==> txids[j] in pool
    ensures SendFrom(Some(pool), txids, sent) == Sent(sent + Streamed(pool, txids))
    decreases |txids|
  {
    if txids == [] {
      assert sent + [] == sent;
    } else {
      var tx := pool[txids[0]];
      var next := if |tx.hash| > 0 then sent + [tx] else sent;
      assert forall j :: 0 <= j < |txids[1..]| ==> txids[1..][j] == txids[j + 1];
      SentEntries(pool, txids[1..], next);
      var rest := Streamed(pool, txids[1..]);
      if |tx.hash| > 0 {
        assert Streamed(pool, txids) == [tx] + rest;
        assert (sent + [tx]) + rest == sent + ([tx] + rest);
      } else {
        assert Streamed(pool, txids) == rest;
      }
    }
  }

  /** A transaction without Sapling parts is stored as the blank entry,
      whose empty hash keeps it from ever being streamed. */
  lemma NonSaplingNeverSent(node: Node, prior: Option<map<string, CompactTx>>, ids: seq<string>, id: string,
                            b: Bytes, txids: seq<string>)
    requires Collect(node, prior, ids, map[]).error.None?
    requires id in ids && !Known(prior, id)
    requires Decodes(node, id, b) && !node.parseTransaction(b).hasSapling
    ensures var pool := Collect(node, prior, ids, map[]).pool;
      && id in pool && pool[id] == Blank
      && var r := SendFrom(Some(pool), txids, []);
         r.Sent? ==> pool[id] !in r.txs
  {
    var pool := Collect(node, prior, ids, map[]).pool;
    CollectFails(node, prior, ids, map[]);
    assert !FetchTx(node, id).FetchFailed?;
    RefreshedPool(node, prior, ids);
    var r := SendFrom(Some(pool), txids, []);
    if r.Sent? {
      SendPanics(Some(pool), txids, []);
      SentEntries(pool, txids, []);
      assert r.txs == [] + Streamed(pool, txids);
    }
  }

  /** A transaction that leaves the node's mempool between `getrawmempool`
      and `getrawtransaction` stays in the id list but gets no entry; unless
      the wallet excludes it, serving then dereferences nil. */
  lemma VanishedTransactionPanics(node: Node, prior: Option<map<string, CompactTx>>, ids: seq<string>,
                                  sorted: seq<string>, ex: seq<string>, id: string)
    requires Collect(node, prior, ids, map[]).error.None?
    requires id in ids && !Known(prior, id) && FetchTx(node, id).Gone?
    requires multiset(sorted) == multiset(ids)
    requires forall e :: e in ex ==> !(e <= id)
    ensures SendFrom(Some(Collect(node, prior, ids, map[]).pool), Mempool.Kept(sorted, ex), []).Panicked?
  {
    var pool := Collect(node, prior, ids, map[]).pool;
    RefreshedPool(node, prior, ids);
    assert id in multiset(ids);
    Mempool.NoPrefixSent(sorted, ex, id);
    var kept := Mempool.Kept(sorted, ex);
    var j :| 0 <= j < |kept| && kept[j] == id;
    SendPanics(Some(pool), kept, []);
  }

  // ---------------------------------------------------------------------
  // The cache

  /** The exclude list as hex ids: each txid reversed into display order. */
  function ExcludeHex(exclude: seq<Bytes>): (r: seq<string>)
    ensures |r| == |exclude|
    ensures forall i :: 0 <= i < |r| ==> |r[i]| == 2 * |exclude[i]| && HexDecode(r[i]) == Success(Reverse(exclude[i]))
  {
    ReversedRoundTrip(exclude);
    seq(|exclude|, i requires 0 <= i < |exclude| => HexEncode(Reverse(exclude[i])))
  }

  lemma ReversedRoundTrip(exclude: seq<Bytes>)
    ensures forall i :: 0 <= i < |exclude| ==> HexDecode(HexEncode(Reverse(exclude[i]))) == Success(Reverse(exclude[i]))
  {
    forall i | 0 <= i < |exclude|
      ensures HexDecode(HexEncode(Reverse(exclude[i]))) == Success(Reverse(exclude[i]))
    {
      HexRoundTrip(Reverse(exclude[i]));
    }
  }

  /** The cache's state: the time of the last refresh (nanoseconds), the
      id list and the map, None until the first refresh gets that far. */
  datatype CacheState = CacheState(last: int, list: seq<string>, pool: Option<map<string, CompactTx>>)

  /** A refresh at time `now` given the node's mempool listing (or the
      error of asking for it). The time is taken first; on an error the
      list stays, and the map is the partial one only if there was none. */
  function Refreshed(node: Node, s: CacheState, now: int, listing: Result<seq<string>, string>): (CacheState, Option<string>)
  {
    match listing
    case Failure(e) => (s.(last := now), Some(e))
    case Success(ids) =>
      var c := Collect(node, s.pool, ids, map[]);
      var pool := if c.error.None? || s.pool.None? then Some(c.pool) else s.pool;
      (CacheState(now, ids, pool), c.error)
  }

  /** The state serving starts from: refreshed when two seconds have
      passed since the last refresh, untouched otherwise. */
  function Current(node: Node, s: CacheState, now: int, listing: Result<seq<string>, string>): (CacheState, Option<string>)
  {
    if now - s.last >= TwoSeconds then Refreshed(node, s, now, listing) else (s, None)
  }

  /** Within two seconds of a refresh the node is not asked again and the
      cache serves what it holds. */
  lemma RefreshAtMostEveryTwoSeconds(node: Node, s: CacheState, now: int, later: int,
                                     listing: Result<seq<string>, string>, listing2: Result<seq<string>, string>)
    requires now <= later < now + TwoSeconds
    ensures var s1 := Current(node, s, now, listing).0;
      now - s.last >= TwoSeconds ==> Current(node, s1, later, listing2) == (s1, None)
  {
  }

  /** A refresh that completes holds an entry for every listed id that is
      still in the node's mempool or was held before, so serving panics
      only on a transaction that vanished. */
  lemma RefreshedServesListed(node: Node, s: CacheState, now: int, ids: seq<string>, sorted: seq<string>,
                              ex: seq<string>)
    requires Refreshed(node, s, now, Success(ids)).1.None?
    requires multiset(sorted) == multiset(ids)
    ensures var s1 := Refreshed(node, s, now, Success(ids)).0;
      (SendFrom(s1.pool, Mempool.Kept(sorted, ex), []).Panicked?
       ==> exists id :: id in ids && !Known(s.pool, id) && FetchTx(node, id).Gone?)
  {
    var pool := Collect(node, s.pool, ids, map[]).pool;
    var kept := Mempool.Kept(sorted, ex);
    RefreshedPool(node, s.pool, ids);
    SendPanics(Some(pool), kept, []);
    if SendFrom(Some(pool), kept, []).Panicked? {
      var j :| 0 <= j < |kept| && Missing(Some(pool), kept[j]);
      Mempool.FilterMembers(sorted, sorted, ex);
      assert kept[j] in sorted;
      assert kept[j] in multiset(ids);
      CollectFails(node, s.pool, ids, map[]);
    }
  }

  /** The package-level state `GetMempoolTx` keeps between calls. */
  class Cache {
    const node: Node
    var lastMempool: int
    var mempoolList: seq<string>
    var mempoolMap: Option<map<string, CompactTx>>

    function Snap(): CacheState
      reads this
    {
      CacheState(lastMempool, mempoolList, mempoolMap)
    }

    /** The zero time, a nil list and a nil map. */
    constructor(node: Node)
      ensures this.node == node && Snap() == CacheState(0, [], None)
    {
      this.node := node;
      lastMempool := 0;
      mempoolList := [];
      mempoolMap := None;
    }

    /** The refresh: record the time, take the node's listing, carry
        known entries forward and fetch the others. Until it finishes, a
        cache without a map sees the map being built. */
    method Refresh(now: int, listing: Result<seq<string>, string>) returns (err: Option<string>)
      modifies this`lastMempool, this`mempoolList, this`mempoolMap
      ensures (Snap(), err) == Refreshed(node, old(Snap()), now, listing)
    {
      lastMempool := now;
      if listing.Failure? {
        return Some(listing.error);
      }
      mempoolList := listing.value;
      var prior := mempoolMap;
      var newPool: map<string, CompactTx> := map[];
      var aliased := mempoolMap.None?;
      if aliased {
        mempoolMap := Some(newPool);
      }
      var i := 0;
      while i < |mempoolList|
        invariant 0 <= i <= |mempoolList| && mempoolList == listing.value && lastMempool == now
        invariant aliased == prior.None?
        invariant mempoolMap == if aliased then Some(newPool) else prior
        invariant Collect(node, prior, mempoolList, map[]) == Collect(node, prior, mempoolList[i..], newPool)
      {
        var txid := mempoolList[i];
        assert mempoolList[i..][1..] == mempoolList[i + 1..];
        if txid in mempoolMap.value {
          newPool := newPool[txid := mempoolMap.value[txid]];
          if aliased {
            mempoolMap := Some(newPool);
          }
          i := i + 1;
          continue;
        }
        var raw := node.getRawTransaction(txid);
        if raw.None? {
          i := i + 1;
          continue;
        }
        var txStr := node.unmarshalString(raw.value);
        if txStr.Failure? {
          return Some(txStr.error);
        }
        var txBytes := HexDecode(txStr.value);
        if txBytes.Failure? {
          return Some(txBytes.error);
        }
        var tx := node.parseTransaction(txBytes.value);
        if |tx.rest| > 0 {
          return Some(ErrExtraData);
        }
        newPool := newPool[txid := if tx.hasSapling then tx.compact else Blank];
        if aliased {
          mempoolMap := Some(newPool);
        }
        i := i + 1;
      }
      mempoolMap := Some(newPool);
      err := None;
    }

    /** Serving one wallet: refresh when due, filter the (sorted in place)
        id list against the wallet's exclude list, and stream the entries
        that have a hash. */
    method GetMempoolTx(now: int, listing: Result<seq<string>, string>, exclude: seq<Bytes>) returns (reply: Reply)
      modifies this`lastMempool, this`mempoolList, this`mempoolMap
      ensures var (s1, err) := Current(node, old(Snap()), now, listing);
        && (err.Some? ==> reply == Failed(err.value) && Snap() == s1)
        && (err.None? ==>
              && lastMempool == s1.last && mempoolMap == s1.pool
              && Sorted(mempoolList) && multiset(mempoolList) == multiset(s1.list)
              && exists ex :: Sorted(ex) && multiset(ex) == multiset(ExcludeHex(exclude))
                             && reply == SendFrom(mempoolMap, Mempool.Kept(mempoolList, ex), []))
    {
      if now - lastMempool >= TwoSeconds {
        var err := Refresh(now, listing);
        if err.Some? {
          return Failed(err.value);
        }
      }
      var excludeHex := EncodeExclude(exclude);
      var list := mempoolList;
      var items := new string[|list|](k requires 0 <= k < |list| => list[k]);
      assert items[..] == list;
      var tosend := Mempool.MempoolFilter(items, excludeHex);
      mempoolList := items[..];
      reply := Send(tosend);
    }

    /** The exclude ids as reversed hex, in a new array. */
    static method EncodeExclude(exclude: seq<Bytes>) returns (excludeHex: array<string>)
      ensures fresh(excludeHex) && excludeHex[..] == ExcludeHex(exclude)
    {
      excludeHex := new string[|exclude|];
      var i := 0;
      while i < |exclude|
        modifies excludeHex
        invariant 0 <= i <= |exclude|
        invariant forall k :: 0 <= k < i ==> excludeHex[k] == HexEncode(Reverse(exclude[k]))
      {
        excludeHex[i] := HexEncode(Reverse(exclude[i]));
        i := i + 1;
      }
      assert excludeHex[..] == ExcludeHex(exclude);
    }

    /** The send loop. */
    method Send(txids: seq<string>) returns (reply: Reply)
      ensures reply == SendFrom(mempoolMap, txids, [])
    {
      var sent := [];
      var i := 0;
      while i < |txids|
        invariant 0 <= i <= |txids|
        invariant SendFrom(mempoolMap, txids, []) == SendFrom(mempoolMap, txids[i..], sent)
      {
        assert txids[i..][1..] == txids[i + 1..];
        if Missing(mempoolMap, txids[i]) {
          return Panicked(sent);
        }
        var tx := mempoolMap.value[txids[i]];
        if |tx.hash| > 0 {
          sent := sent + [tx];
        }
        i := i + 1;
      }
      reply := Sent(sent);
    }
  }
}
