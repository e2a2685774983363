/** The request checks and reply shaping of frontend/service.go: the
    transparent-address check, the validation of the darkside `Reset`
    request, the parsing of the node's `sendrawtransaction` error text, and
    the height and count filter of `getAddressUtxos`. */
module Frontend {

  import opened Wrappers
  import opened GoStrings
  import opened GoEncoding
  import opened GoRegexp
  import Darkside
  import MempoolCache

  // ---------------------------------------------------------------------
  // checkTaddress

  const ErrInvalidAddress := "invalid address"

  /** checkTaddress: an error unless the address is one transparent
      address. */
  function CheckTaddress(taddr: string): (r: Option<string>)
    ensures r.None? <==> |taddr| == 35 && taddr[0] == 't' && forall k :: 1 <= k < 35 ==> IsAsciiAlnum(taddr[k])
    ensures r.Some? ==> r.value == ErrInvalidAddress
  {
    TaddrMatches(taddr);
    if Matches(TaddrPattern(), taddr) then None else Some(ErrInvalidAddress)
  }

  // ---------------------------------------------------------------------
  // DarksideStreamer.Reset

  const ErrInvalidBranch := "invalid branch ID"
  const ErrInvalidChain := "invalid chain name"

  /** The checks `Reset` makes before resetting: the branch ID first, then
      the chain name. */
  function ValidateMetaState(branchID: string, chainName: string): (r: Option<string>)
    ensures r.None? <==> |branchID| > 0 && AllIn(Hex, branchID) && |chainName| > 0 && AllIn(Alnum, chainName)
    ensures r == Some(ErrInvalidBranch) <==> !(|branchID| > 0 && AllIn(Hex, branchID))
    ensures r.Some? ==> r.value in {ErrInvalidBranch, ErrInvalidChain}
  {
    PlusMatches(Hex, branchID);
    PlusMatches(Alnum, chainName);
    if !Matches(HexPattern(), branchID) then Some(ErrInvalidBranch)
    else if !Matches(AlnumPattern(), chainName) then Some(ErrInvalidChain)
    else None
  }

  /** DarksideStreamer.Reset: validate, reset the darkside state, and drop
      the cached mempool. A rejected request changes nothing. */
  method Reset(state: Darkside.State, cache: MempoolCache.Cache, saplingActivation: int,
               branchID: string, chainName: string) returns (err: Option<string>)
    requires state.Valid()
    modifies state, cache`mempoolMap, cache`mempoolList
    ensures err == ValidateMetaState(branchID, chainName)
    ensures err.Some? ==> unchanged(state) && unchanged(cache)
    ensures err.None? ==>
      && state.Valid()
      && state.Snap() == Darkside.Snapshot(true, 0, saplingActivation, branchID, chainName, -1, [], [], [], [], false)
      && cache.mempoolMap.None? && cache.mempoolList == [] && cache.lastMempool == old(cache.lastMempool)
  {
    err := ValidateMetaState(branchID, chainName);
    if err.Some? {
      return;
    }
    state.DarksideReset(saplingActivation, branchID, chainName);
    cache.mempoolMap := None;
    cache.mempoolList := [];
  }

  // ---------------------------------------------------------------------
  // SendTransaction

  const ErrBadTransaction := "bad Transaction or Data"
  const ErrUnparsedCode := "SendTransaction couldn't parse error code"

  /** The reply to a wallet's SendTransaction: a code (0 on success) and
      a message (the transaction id or the node's complaint). */
  datatype SendResponse = SendResponse(errorCode: int, errorMessage: string)

  /** `c` and `m` are the parts of `text` before and after its first ':'. */
  predicate SplitAt(text: string, c: string, m: string) {
    text == c + [':'] + m && ':' !in c
  }

  /** The node's error text "code: message" split into its parts: the code
      is the text before the first ':' read as a decimal int32, and the
      message is the rest with its surrounding white space dropped. */
  function ParseRpcError(text: string): (r: Result<SendResponse, string>)
    ensures r.Failure? ==> r.error == ErrUnparsedCode
    ensures r.Success? ==> -TwoTo32 / 2 <= r.value.errorCode < TwoTo32 / 2
    ensures r.Success? ==> |r.value.errorMessage| == 0 || (!IsSpace(r.value.errorMessage[0])
                                                          && !IsSpace(r.value.errorMessage[|r.value.errorMessage| - 1]))
  {
    var parts := SplitFirst(text, ':');
    if parts.None? then Failure(ErrUnparsedCode)
    else ParseCodeAndMessage(parts.value.0, parts.value.1)
  }

  /** The reply parsed from the node's error text is exactly the one its
      first ':' determines: it succeeds if and only if the text has a ':'
      and the text before it is a decimal int32, and then carries that code
      and the trimmed rest. */
  lemma ParseRpcErrorSplit(text: string)
    ensures ParseRpcError(text).Success? <==> exists c, m :: SplitAt(text, c, m) && ParseInt(c, 32).Some?
    ensures forall c, m :: SplitAt(text, c, m) && ParseInt(c, 32).Some? ==>
              ParseRpcError(text) == Success(SendResponse(ParseInt(c, 32).value, TrimSpace(m)))
  {
    match SplitFirst(text, ':')
    case None =>
      NoSplit(text);
    case Some((code, rest)) =>
      SplitUnique(text, code, rest);
      var p := ParseInt(code, 32);
      assert ParseRpcError(text) == ParseCodeAndMessage(code, rest);
      if p.Some? {
        assert ParseRpcError(text) == Success(SendResponse(p.value, TrimSpace(rest)));
        assert SplitAt(text, code, rest) && ParseInt(code, 32).Some?;
      } else {
        assert ParseRpcError(text).Failure?;
        forall c, m | SplitAt(text, c, m)
          ensures ParseInt(c, 32).None?
        {
        }
      }
  }

  /** Text without ':' has no parts around one. */
  lemma NoSplit(text: string)
    requires ':' !in text
    ensures forall c, m :: !SplitAt(text, c, m)
  {
  }

  /** The parts around the first ':' are unique. */
  lemma SplitUnique(text: string, code: string, rest: string)
    requires SplitAt(text, code, rest)
    ensures forall c, m :: SplitAt(text, c, m) ==> c == code && m == rest
  {
    SplitAtFirst(code, rest, ':');
    forall c, m | SplitAt(text, c, m)
      ensures c == code && m == rest
    {
      SplitAtFirst(c, m, ':');
    }
  }

  /** The two halves around the first ':': a 32-bit decimal code, and the
      message with its surrounding white space dropped. */
  function ParseCodeAndMessage(code: string, rest: string): (r: Result<SendResponse, string>)
    ensures r.Failure? <==> ParseInt(code, 32).None?
    ensures r.Failure? ==> r.error == ErrUnparsedCode
    ensures r.Success? ==> r.value.errorCode == ParseInt(code, 32).value && r.value.errorMessage == TrimSpace(rest)
    ensures r.Success? ==> -TwoTo32 / 2 <= r.value.errorCode < TwoTo32 / 2
    ensures r.Success? ==> |r.value.errorMessage| == 0 || (!IsSpace(r.value.errorMessage[0])
                                                          && !IsSpace(r.value.errorMessage[|r.value.errorMessage| - 1]))
  {
    match ParseInt(code, 32)
    case None => Failure(ErrUnparsedCode)
    case Some(n) =>
      assert Pow2(31) == TwoTo32 / 2 by { Pow2Value(); }
      Success(SendResponse(n, TrimSpace(rest)))
  }

  lemma Pow2Value()
    ensures Pow2(31) == TwoTo32 / 2
  {
    assert Pow2(8) == 256;
    assert Pow2(16) == 65536;
    assert Pow2(24) == 16777216;
  }

  /** SendTransaction after the nil check: the data goes to the node as
      hex; a node error is parsed into code and message, a node reply is
      the message with code 0. */
  function SendTransaction(data: Option<Bytes>, node: string -> Result<string, string>): (r: Result<SendResponse, string>)
    ensures data.None? ==> r == Failure(ErrBadTransaction)
    ensures data.Some? && node(HexEncode(data.value)).Success? ==>
              r == Success(SendResponse(0, node(HexEncode(data.value)).value))
    ensures data.Some? && node(HexEncode(data.value)).Failure? ==>
              r == ParseRpcError(node(HexEncode(data.value)).error)
  {
    match data
    case None => Failure(ErrBadTransaction)
    case Some(tx) =>
      match node(HexEncode(tx))
      case Success(result) => Success(SendResponse(0, result))
      case Failure(e) => ParseRpcError(e)
  }

  /** An error text written as "code: message" by the node is read back
      as that code and message. */
  lemma RpcErrorRoundTrip(code: int, message: string)
    requires -TwoTo32 / 2 <= code < TwoTo32 / 2
    requires |message| == 0 || (!IsSpace(message[0]) && !IsSpace(message[|message| - 1]))
    ensures ParseRpcError(FormatInt(code) + ": " + message) == Success(SendResponse(code, message))
  {
    var head := FormatInt(code);
    var text := head + ": " + message;
    FormatIntNoColon(code);
    assert text == head + [':'] + (" " + message);
    SplitAtFirst(head, " " + message, ':');
    ParseFormat32(code);
    TrimPadded(message);
  }

  /** A code in the int32 range is read back by `ParseInt(_, 10, 32)`. */
  lemma ParseFormat32(code: int)
    requires -TwoTo32 / 2 <= code < TwoTo32 / 2
    ensures ParseInt(FormatInt(code), 32) == Some(code)
  {
    Pow2Value();
    ParseFormatRoundTrip(code, 32);
  }

  lemma FormatIntNoColon(n: int)
    ensures ':' !in FormatInt(n)
  {
    var s := FormatInt(n);
    if n < 0 {
      assert s == "-" + FormatNat(-n);
      assert forall k :: 1 <= k < |s| ==> s[k] == FormatNat(-n)[k - 1];
    }
    assert forall k :: 0 <= k < |s| ==> s[k] != ':' by {
      forall k | 0 <= k < |s|
        ensures s[k] != ':'
      {
        if n >= 0 {
          assert IsDigit(FormatNat(n)[k]);
        } else if k > 0 {
          assert IsDigit(FormatNat(-n)[k - 1]);
        }
      }
    }
  }

  /** Splitting at the first separator finds the part before it when that
      part does not contain it. */
  lemma {:induction false} SplitAtFirst(head: string, tail: string, sep: char)
    requires sep !in head
    ensures SplitFirst(head + [sep] + tail, sep) == Some((head, tail))
  {
    var s := head + [sep] + tail;
    if head != [] {
      assert s[0] == head[0] && s[1..] == head[1..] + [sep] + tail;
      SplitAtFirst(head[1..], tail, sep);
      assert [head[0]] + head[1..] == head;
    } else {
      assert s[0] == sep && s[1..] == tail;
    }
  }

  /** One leading space is trimmed; a message without white space at its
      ends is kept whole. */
  lemma TrimPadded(m: string)
    requires |m| == 0 || (!IsSpace(m[0]) && !IsSpace(m[|m| - 1]))
    ensures TrimSpace(" " + m) == m
  {
    var s := " " + m;
    assert IsSpace(s[0]) && s[1..] == m;
    TrimLeftKeeps(m);
    assert TrimLeft(s) == m;
    TrimRightKeeps(m);
  }

  lemma TrimLeftKeeps(m: string)
    requires |m| == 0 || !IsSpace(m[0])
    ensures TrimLeft(m) == m
  {
  }

  lemma TrimRightKeeps(m: string)
    requires |m| == 0 || !IsSpace(m[|m| - 1])
    ensures TrimRight(m) == m
  {
  }

  // ---------------------------------------------------------------------
  // getAddressUtxos

  /** One entry of the node's `getaddressutxos` reply. */
  datatype Utxo = Utxo(address: string, txid: string, outputIndex: int, script: string, satoshis: int, height: int)

  /** One entry delivered to the wallet. */
  datatype UtxoReply = UtxoReply(address: string, txid: Bytes, index: int, script: Bytes, valueZat: int, height: int)

  /** The entries delivered, and the error that cut the list short. */
  datatype Delivery = Delivery(replies: seq<UtxoReply>, error: Option<string>)

  /** One reply entry: the hex ids decoded (the txid into wire order) and
      the numbers converted to the reply's widths. */
  function Convert(u: Utxo): (r: Result<UtxoReply, string>)
    ensures r.Success? <==> HexDecode(u.txid).Success? && HexDecode(u.script).Success?
    ensures r.Success? ==> HexDecode(u.txid) == Success(Reverse(r.value.txid))
    ensures r.Success? ==> r.value.height == Uint64(u.height) && r.value.address == u.address
  {
    match HexDecode(u.txid)
    case Failure(e) => Failure(e)
    case Success(txid) =>
      match HexDecode(u.script)
      case Failure(e) => Failure(e)
      case Success(script) =>
        ReverseTwice(txid);
        Success(UtxoReply(u.address, Reverse(txid), Int32(u.outputIndex), script, Int64(u.satoshis), Uint64(u.height)))
  }

  /** The rest of the entry: the script decoded as is, the output index
      and the amount converted to the reply's int32 and int64, and the
      first decoding error (the txid's, else the script's) on failure. */
  lemma ConvertFields(u: Utxo)
    ensures var r := Convert(u);
      && (r.Success? ==> HexDecode(u.script) == Success(r.value.script))
      && (r.Success? ==> r.value.index == Int32(u.outputIndex) && r.value.valueZat == Int64(u.satoshis))
      && (r.Failure? ==> r.error == if HexDecode(u.txid).Failure? then HexDecode(u.txid).error
                                    else HexDecode(u.script).error)
  {
  }

  lemma ReverseTwice(b: Bytes)
    ensures Reverse(Reverse(b)) == b
  {
  }

  /** `uint64(utxo.Height) < StartHeight`: the entry is skipped. */
  predicate Below(u: Utxo, start: int) {
    Uint64(u.height) < start
  }

  /** `MaxEntries > 0 && uint32(n) > MaxEntries`: the loop stops. */
  predicate Full(max: int, n: int) {
    max > 0 && Uint32(n) > max
  }

  /** Below 2^32 - 1 entries the counter does not wrap, so the loop stops
      exactly when it would deliver entry `max + 1`. */
  lemma FullExactly(max: int, n: nat)
    requires 0 <= max < TwoTo32 - 1 && (max > 0 ==> n <= max)
    ensures Full(max, n + 1) <==> max > 0 && n == max
  {
    if max > 0 {
      assert Uint32(n + 1) == n + 1;
    }
  }

  /** The loop of getAddressUtxos from entry `us[0]` on, `n` entries
      counted and `acc` delivered so far. */
  function Walk(us: seq<Utxo>, start: int, max: int, n: int, acc: seq<UtxoReply>): Delivery
    decreases |us|
  {
    if us == [] then Delivery(acc, None)
    else if Below(us[0], start) then Walk(us[1..], start, max, n, acc)
    else if Full(max, n + 1) then Delivery(acc, None)
    else match Convert(us[0])
      case Failure(e) => Delivery(acc, Some(e))
      case Success(r) => Walk(us[1..], start, max, n + 1, acc + [r])
  }

  predicate AllTaddresses(addresses: seq<string>) {
    forall a :: a in addresses ==> CheckTaddress(a).None?
  }

  /** getAddressUtxos given the node's (decoded) reply. */
  function AddressUtxos(addresses: seq<string>, start: int, max: int, reply: Result<seq<Utxo>, string>): Delivery {
    if !AllTaddresses(addresses) then Delivery([], Some(ErrInvalidAddress))
    else match reply
      case Failure(e) => Delivery([], Some(e))
      case Success(us) => Walk(us, start, max, 0, [])
  }

  /** The entries at or above the start height, in order. */
  function Eligible(us: seq<Utxo>, start: int): (r: seq<Utxo>)
    ensures |r| <= |us|
  {
    if us == [] then []
    else (if !Below(us[0], start) then [us[0]] else []) + Eligible(us[1..], start)
  }

  /** The first `bound` entries, or all of them when there is no bound. */
  function Limit(xs: seq<Utxo>, bound: Option<nat>): (r: seq<Utxo>)
    ensures r <= xs
    ensures bound.Some? ==> |r| <= bound.value
    ensures bound.None? || |xs| <= bound.value ==> r == xs
  {
    if bound.Some? && |xs| > bound.value then xs[..bound.value] else xs
  }

  /** Converting entries in order, stopping at the first that fails. */
  function ConvertAll(xs: seq<Utxo>): (r: Delivery)
    ensures |r.replies| <= |xs|
  {
    if xs == [] then Delivery([], None)
    else match Convert(xs[0])
      case Failure(e) => Delivery([], Some(e))
      case Success(u) =>
        var d := ConvertAll(xs[1..]);
        Delivery([u] + d.replies, d.error)
  }

  /** The bound left after `n` entries: `max - n` more when `max` is
      positive, none otherwise. */
  function Bound(max: int, n: nat): Option<nat>
    requires max > 0 ==> n <= max
  {
    if max > 0 then Some(max - n) else None
  }

  /** What getAddressUtxos delivers, stated directly: the entries at or
      above the start height, at most `max` of them when `max` is positive,
      converted in order until one fails to decode. */
  function Reference(us: seq<Utxo>, start: int, max: int, n: nat): Delivery
    requires max > 0 ==> n <= max
  {
    ConvertAll(Limit(Eligible(us, start), Bound(max, n)))
  }

  /** The loop, started with `acc` already delivered, goes on to deliver
      exactly the reference delivery. */
  predicate Delivers(us: seq<Utxo>, start: int, max: int, n: nat, acc: seq<UtxoReply>)
    requires max > 0 ==> n <= max
  {
    var d := Reference(us, start, max, n);
    Walk(us, start, max, n, acc) == Delivery(acc + d.replies, d.error)
  }

  /** The loop computes the reference delivery, after `acc`. */
  lemma {:induction false} WalkDelivers(us: seq<Utxo>, start: int, max: int, n: nat, acc: seq<UtxoReply>)
    requires 0 <= max < TwoTo32 - 1 && (max > 0 ==> n <= max)
    ensures Delivers(us, start, max, n, acc)
    decreases |us|, 1
  {
    if us == [] {
      assert Limit(Eligible(us, start), Bound(max, n)) == [];
    } else if Below(us[0], start) {
      WalkDelivers(us[1..], start, max, n, acc);
      WalkSkips(us, start, max, n, acc);
    } else if max > 0 && n == max {
      WalkFull(us, start, max, n, acc);
    } else {
      WalkDecodes(us, start, max, n, acc);
    }
  }

  /** WalkDelivers for an entry the loop converts. */
  lemma {:induction false} WalkDecodes(us: seq<Utxo>, start: int, max: int, n: nat, acc: seq<UtxoReply>)
    requires us != [] && !Below(us[0], start)
    requires 0 <= max < TwoTo32 - 1 && (max > 0 ==> n < max)
    ensures Delivers(us, start, max, n, acc)
    decreases |us|, 0
  {
    match Convert(us[0])
    case Failure(_) =>
      WalkFails(us, start, max, n, acc);
    case Success(r) =>
      WalkDelivers(us[1..], start, max, n + 1, acc + [r]);
      WalkConverts(us, start, max, n, acc, r);
  }

  /** A skipped entry: the loop and the reference both move on. */
  lemma WalkSkips(us: seq<Utxo>, start: int, max: int, n: nat, acc: seq<UtxoReply>)
    requires us != [] && Below(us[0], start) && (max > 0 ==> n <= max)
    requires Delivers(us[1..], start, max, n, acc)
    ensures Delivers(us, start, max, n, acc)
  {
    ReferenceSkips(us, start, max, n);
  }

  /** The entry past the bound: the loop stops and the reference is empty. */
  lemma WalkFull(us: seq<Utxo>, start: int, max: int, n: nat, acc: seq<UtxoReply>)
    requires us != [] && !Below(us[0], start) && 0 < max < TwoTo32 - 1 && n == max
    ensures Delivers(us, start, max, n, acc)
  {
    FullExactly(max, n);
    ReferenceFull(us, start, max, n);
    assert acc + [] == acc;
  }

  /** An entry that fails to decode ends both with its error. */
  lemma WalkFails(us: seq<Utxo>, start: int, max: int, n: nat, acc: seq<UtxoReply>)
    requires us != [] && !Below(us[0], start) && Convert(us[0]).Failure?
    requires 0 <= max < TwoTo32 - 1 && (max > 0 ==> n < max)
    ensures Delivers(us, start, max, n, acc)
  {
    FullExactly(max, n);
    ReferenceStep(us, start, max, n);
    assert acc + [] == acc;
  }

  /** An entry that decodes is delivered by both, and both go on. */
  lemma WalkConverts(us: seq<Utxo>, start: int, max: int, n: nat, acc: seq<UtxoReply>, r: UtxoReply)
    requires us != [] && !Below(us[0], start) && Convert(us[0]) == Success(r)
    requires 0 <= max < TwoTo32 - 1 && (max > 0 ==> n < max)
    requires Delivers(us[1..], start, max, n + 1, acc + [r])
    ensures Delivers(us, start, max, n, acc)
  {
    WalkGoesOn(us, start, max, n, acc, r);
    ReferenceConverts(us, start, max, n, r);
    AppendAfter(Walk(us, start, max, n, acc), Walk(us[1..], start, max, n + 1, acc + [r]), acc, r,
                Reference(us[1..], start, max, n + 1), Reference(us, start, max, n));
  }

  lemma AppendAfter(w: Delivery, w1: Delivery, acc: seq<UtxoReply>, r: UtxoReply, d: Delivery, whole: Delivery)
    requires w == w1 && w1 == Delivery(acc + [r] + d.replies, d.error)
    requires whole == Delivery([r] + d.replies, d.error)
    ensures w == Delivery(acc + whole.replies, whole.error)
  {
    assert acc + [r] + d.replies == acc + ([r] + d.replies);
  }

  lemma ReferenceConverts(us: seq<Utxo>, start: int, max: int, n: nat, r: UtxoReply)
    requires us != [] && !Below(us[0], start) && (max > 0 ==> n < max) && Convert(us[0]) == Success(r)
    ensures var d := Reference(us[1..], start, max, n + 1);
      Reference(us, start, max, n) == Delivery([r] + d.replies, d.error)
  {
    ReferenceStep(us, start, max, n);
  }

  lemma WalkGoesOn(us: seq<Utxo>, start: int, max: int, n: nat, acc: seq<UtxoReply>, r: UtxoReply)
    requires us != [] && !Below(us[0], start) && Convert(us[0]) == Success(r)
    requires 0 <= max < TwoTo32 - 1 && (max > 0 ==> n < max)
    ensures Walk(us, start, max, n, acc) == Walk(us[1..], start, max, n + 1, acc + [r])
  {
    FullExactly(max, n);
  }

  lemma ReferenceSkips(us: seq<Utxo>, start: int, max: int, n: nat)
    requires us != [] && Below(us[0], start) && (max > 0 ==> n <= max)
    ensures Reference(us, start, max, n) == Reference(us[1..], start, max, n)
  {
    assert Eligible(us, start) == Eligible(us[1..], start);
  }

  lemma ReferenceFull(us: seq<Utxo>, start: int, max: int, n: nat)
    requires us != [] && !Below(us[0], start) && max > 0 && n == max
    ensures Reference(us, start, max, n) == Delivery([], None)
  {
    assert Limit(Eligible(us, start), Bound(max, n)) == [];
  }

  lemma ReferenceStep(us: seq<Utxo>, start: int, max: int, n: nat)
    requires us != [] && !Below(us[0], start) && (max > 0 ==> n < max)
    ensures Reference(us, start, max, n)
         == match Convert(us[0])
            case Failure(e) => Delivery([], Some(e))
            case Success(r) =>
              var d := Reference(us[1..], start, max, n + 1);
              Delivery([r] + d.replies, d.error)
  {
    var rest := Eligible(us[1..], start);
    assert Eligible(us, start) == [us[0]] + rest;
    LimitCons(us[0], rest, Bound(max, n), Bound(max, n + 1));
    var limited := [us[0]] + Limit(rest, Bound(max, n + 1));
    assert limited[0] == us[0] && limited[1..] == Limit(rest, Bound(max, n + 1));
  }

  /** A bound that leaves room keeps the first entry and one less of the
      rest. */
  lemma LimitCons(u: Utxo, rest: seq<Utxo>, bound: Option<nat>, next: Option<nat>)
    requires bound.None? ==> next.None?
    requires bound.Some? ==> bound.value > 0 && next == Some(bound.value - 1)
    ensures Limit([u] + rest, bound) == [u] + Limit(rest, next)
  {
    if bound.Some? && |rest| + 1 > bound.value {
      assert ([u] + rest)[..bound.value] == [u] + rest[..bound.value - 1];
    }
  }

  /** Every delivered entry is the conversion of the entry in the same
      position, and without an error every entry is delivered. */
  lemma {:induction false} ConvertAllInOrder(xs: seq<Utxo>)
    ensures var d := ConvertAll(xs);
      && (forall k :: 0 <= k < |d.replies| ==> Convert(xs[k]) == Success(d.replies[k]))
      && (d.error.None? ==> |d.replies| == |xs|)
      && (d.error.Some? ==> |d.replies| < |xs| && Convert(xs[|d.replies|]) == Failure(d.error.value))
  {
    if xs != [] && Convert(xs[0]).Success? {
      ConvertAllInOrder(xs[1..]);
    }
  }

  /** The entries considered are exactly those at or above the start
      height, in their original order. */
  lemma {:induction false} EligibleMembers(us: seq<Utxo>, start: int)
    ensures forall u :: u in Eligible(us, start) <==> u in us && Uint64(u.height) >= start
  {
    if us != [] {
      EligibleMembers(us[1..], start);
    }
  }

  /** getAddressUtxos: every address checked, then the node's entries
      walked with the counter `n`, skipping those below the start height
      and stopping after `max` delivered when `max` is positive. */
  method GetAddressUtxos(addresses: seq<string>, start: int, max: int, reply: Result<seq<Utxo>, string>)
    returns (d: Delivery)
    ensures d == AddressUtxos(addresses, start, max, reply)
  {
    var j := 0;
    while j < |addresses|
      invariant 0 <= j <= |addresses|
      invariant forall a :: a in addresses[..j] ==> CheckTaddress(a).None?
    {
      var err := CheckTaddress(addresses[j]);
      if err.Some? {
        return Delivery([], err);
      }
      assert addresses[..j + 1] == addresses[..j] + [addresses[j]];
      j := j + 1;
    }
    assert addresses[..j] == addresses;
    if reply.Failure? {
      return Delivery([], Some(reply.error));
    }
    var us := reply.value;
    var replies := [];
    var n := 0;
    var i := 0;
    while i < |us|
      invariant 0 <= i <= |us|
      invariant Walk(us, start, max, 0, []) == Walk(us[i..], start, max, n, replies)
    {
      var u := us[i];
      assert us[i..][1..] == us[i + 1..];
      if Uint64(u.height) < start {
        i := i + 1;
        continue;
      }
      n := n + 1;
      if max > 0 && Uint32(n) > max {
        break;
      }
      var txid := HexDecode(u.txid);
      if txid.Failure? {
        return Delivery(replies, Some(txid.error));
      }
      var script := HexDecode(u.script);
      if script.Failure? {
        return Delivery(replies, Some(script.error));
      }
      replies := replies + [UtxoReply(u.address, Reverse(txid.value), Int32(u.outputIndex), script.value,
                                      Int64(u.satoshis), Uint64(u.height))];
      i := i + 1;
    }
    d := Delivery(replies, None);
  }
}
