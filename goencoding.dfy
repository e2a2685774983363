/** Go library behaviour on bytes and numbers that the server depends on:
    `encoding/hex`, `strconv.ParseInt`/`FormatInt`, Go's integer conversions
    (which wrap around), the little-endian height bytes written into synthetic
    coinbase transactions, and the byte reversal between display and wire
    transaction ids. */
module GoEncoding {

  import opened Wrappers
  import GoStrings

  /** Go's `byte`. Arithmetic that wraps is written out with `% 256`. */
  newtype byte = x: int | 0 <= x < 256

  type Bytes = seq<byte>

  /** `b++` on a Go byte, which wraps from 255 to 0. */
  function Inc(b: byte): (r: byte)
    ensures r as int == (b as int + 1) % 256
  {
    if b == 255 then 0 else b + 1
  }

  // ---------------------------------------------------------------------
  // encoding/hex

  const HexAlphabet: string := "0123456789abcdef"

  /** hex.EncodeToString: two lower-case digits per byte, high nibble first. */
  function HexEncode(b: Bytes): (r: string)
    ensures |r| == 2 * |b|
  {
    if b == [] then []
    else [HexAlphabet[(b[0] / 16) as int], HexAlphabet[(b[0] % 16) as int]] + HexEncode(b[1..])
  }

  /** Every character written is a lower-case hex digit. */
  lemma {:induction false} HexEncodeAlphabet(b: Bytes)
    ensures forall k :: 0 <= k < |HexEncode(b)| ==> HexEncode(b)[k] in HexAlphabet
  {
    if b != [] {
      HexEncodeAlphabet(b[1..]);
      var s := HexEncode(b);
      forall k | 2 <= k < |s|
        ensures s[k] in HexAlphabet
      {
        assert s[k] == HexEncode(b[1..])[k - 2];
      }
    }
  }

  function HexNibble(c: char): (r: Option<byte>)
    ensures r.Some? <==> GoStrings.IsHexDigit(c)
    ensures r.Some? ==> r.value < 16
  {
    if '0' <= c <= '9' then Some(((c as int) - ('0' as int)) as byte)
    else if 'a' <= c <= 'f' then Some(((c as int) - ('a' as int) + 10) as byte)
    else if 'A' <= c <= 'F' then Some(((c as int) - ('A' as int) + 10) as byte)
    else None
  }

  const ErrHexLength := "encoding/hex: odd length hex string"
  const ErrHexByte := "encoding/hex: invalid byte: "

  const UpperHexAlphabet: string := "0123456789ABCDEF"

  /** The byte of a Go string that holds the start of character `c`: the
      character itself when it is ASCII, otherwise the lead byte of its
      UTF-8 encoding. */
  function LeadByte(c: char): (r: byte)
    ensures (c as int) < 0x80 ==> r as int == c as int
    ensures (c as int) >= 0x80 ==> 0xC2 <= r <= 0xF4
  {
    var n := c as int;
    if n < 0x80 then n as byte
    else if n < 0x800 then (0xC0 + n / 0x40) as byte
    else if n < 0x10000 then (0xE0 + n / 0x1000) as byte
    else (0xF0 + n / 0x40000) as byte
  }

  /** The UTF-8 encoding of one character, as a Go string holds it. */
  function Utf8Char(c: char): (r: Bytes)
    ensures 1 <= |r| <= 4 && r[0] == LeadByte(c)
    ensures (c as int) < 0x80 <==> |r| == 1
  {
    var n := c as int;
    if n < 0x80 then [n as byte]
    else if n < 0x800 then [(0xC0 + n / 0x40) as byte, (0x80 + n % 0x40) as byte]
    else if n < 0x10000 then [(0xE0 + n / 0x1000) as byte, (0x80 + n / 0x40 % 0x40) as byte, (0x80 + n % 0x40) as byte]
    else [(0xF0 + n / 0x40000) as byte, (0x80 + n / 0x1000 % 0x40) as byte, (0x80 + n / 0x40 % 0x40) as byte, (0x80 + n % 0x40) as byte]
  }

  /** The bytes of a Go string: `[]byte(s)`, and what `len` and slicing
      count. */
  function Utf8(s: string): (r: Bytes)
    ensures |r| >= |s|
  {
    if s == [] then [] else Utf8Char(s[0]) + Utf8(s[1..])
  }

  /** A string of ASCII characters has one byte per character, each the
      character's code; any other character takes more than one byte. */
  lemma {:induction false} Utf8Length(s: string)
    ensures (forall k :: 0 <= k < |s| ==> (s[k] as int) < 0x80) ==>
              |Utf8(s)| == |s| && forall k :: 0 <= k < |s| ==> Utf8(s)[k] as int == s[k] as int
    ensures (exists k :: 0 <= k < |s| && (s[k] as int) >= 0x80) ==> |Utf8(s)| > |s|
  {
    if s != [] {
      Utf8Length(s[1..]);
      assert forall k :: 1 <= k < |s| ==> s[1..][k - 1] == s[k];
      if exists k :: 0 <= k < |s| && (s[k] as int) >= 0x80 {
        var k :| 0 <= k < |s| && (s[k] as int) >= 0x80;
        if k > 0 {
          assert s[1..][k - 1] == s[k];
        }
      }
    }
  }

  /** The bytes of two strings joined are the bytes of each, in order. */
  lemma {:induction false} Utf8Append(a: string, b: string)
    ensures Utf8(a + b) == Utf8(a) + Utf8(b)
  {
    if a == [] {
      assert a + b == b;
    } else {
      assert (a + b)[0] == a[0] && (a + b)[1..] == a[1..] + b;
      Utf8Append(a[1..], b);
      var x, y, z := Utf8Char(a[0]), Utf8(a[1..]), Utf8(b);
      assert x + (y + z) == (x + y) + z;
    }
  }

  /** What hex.EncodeToString writes is ASCII, one byte per character. */
  lemma HexEncodeBytes(b: Bytes)
    ensures |Utf8(HexEncode(b))| == |HexEncode(b)|
  {
    HexEncodeAlphabet(b);
    Utf8Length(HexEncode(b));
  }

  /** A byte read as the rune of the same value, as `%#U` and the hex
      table see it. */
  function Latin1(b: byte): (r: char)
    ensures r as int == b as int
  {
    b as int as char
  }

  /** strconv.IsPrint for a rune below 256. */
  predicate IsPrintLatin1(b: byte) {
    (0x20 <= b <= 0x7E) || (0xA1 <= b && b != 0xAD)
  }

  /** The text of hex.InvalidByteError, which formats the offending byte
      with `%#U`: "U+00" and two upper-case hex digits, then the character
      in quotes when it is printable. */
  function InvalidByteError(b: byte): (r: string)
    ensures ErrHexByte <= r && |r| >= |ErrHexByte| + 6
    ensures r[|ErrHexByte|..|ErrHexByte| + 6] == "U+00" + [UpperHexAlphabet[(b / 16) as int], UpperHexAlphabet[(b % 16) as int]]
  {
    var code := "U+00" + [UpperHexAlphabet[(b / 16) as int], UpperHexAlphabet[(b % 16) as int]];
    var quoted := if IsPrintLatin1(b) then " '" + [Latin1(b)] + "'" else "";
    assert (ErrHexByte + code + quoted)[|ErrHexByte|..|ErrHexByte| + 6] == code;
    ErrHexByte + code + quoted
  }

  /** The invalid byte error for the string byte where character `c`
      starts. */
  function HexByteError(c: char): string
  {
    InvalidByteError(LeadByte(c))
  }

  /** An invalid byte error names an ASCII character and quotes it when it
      is printable. */
  lemma HexByteErrorAscii(c: char)
    requires ' ' <= c <= '~'
    ensures HexByteError(c) == ErrHexByte + "U+00" + [UpperHexAlphabet[(c as int) / 16], UpperHexAlphabet[(c as int) % 16]] + " '" + [c] + "'"
  {
  }

  /** hex.DecodeString. Digit pairs are checked from the front, so an invalid
      digit is reported before an odd length, as Go does. */
  function HexDecode(s: string): (r: Result<Bytes, string>)
    ensures r.Success? <==> |s| % 2 == 0 && forall k :: 0 <= k < |s| ==> GoStrings.IsHexDigit(s[k])
    ensures r.Success? ==> 2 * |r.value| == |s|
    ensures r.Failure? ==> r.error == ErrHexLength || ErrHexByte <= r.error
  {
    if |s| == 0 then Success([])
    else if |s| == 1 then Failure(if HexNibble(s[0]).None? then HexByteError(s[0]) else ErrHexLength)
    else
      var hi, lo := HexNibble(s[0]), HexNibble(s[1]);
      if hi.None? then Failure(HexByteError(s[0]))
      else if lo.None? then Failure(HexByteError(s[1]))
      else match HexDecode(s[2..])
        case Failure(e) => Failure(e)
        case Success(rest) => Success([hi.value * 16 + lo.value] + rest)
  }

  /** `s[k]` is the first character of `s` that is not a hex digit. */
  predicate FirstNonHex(s: string, k: int) {
    0 <= k < |s| && !GoStrings.IsHexDigit(s[k]) && forall j :: 0 <= j < k ==> GoStrings.IsHexDigit(s[j])
  }

  /** Decoding fails on the first character that is not a hex digit, with
      that character in the error; a string of hex digits fails only for
      its odd length. */
  lemma {:induction false} HexDecodeError(s: string)
    ensures forall k :: FirstNonHex(s, k) ==> HexDecode(s) == Failure(HexByteError(s[k]))
    ensures (forall k :: 0 <= k < |s| ==> GoStrings.IsHexDigit(s[k])) && |s| % 2 == 1 ==> HexDecode(s) == Failure(ErrHexLength)
  {
    if |s| >= 2 && HexNibble(s[0]).Some? && HexNibble(s[1]).Some? {
      HexDecodeError(s[2..]);
      forall k | FirstNonHex(s, k)
        ensures HexDecode(s) == Failure(HexByteError(s[k]))
      {
        assert k >= 2 && FirstNonHex(s[2..], k - 2);
      }
      assert (forall k :: 0 <= k < |s| ==> GoStrings.IsHexDigit(s[k])) ==> forall k :: 0 <= k < |s[2..]| ==> GoStrings.IsHexDigit(s[2..][k]);
    }
  }

  /** hex.Decode on the bytes of a string, pair by pair from the front;
      the first byte that is not a hex digit is reported, before an odd
      length. */
  function HexDecodeBytes(b: Bytes): (r: Result<Bytes, string>)
    ensures r.Success? <==> |b| % 2 == 0 && forall k :: 0 <= k < |b| ==> GoStrings.IsHexDigit(Latin1(b[k]))
    ensures r.Success? ==> 2 * |r.value| == |b|
    ensures r.Failure? ==> r.error == ErrHexLength || ErrHexByte <= r.error
  {
    if |b| == 0 then Success([])
    else if |b| == 1 then Failure(if HexNibble(Latin1(b[0])).None? then InvalidByteError(b[0]) else ErrHexLength)
    else
      var hi, lo := HexNibble(Latin1(b[0])), HexNibble(Latin1(b[1]));
      if hi.None? then Failure(InvalidByteError(b[0]))
      else if lo.None? then Failure(InvalidByteError(b[1]))
      else match HexDecodeBytes(b[2..])
        case Failure(e) => Failure(e)
        case Success(rest) => Success([hi.value * 16 + lo.value] + rest)
  }

  /** A character is a hex digit exactly when the byte it starts with is. */
  lemma LeadByteNibble(c: char)
    ensures HexNibble(Latin1(LeadByte(c))) == HexNibble(c)
    ensures HexNibble(c).Some? ==> Utf8Char(c) == [LeadByte(c)]
  {
  }

  /** Decoding a string's bytes is decoding the string: the two agree on
      every string, the error for a character outside ASCII naming its
      lead byte. */
  lemma {:induction false} HexDecodeUtf8(s: string)
    ensures HexDecodeBytes(Utf8(s)) == HexDecode(s)
  {
    if s != [] {
      var u := Utf8(s);
      LeadByteNibble(s[0]);
      assert u[0] == LeadByte(s[0]);
      if HexNibble(s[0]).Some? {
        assert u == [LeadByte(s[0])] + Utf8(s[1..]);
        if |s| >= 2 {
          var v := Utf8(s[1..]);
          LeadByteNibble(s[1]);
          assert u[1] == v[0] == LeadByte(s[1]);
          if HexNibble(s[1]).Some? {
            assert s[1..][1..] == s[2..];
            assert u[2..] == Utf8(s[2..]);
            HexDecodeUtf8(s[2..]);
          }
        }
      }
    }
  }

  lemma NibbleRoundTrip(n: byte)
    requires n < 16
    ensures HexNibble(HexAlphabet[n as int]) == Some(n)
  {
  }

  /** Decoding a byte's two digits gives the byte back. */
  lemma ByteDigitsRoundTrip(b: byte)
    ensures HexNibble(HexAlphabet[(b / 16) as int]) == Some(b / 16)
    ensures HexNibble(HexAlphabet[(b % 16) as int]) == Some(b % 16)
    ensures (b / 16) * 16 + b % 16 == b
  {
    NibbleRoundTrip(b / 16);
    NibbleRoundTrip(b % 16);
  }

  /** Decoding a string that starts with two hex digits. */
  lemma DecodeFirstPair(s: string, hi: byte, lo: byte)
    requires |s| >= 2 && HexNibble(s[0]) == Some(hi) && HexNibble(s[1]) == Some(lo)
    ensures HexDecode(s[2..]).Success? ==> HexDecode(s) == Success([hi * 16 + lo] + HexDecode(s[2..]).value)
  {
  }

  lemma ConsSplit(b: Bytes, x: byte)
    requires |b| > 0 && x == b[0]
    ensures [x] + b[1..] == b
  {
  }

  /** Decoding what hex.EncodeToString produced gives back the bytes. */
  lemma {:induction false} HexRoundTrip(b: Bytes)
    ensures HexDecode(HexEncode(b)) == Success(b)
  {
    if b != [] {
      var s := HexEncode(b);
      var hi, lo := b[0] / 16, b[0] % 16;
      ByteDigitsRoundTrip(b[0]);
      assert s[2..] == HexEncode(b[1..]);
      HexRoundTrip(b[1..]);
      assert HexDecode(s[2..]) == Success(b[1..]);
      DecodeFirstPair(s, hi, lo);
      var d := [hi * 16 + lo] + b[1..];
      assert HexDecode(s) == Success(d);
      assert hi * 16 + lo == b[0];
      ConsSplit(b, hi * 16 + lo);
    }
  }

  // ---------------------------------------------------------------------
  // strconv

  predicate IsDigit(c: char) {
    '0' <= c <= '9'
  }

  predicate AllDigits(s: string) {
    forall k :: 0 <= k < |s| ==> IsDigit(s[k])
  }

  /** The value of a string of decimal digits, most significant first. */
  function DecimalValue(s: string): nat
    requires AllDigits(s)
  {
    if s == [] then 0 else 10 * DecimalValue(s[..|s| - 1]) + ((s[|s| - 1] as int) - ('0' as int))
  }

  function Pow2(n: nat): (r: int)
    ensures r > 0
  {
    if n == 0 then 1 else 2 * Pow2(n - 1)
  }

  /** strconv.ParseInt(s, 10, bitSize): an optional sign, at least one
      decimal digit and nothing else, with a value that fits in `bitSize`
      bits (strconv.Atoi is the case bitSize == 64). Syntax and range errors
      are both None. */
  function ParseInt(s: string, bitSize: nat): (r: Option<int>)
    requires 0 < bitSize <= 64
    ensures r.Some? ==> -Pow2(bitSize - 1) <= r.value < Pow2(bitSize - 1)
    ensures r.Some? ==> |s| > 0 && AllDigits(if s[0] in "+-" then s[1..] else s)
  {
    if |s| == 0 then None
    else
      var digits := if s[0] in "+-" then s[1..] else s;
      if |digits| == 0 || !AllDigits(digits) then None
      else
        var v: int := DecimalValue(digits);
        var n := if s[0] == '-' then -v else v;
        if -Pow2(bitSize - 1) <= n < Pow2(bitSize - 1) then Some(n) else None
  }

  function FormatNat(n: nat): (r: string)
    ensures |r| > 0 && AllDigits(r)
  {
    if n < 10 then [(('0' as int) + n) as char]
    else FormatNat(n / 10) + [(('0' as int) + n % 10) as char]
  }

  /** strconv.FormatInt(n, 10) */
  function FormatInt(n: int): (r: string)
    ensures |r| > 0
  {
    if n < 0 then "-" + FormatNat(-n) else FormatNat(n)
  }

  lemma {:induction false} FormatNatValue(n: nat)
    ensures DecimalValue(FormatNat(n)) == n
  {
    if n >= 10 {
      var s := FormatNat(n);
      assert s[..|s| - 1] == FormatNat(n / 10);
      FormatNatValue(n / 10);
    }
  }

  /** ParseInt reads back every value FormatInt writes, when it fits. */
  lemma ParseFormatRoundTrip(n: int, bitSize: nat)
    requires 0 < bitSize <= 64
    requires -Pow2(bitSize - 1) <= n < Pow2(bitSize - 1)
    ensures ParseInt(FormatInt(n), bitSize) == Some(n)
  {
    var s := FormatInt(n);
    if n < 0 {
      FormatNatValue(-n);
      assert s[1..] == FormatNat(-n);
    } else {
      FormatNatValue(n);
      assert s[0] !in "+-" by { assert IsDigit(s[0]); }
    }
  }

  // ---------------------------------------------------------------------
  // Go's integer conversions, which keep the low bits.

  const TwoTo32: int := 0x1_0000_0000
  const TwoTo64: int := 0x1_0000_0000_0000_0000

  /** uint32(x) */
  function Uint32(x: int): (r: int)
    ensures 0 <= r < TwoTo32 && (x - r) % TwoTo32 == 0
  {
    x % TwoTo32
  }

  /** uint64(x) */
  function Uint64(x: int): (r: int)
    ensures 0 <= r < TwoTo64 && (x - r) % TwoTo64 == 0
  {
    x % TwoTo64
  }

  /** int32(x) */
  function Int32(x: int): (r: int)
    ensures -TwoTo32 / 2 <= r < TwoTo32 / 2 && (x - r) % TwoTo32 == 0
  {
    var u := x % TwoTo32;
    if u >= TwoTo32 / 2 then u - TwoTo32 else u
  }

  /** int64(x) */
  function Int64(x: int): (r: int)
    ensures -TwoTo64 / 2 <= r < TwoTo64 / 2 && (x - r) % TwoTo64 == 0
  {
    var u := x % TwoTo64;
    if u >= TwoTo64 / 2 then u - TwoTo64 else u
  }

  predicate IsInt32(x: int) {
    -TwoTo32 / 2 <= x < TwoTo32 / 2
  }

  /** Adding one to an int32 and wrapping, i times, is wrapping `x + i`:
      the `height++` of the synthetic block loop. */
  lemma Int32Increment(x: int, i: int)
    ensures Int32(Int32(x + i) + 1) == Int32(x + i + 1)
  {
    var a := x + i;
    var u := a % TwoTo32;
    assert a == (a / TwoTo32) * TwoTo32 + u;
    var v := Int32(a);
    assert v == u || v == u - TwoTo32;
    assert (v + 1) % TwoTo32 == (a + 1) % TwoTo32 by {
      assert (a + 1) - (v + 1) == (a / TwoTo32 + (if v == u then 0 else 1)) * TwoTo32;
      ModMultiple(v + 1, a + 1, a / TwoTo32 + (if v == u then 0 else 1));
    }
  }

  lemma ModMultiple(x: int, y: int, k: int)
    requires y == x + k * TwoTo32
    ensures x % TwoTo32 == y % TwoTo32
  {
    var q := x / TwoTo32;
    var r := x % TwoTo32;
    assert y == (q + k) * TwoTo32 + r;
  }

  // ---------------------------------------------------------------------
  // Little-endian 32-bit heights.

  /** The bytes `h & 0xFF, (h >> 8) & 0xFF, (h >> 16) & 0xFF, (h >> 24) & 0xFF`;
      Go's `>>` on a signed value is a floor division, as Dafny's `/` is for a
      positive divisor. */
  function LittleEndian32(h: int): (r: Bytes)
    ensures |r| == 4
  {
    [(h % 256) as byte, ((h / 256) % 256) as byte,
     ((h / 65536) % 256) as byte, ((h / 16777216) % 256) as byte]
  }

  /** Reads four little-endian bytes as a two's-complement int32. */
  function Int32FromLittleEndian(b: Bytes): (r: int)
    requires |b| == 4
    ensures IsInt32(r)
  {
    var u := b[0] as int + 256 * (b[1] as int) + 65536 * (b[2] as int) + 16777216 * (b[3] as int);
    if u >= TwoTo32 / 2 then u - TwoTo32 else u
  }

  /** The height written into a synthetic coinbase reads back as that height. */
  lemma LittleEndian32RoundTrip(h: int)
    requires IsInt32(h)
    ensures Int32FromLittleEndian(LittleEndian32(h)) == h
  {
    ByteShifts(h);
    ReadBack(h);
  }

  /** The four bytes, as repeated shifts by 8 bits. */
  function ByteSplit(h: int): Bytes {
    [(h % 256) as byte, ((h / 256) % 256) as byte, ((h / 256 / 256) % 256) as byte, ((h / 256 / 256 / 256) % 256) as byte]
  }

  lemma ByteShifts(h: int)
    ensures LittleEndian32(h) == ByteSplit(h)
  {
    Shifts(h);
  }

  lemma ReadBack(h: int)
    requires IsInt32(h)
    ensures Int32FromLittleEndian(ByteSplit(h)) == h
  {
    var q1 := h / 256;
    var q2 := q1 / 256;
    var q3 := q2 / 256;
    var r0, r1, r2, r3 := h % 256, q1 % 256, q2 % 256, q3 % 256;
    assert ByteSplit(h) == [r0 as byte, r1 as byte, r2 as byte, r3 as byte];
    FromBytes(r0, r1, r2, r3);
    Reassemble(h);
  }

  /** Shifting right by 16 or 24 bits is shifting by 8 bits two or three times. */
  lemma Shifts(h: int)
    ensures h / 65536 == h / 256 / 256
    ensures h / 16777216 == h / 256 / 256 / 256
  {
    var q1 := h / 256;
    var q2 := q1 / 256;
    var q3 := q2 / 256;
    var r0, r1, r2 := h % 256, q1 % 256, q2 % 256;
    assert h == 256 * q1 + r0;
    assert q1 == 256 * q2 + r1;
    assert q2 == 256 * q3 + r2;
    assert h == 65536 * q2 + 256 * r1 + r0;
    assert h == 16777216 * q3 + 65536 * r2 + 256 * r1 + r0;
  }

  /** An int32 is its four low bytes read as two's complement. */
  lemma Reassemble(h: int)
    requires IsInt32(h)
    ensures var q1 := h / 256; var q2 := q1 / 256; var q3 := q2 / 256;
      var u := h % 256 + 256 * (q1 % 256) + 65536 * (q2 % 256) + 16777216 * (q3 % 256);
      h == if u >= TwoTo32 / 2 then u - TwoTo32 else u
  {
    var q1 := h / 256;
    var q2 := q1 / 256;
    var q3 := q2 / 256;
    var q4 := q3 / 256;
    var r0, r1, r2, r3 := h % 256, q1 % 256, q2 % 256, q3 % 256;
    assert h == 256 * q1 + r0;
    assert q1 == 256 * q2 + r1;
    assert q2 == 256 * q3 + r2;
    assert q3 == 256 * q4 + r3;
    assert h == r0 + 256 * r1 + 65536 * r2 + 16777216 * r3 + TwoTo32 * q4;
    assert q4 == 0 || q4 == -1;
  }

  lemma FromBytes(r0: int, r1: int, r2: int, r3: int)
    requires 0 <= r0 < 256 && 0 <= r1 < 256 && 0 <= r2 < 256 && 0 <= r3 < 256
    ensures var u := r0 + 256 * r1 + 65536 * r2 + 16777216 * r3;
      Int32FromLittleEndian([r0 as byte, r1 as byte, r2 as byte, r3 as byte]) == if u >= TwoTo32 / 2 then u - TwoTo32 else u
  {
  }

  // ---------------------------------------------------------------------

  /** parser.Reverse: transaction ids are displayed in the reverse of their
      wire byte order. */
  function Reverse(b: Bytes): (r: Bytes)
    ensures |r| == |b| && forall k :: 0 <= k < |b| ==> r[k] == b[|b| - 1 - k]
  {
    if b == [] then [] else Reverse(b[1..]) + [b[0]]
  }
}
