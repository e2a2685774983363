/** The parts of Go's string semantics that the model relies on: the `<`
    operator on strings (byte-wise lexicographic order), `strings.HasPrefix`,
    `strings.TrimSpace`, splitting at the first separator, and the ASCII
    character classes used by the server's regular expressions.

    Go strings are byte strings; here they are `seq<char>`. For the ASCII
    identifiers this model handles the two agree, and UTF-8 byte order agrees
    with code-point order in any case. */
module GoStrings {

  import opened Wrappers

  /** Go's `a < b` on strings. */
  predicate Less(a: string, b: string) {
    if |b| == 0 then false
    else if |a| == 0 then true
    else if a[0] != b[0] then a[0] < b[0]
    else Less(a[1..], b[1..])
  }

  /** Go's `a <= b` on strings. */
  predicate LessEq(a: string, b: string) {
    !Less(b, a)
  }

  /** `strings.HasPrefix(s, prefix)`; Dafny's `<=` on sequences is "is a prefix of". */
  predicate HasPrefix(s: string, prefix: string) {
    prefix <= s
  }

  /** Sorted in ascending order under Go's string order. */
  predicate Sorted(s: seq<string>) {
    forall i, j :: 0 <= i < j < |s| ==> LessEq(s[i], s[j])
  }

  function Min(a: int, b: int): int {
    if a < b then a else b
  }

  lemma {:induction false} LessIrreflexive(a: string)
    ensures !Less(a, a)
  {
    if |a| > 0 {
      assert a[0] == a[0];
      LessIrreflexive(a[1..]);
    }
  }

  lemma {:induction false} LessTransitive(a: string, b: string, c: string)
    requires Less(a, b) && Less(b, c)
    ensures Less(a, c)
  {
    if |a| > 0 && a[0] == b[0] && b[0] == c[0] {
      LessTransitive(a[1..], b[1..], c[1..]);
    }
  }

  lemma {:induction false} LessTotal(a: string, b: string)
    ensures a == b || Less(a, b) || Less(b, a)
  {
    if |a| > 0 && |b| > 0 && a[0] == b[0] {
      LessTotal(a[1..], b[1..]);
      if a[1..] == b[1..] {
        assert a == [a[0]] + a[1..] && b == [b[0]] + b[1..];
      }
    }
  }

  lemma LessEqTransitive(a: string, b: string, c: string)
    requires LessEq(a, b) && LessEq(b, c)
    ensures LessEq(a, c)
  {
    if Less(c, a) {
      LessTotal(a, b);
      if Less(a, b) {
        LessTransitive(c, a, b);
      }
    }
  }

  /** A proper prefix sorts strictly before the string it starts. */
  lemma {:induction false} ProperPrefixLess(p: string, s: string)
    requires p <= s && p != s
    ensures Less(p, s)
  {
    if |p| > 0 {
      assert p[0] == s[0];
      ProperPrefixLess(p[1..], s[1..]);
    }
  }

  /** Two prefixes of one string are ordered by length, so the smaller is a
      prefix of the larger. */
  lemma PrefixesNested(a: string, b: string, x: string)
    requires a <= x && b <= x && LessEq(a, b)
    ensures a <= b
  {
    if |a| > |b| {
      assert b == a[..|b|];
      ProperPrefixLess(b, a);
    }
  }

  // ---------------------------------------------------------------------
  // The comparison used by the mempool filter: `e < i[0:l]` where l is the
  // shorter of the two lengths.

  /** `lessthan(e, i)` of frontend/service.go: is `e` less than `i` truncated
      to the length of the shorter of the two? */
  predicate TruncatedLess(e: string, i: string) {
    Less(e, i[..Min(|e|, |i|)])
  }

  /** `e` and `x` differ at some position both have, and `e` is smaller there. */
  predicate DivergesBelow(e: string, x: string) {
    if |e| == 0 || |x| == 0 then false
    else if e[0] != x[0] then e[0] < x[0]
    else DivergesBelow(e[1..], x[1..])
  }

  lemma {:induction false} TruncatedLessIsDivergence(e: string, x: string)
    ensures TruncatedLess(e, x) <==> DivergesBelow(e, x)
  {
    var l := Min(|e|, |x|);
    if |e| > 0 && |x| > 0 {
      var t := x[..l];
      assert t[0] == x[0];
      if e[0] == x[0] {
        assert t[1..] == x[1..][..Min(|e[1..]|, |x[1..]|)];
        TruncatedLessIsDivergence(e[1..], x[1..]);
      }
    }
  }

  /** A prefix of `x` never diverges below `x`. */
  lemma {:induction false} PrefixNotTruncatedLess(e: string, x: string)
    requires e <= x
    ensures !TruncatedLess(e, x)
  {
    TruncatedLessIsDivergence(e, x);
    PrefixNotBelow(e, x);
  }

  lemma {:induction false} PrefixNotBelow(e: string, x: string)
    requires e <= x
    ensures !DivergesBelow(e, x)
  {
    if |e| > 0 {
      assert e[0] == x[0];
      PrefixNotBelow(e[1..], x[1..]);
    }
  }

  /** Once an exclude entry is behind one item it is behind every later item:
      the cursor of the merge never has to move back. */
  lemma TruncatedLessMonotone(e: string, x1: string, x2: string)
    requires TruncatedLess(e, x1) && LessEq(x1, x2)
    ensures TruncatedLess(e, x2)
  {
    TruncatedLessIsDivergence(e, x1);
    TruncatedLessIsDivergence(e, x2);
    BelowMonotone(e, x1, x2);
  }

  lemma {:induction false} BelowMonotone(e: string, x1: string, x2: string)
    requires DivergesBelow(e, x1) && LessEq(x1, x2)
    ensures DivergesBelow(e, x2)
  {
    assert |x2| > 0;
    if x1[0] == x2[0] && e[0] == x1[0] {
      BelowMonotone(e[1..], x1[1..], x2[1..]);
    }
  }

  /** If the first entry not behind `x` is at most some prefix `p` of `x`,
      that entry is itself a prefix of `x`. */
  lemma CursorEntryIsPrefix(a: string, p: string, x: string)
    requires LessEq(a, p) && p <= x && !TruncatedLess(a, x)
    ensures a <= x
  {
    TruncatedLessIsDivergence(a, x);
    NotBelowIsPrefix(a, p, x);
  }

  lemma {:induction false} NotBelowIsPrefix(a: string, p: string, x: string)
    requires LessEq(a, p) && p <= x && !DivergesBelow(a, x)
    ensures a <= x
  {
    if |a| > 0 {
      assert |p| > 0;
      assert p[0] == x[0];
      if a[0] == x[0] {
        NotBelowIsPrefix(a[1..], p[1..], x[1..]);
      }
    }
  }

  /** An entry behind `x` that sorts no later than a common prefix `e` of `x`
      and `y` is behind `y` as well. */
  lemma TruncatedLessShared(a: string, e: string, x: string, y: string)
    requires TruncatedLess(a, x) && e <= x && e <= y && LessEq(a, e)
    ensures TruncatedLess(a, y)
  {
    TruncatedLessIsDivergence(a, x);
    TruncatedLessIsDivergence(a, y);
    BelowShared(a, e, x, y);
  }

  lemma {:induction false} BelowShared(a: string, e: string, x: string, y: string)
    requires DivergesBelow(a, x) && e <= x && e <= y && LessEq(a, e)
    ensures DivergesBelow(a, y)
  {
    assert |e| > 0;
    assert e[0] == x[0] && e[0] == y[0];
    if a[0] == x[0] {
      BelowShared(a[1..], e[1..], x[1..], y[1..]);
    }
  }

  // ---------------------------------------------------------------------
  // strings.TrimSpace and strings.SplitN(s, sep, 2)

  /** unicode.IsSpace */
  predicate IsSpace(c: char) {
    c == '\t' || c == '\n' || c == '\U{000B}' || c == '\U{000C}' || c == '\r' || c == ' '
    || c == '\U{0085}' || c == '\U{00A0}' || c == '\U{1680}'
    || ('\U{2000}' <= c <= '\U{200A}')
    || c == '\U{2028}' || c == '\U{2029}' || c == '\U{202F}' || c == '\U{205F}' || c == '\U{3000}'
  }

  function TrimLeft(s: string): (r: string)
    ensures |r| <= |s| && r == s[|s| - |r|..]
    ensures |r| > 0 ==> !IsSpace(r[0])
    ensures forall k :: 0 <= k < |s| - |r| ==> IsSpace(s[k])
  {
    if |s| > 0 && IsSpace(s[0]) then TrimLeft(s[1..]) else s
  }

  function TrimRight(s: string): (r: string)
    ensures |r| <= |s| && r == s[..|r|]
    ensures |r| > 0 ==> !IsSpace(r[|r| - 1])
    ensures forall k :: |r| <= k < |s| ==> IsSpace(s[k])
  {
    if |s| > 0 && IsSpace(s[|s| - 1]) then TrimRight(s[..|s| - 1]) else s
  }

  /** `r` is `s[i..j]` and only white space lies outside it. */
  predicate TrimmedTo(s: string, r: string, i: int, j: int) {
    && 0 <= i <= j <= |s| && r == s[i..j]
    && (forall k :: 0 <= k < i ==> IsSpace(s[k]))
    && (forall k :: j <= k < |s| ==> IsSpace(s[k]))
  }

  /** strings.TrimSpace: the slice of `s` left after dropping white space at
      both ends. */
  function TrimSpace(s: string): (r: string)
    ensures exists i, j :: TrimmedTo(s, r, i, j)
    ensures |r| > 0 ==> !IsSpace(r[0]) && !IsSpace(r[|r| - 1])
  {
    var left := TrimLeft(s);
    var r := TrimRight(left);
    TrimBoth(s, left, r);
    r
  }

  lemma TrimBoth(s: string, left: string, r: string)
    requires |left| <= |s| && left == s[|s| - |left|..]
    requires forall k :: 0 <= k < |s| - |left| ==> IsSpace(s[k])
    requires |r| <= |left| && r == left[..|r|]
    requires forall k :: |r| <= k < |left| ==> IsSpace(left[k])
    ensures TrimmedTo(s, r, |s| - |left|, |s| - |left| + |r|)
  {
    var i := |s| - |left|;
    assert r == s[i..i + |r|] by {
      forall k | 0 <= k < |r|
        ensures r[k] == s[i + k]
      {
        assert r[k] == left[k];
      }
    }
    forall k | i + |r| <= k < |s|
      ensures IsSpace(s[k])
    {
      assert s[k] == left[k - i];
    }
  }

  /** strings.SplitN(s, sep, 2) for a one-character separator: the parts
      before and after its first occurrence, or None when it does not occur
      (SplitN then returns a single part). */
  function SplitFirst(s: string, sep: char): (r: Option<(string, string)>)
    ensures r.None? <==> sep !in s
    ensures r.Some? ==> s == r.value.0 + [sep] + r.value.1 && sep !in r.value.0
  {
    if |s| == 0 then None
    else if s[0] == sep then Some(([], s[1..]))
    else match SplitFirst(s[1..], sep)
      case None => None
      case Some(parts) => Some(([s[0]] + parts.0, parts.1))
  }

  // ---------------------------------------------------------------------
  // Character classes of the server's regular expressions.

  /** `[a-zA-Z0-9]` */
  predicate IsAsciiAlnum(c: char) {
    ('a' <= c <= 'z') || ('A' <= c <= 'Z') || ('0' <= c <= '9')
  }

  /** `[a-fA-F0-9]` */
  predicate IsHexDigit(c: char) {
    ('a' <= c <= 'f') || ('A' <= c <= 'F') || ('0' <= c <= '9')
  }
}
