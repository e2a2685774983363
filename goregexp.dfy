/** The fragment of Go's `regexp` the server uses: patterns anchored at
    both ends (`\A ... \z`) built from character classes, each taken once
    or one-or-more times. `regexp.Match` reports whether the pattern
    matches somewhere in the input; with both anchors that is a match of
    the whole input. */
module GoRegexp {

  import opened GoStrings

  /** A literal character, `[a-zA-Z0-9]` or `[a-fA-F0-9]`. */
  datatype CharClass = Lit(c: char) | Alnum | Hex

  predicate InClass(cls: CharClass, c: char) {
    match cls
    case Lit(l) => c == l
    case Alnum => IsAsciiAlnum(c)
    case Hex => IsHexDigit(c)
  }

  /** One class taken once (`x`) or one or more times (`x+`). */
  datatype Term = One(cls: CharClass) | Plus(cls: CharClass)

  /** The terms match the whole of `s`, trying every split a `+` allows. */
  predicate Matches(ts: seq<Term>, s: string)
    decreases |ts| + |s|
  {
    if ts == [] then s == []
    else if s == [] || !InClass(ts[0].cls, s[0]) then false
    else match ts[0]
      case One(_) => Matches(ts[1..], s[1..])
      case Plus(_) => Matches(ts[1..], s[1..]) || Matches(ts, s[1..])
  }

  /** `c{n}`, written out as n single terms. */
  function Repeat(cls: CharClass, n: nat): (r: seq<Term>)
    ensures |r| == n && forall k :: 0 <= k < n ==> r[k] == One(cls)
  {
    seq(n, _ => One(cls))
  }

  /** `\At[a-zA-Z0-9]{34}\z`, the transparent-address pattern. */
  function TaddrPattern(): seq<Term> {
    [One(Lit('t'))] + Repeat(Alnum, 34)
  }

  /** `\A[a-fA-F0-9]+\z`, the branch-ID pattern. */
  function HexPattern(): seq<Term> {
    [Plus(Hex)]
  }

  /** `\A[a-zA-Z0-9]+\z`, the chain-name pattern. */
  function AlnumPattern(): seq<Term> {
    [Plus(Alnum)]
  }

  /** Every character of `s` is in the class. */
  predicate AllIn(cls: CharClass, s: string) {
    forall k :: 0 <= k < |s| ==> InClass(cls, s[k])
  }

  /** n single terms of one class match exactly the strings of length n
      drawn from the class. */
  lemma {:induction false} RepeatMatches(cls: CharClass, n: nat, s: string)
    ensures Matches(Repeat(cls, n), s) <==> |s| == n && AllIn(cls, s)
  {
    if n > 0 && s != [] {
      assert Repeat(cls, n)[1..] == Repeat(cls, n - 1);
      RepeatMatches(cls, n - 1, s[1..]);
      assert forall k :: 1 <= k < |s| ==> s[k] == s[1..][k - 1];
    } else if n == 0 {
      assert Repeat(cls, n) == [];
    }
  }

  /** A single `+` term matches exactly the non-empty strings drawn from
      its class. */
  lemma {:induction false} PlusMatches(cls: CharClass, s: string)
    ensures Matches([Plus(cls)], s) <==> |s| > 0 && AllIn(cls, s)
    decreases |s|
  {
    if s != [] && InClass(cls, s[0]) {
      assert [Plus(cls)][1..] == [];
      PlusMatches(cls, s[1..]);
      assert forall k :: 1 <= k < |s| ==> s[k] == s[1..][k - 1];
    }
  }

  /** A transparent address: 't' followed by exactly 34 ASCII letters and
      digits. */
  lemma TaddrMatches(s: string)
    ensures Matches(TaddrPattern(), s)
        <==> |s| == 35 && s[0] == 't' && forall k :: 1 <= k < 35 ==> IsAsciiAlnum(s[k])
  {
    var ts := TaddrPattern();
    assert ts[1..] == Repeat(Alnum, 34);
    if s != [] {
      RepeatMatches(Alnum, 34, s[1..]);
      assert forall k :: 1 <= k < |s| ==> s[k] == s[1..][k - 1];
    }
  }
}
