/** The few string operations the scanner relies on: Python's `in` on strings,
    `s.split(sep)[1]`, and `str(n)` for integers. The search functions carry
    no postconditions of their own; what they compute is stated by the lemmas
    beside them, so that the sheet's proofs pay for it only where they ask. */
module Strings {
  import opened Wrappers

  /** `pat` occurs in `s` starting at position `k`. */
  predicate OccursAt(s: string, pat: string, k: nat)
  {
    k + |pat| <= |s| && s[k..k + |pat|] == pat
  }

  /** The first position at or after `from` at which `pat` occurs in `s`. */
  function IndexFrom(s: string, pat: string, from: nat): (r: Option<nat>)
    ensures r.Some? ==> r.value + |pat| <= |s|
    decreases |s| - from
  {
    if |s| < from + |pat| then None
    else if s[from..from + |pat|] == pat then Some(from)
    else IndexFrom(s, pat, from + 1)
  }

  /** IndexFrom finds the first occurrence at or after `from`, and only that. */
  lemma {:induction false} IndexFromSpec(s: string, pat: string, from: nat)
    ensures IndexFrom(s, pat, from).Some? ==>
      from <= IndexFrom(s, pat, from).value && OccursAt(s, pat, IndexFrom(s, pat, from).value)
    ensures IndexFrom(s, pat, from).Some? ==>
      forall k: nat :: from <= k < IndexFrom(s, pat, from).value ==> !OccursAt(s, pat, k)
    ensures IndexFrom(s, pat, from).None? ==> forall k: nat :: from <= k ==> !OccursAt(s, pat, k)
    decreases |s| - from
  {
    if |s| >= from + |pat| && s[from..from + |pat|] != pat {
      IndexFromSpec(s, pat, from + 1);
    }
  }

  /** The first position at which `pat` occurs in `s` (Python's `s.find(pat)`,
      with None in place of -1). */
  function IndexOf(s: string, pat: string): (r: Option<nat>)
    ensures r.Some? ==> r.value + |pat| <= |s|
  {
    IndexFrom(s, pat, 0)
  }

  lemma IndexOfSpec(s: string, pat: string)
    ensures IndexOf(s, pat).Some? ==> OccursAt(s, pat, IndexOf(s, pat).value)
    ensures IndexOf(s, pat).Some? ==> forall k: nat :: k < IndexOf(s, pat).value ==> !OccursAt(s, pat, k)
    ensures IndexOf(s, pat).None? ==> forall k: nat :: !OccursAt(s, pat, k)
  {
    IndexFromSpec(s, pat, 0);
  }

  /** The first occurrence is the one at `p` when `pat` occurs there and nowhere before. */
  lemma IndexOfAt(s: string, pat: string, p: nat)
    requires OccursAt(s, pat, p)
    requires forall k: nat :: k < p ==> !OccursAt(s, pat, k)
    ensures IndexOf(s, pat) == Some(p)
  {
    IndexOfSpec(s, pat);
  }

  /** Python's `pat in s`. */
  predicate Contains(s: string, pat: string)
  {
    exists k: nat :: k <= |s| && OccursAt(s, pat, k)
  }

  /** `pat` is in `s` exactly when the search finds it. */
  lemma ContainsIff(s: string, pat: string)
    ensures Contains(s, pat) <==> IndexOf(s, pat).Some?
  {
    IndexOfSpec(s, pat);
  }

  lemma OccursThenContains(s: string, pat: string, k: nat)
    requires OccursAt(s, pat, k)
    ensures Contains(s, pat)
  {
  }

  /** A string none of whose characters is the first character of `pat` does not contain `pat`. */
  lemma NotContainsWithoutHead(s: string, pat: string)
    requires pat != [] && forall i :: 0 <= i < |s| ==> s[i] != pat[0]
    ensures !Contains(s, pat)
  {
    forall k: nat ensures !OccursAt(s, pat, k) {
      if k + |pat| <= |s| {
        assert s[k..k + |pat|][0] == s[k];
      }
    }
  }

  /** The part of `s` before the first occurrence of `sep`, all of `s` when there is none. */
  function UpTo(s: string, sep: string): string
  {
    match IndexOf(s, sep)
    case None => s
    case Some(q) => s[..q]
  }

  /** UpTo gives the prefix before the first `sep`, the whole string when `sep` is absent. */
  lemma UpToSpec(s: string, sep: string)
    requires sep != []
    ensures UpTo(s, sep) <= s
    ensures !Contains(UpTo(s, sep), sep)
    ensures !Contains(s, sep) ==> UpTo(s, sep) == s
    ensures Contains(s, sep) ==> OccursAt(s, sep, |UpTo(s, sep)|)
    // no occurrence starts inside the piece: it stops at the first one
    ensures forall k: nat :: k < |UpTo(s, sep)| ==> !OccursAt(s, sep, k)
  {
    ContainsIff(s, sep);
    IndexOfSpec(s, sep);
    var r := UpTo(s, sep);
    forall k: nat ensures !OccursAt(r, sep, k) {
      match IndexOf(s, sep)
      case None =>
        assert r == s && !OccursAt(s, sep, k);
      case Some(q) =>
        assert r == s[..q];
        if k + |sep| <= q {
          assert k < q && !OccursAt(s, sep, k);
          assert r[k..k + |sep|] == s[k..k + |sep|];
        }
    }
  }

  /** Python's `s.split(sep)[1]`, None where that raises an IndexError
      (`sep` does not occur in `s`). */
  function SplitSecond(s: string, sep: string): Option<string>
  {
    match IndexOf(s, sep)
    case None => None
    case Some(p) => Some(UpTo(s[p + |sep|..], sep))
  }

  /** The second piece exists exactly when `sep` occurs, is free of `sep`, and
      is what follows the first occurrence, up to the next one. */
  lemma SplitSecondSpec(s: string, sep: string)
    requires sep != []
    ensures SplitSecond(s, sep).Some? <==> Contains(s, sep)
    ensures SplitSecond(s, sep).Some? ==> !Contains(SplitSecond(s, sep).value, sep)
    ensures SplitSecond(s, sep).Some? ==> SplitSecond(s, sep).value <= s[IndexOf(s, sep).value + |sep|..]
    // the piece runs to the end of the string or up to the next `sep`
    ensures SplitSecond(s, sep).Some? ==>
      var rest := s[IndexOf(s, sep).value + |sep|..];
      SplitSecond(s, sep).value == rest || OccursAt(rest, sep, |SplitSecond(s, sep).value|)
    // and no occurrence in what follows the first `sep` starts inside the piece
    ensures SplitSecond(s, sep).Some? ==>
      var rest := s[IndexOf(s, sep).value + |sep|..];
      forall k: nat :: k < |SplitSecond(s, sep).value| ==> !OccursAt(rest, sep, k)
  {
    IndexOfSpec(s, sep);
    ContainsIff(s, sep);
    if Contains(s, sep) {
      UpToSpec(s[IndexOf(s, sep).value + |sep|..], sep);
    }
  }

  /** The character of a decimal digit. */
  function Digit(d: nat): (c: char)
    requires d < 10
    ensures '0' <= c <= '9'
  {
    (48 + d) as char
  }

  /** Python's `str(n)` for a non-negative integer: its decimal digits, no leading zeros. */
  function NatToString(n: nat): (s: string)
    ensures |s| >= 1
    ensures forall i :: 0 <= i < |s| ==> '0' <= s[i] <= '9'
  {
    if n < 10 then [Digit(n)] else NatToString(n / 10) + [Digit(n % 10)]
  }

  /** Python's `str(i)` for any integer. */
  function IntToString(i: int): string
  {
    if i < 0 then "-" + NatToString(-i) else NatToString(i)
  }

  /** The value of a string of decimal digits; the inverse of NatToString. */
  function ParseNat(s: string): nat
    requires forall i :: 0 <= i < |s| ==> '0' <= s[i] <= '9'
  {
    if s == [] then 0
    else ParseNat(s[..|s| - 1]) * 10 + ((s[|s| - 1] as int) - 48)
  }

  lemma {:induction false} ParseNatToString(n: nat)
    ensures ParseNat(NatToString(n)) == n
  {
    if n >= 10 {
      var s := NatToString(n);
      assert s[..|s| - 1] == NatToString(n / 10);
      ParseNatToString(n / 10);
    }
  }

  /** Different numbers are rendered differently. */
  lemma NatToStringInjective(a: nat, b: nat)
    requires NatToString(a) == NatToString(b)
    ensures a == b
  {
    ParseNatToString(a);
    ParseNatToString(b);
  }
}
