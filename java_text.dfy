/**
 * The java.lang.String operations the modelled code relies on:
 * indexOf, lastIndexOf, contains, startsWith, split on a literal separator
 * (trailing empty strings removed, as String.split(regex) does with limit 0),
 * and decimal rendering of a non-negative int.
 */
module JavaText {

  /** `sub` occurs in `s` starting at position `i`. */
  predicate OccursAt(s: string, sub: string, i: int)
  {
    0 <= i && i + |sub| <= |s| && s[i..i + |sub|] == sub
  }

  /** The first occurrence of `sub` in `s` at or after `from`, or -1. */
  function IndexOfFrom(s: string, sub: string, from: nat): (r: int)
    decreases |s| - from
    ensures r == -1 || (from <= r && OccursAt(s, sub, r))
    ensures r == -1 ==> forall i :: from <= i <= |s| ==> !OccursAt(s, sub, i)
    ensures r != -1 ==> forall i :: from <= i < r ==> !OccursAt(s, sub, i)
  {
    if from + |sub| > |s| then -1
    else if s[from..from + |sub|] == sub then from
    else IndexOfFrom(s, sub, from + 1)
  }

  /** String.indexOf(String). */
  function IndexOf(s: string, sub: string): int
  {
    IndexOfFrom(s, sub, 0)
  }

  /** String.contains(CharSequence). */
  predicate Contains(s: string, sub: string)
  {
    IndexOf(s, sub) >= 0
  }

  lemma ContainsIff(s: string, sub: string)
    ensures Contains(s, sub) <==> exists i :: OccursAt(s, sub, i)
  {
  }

  /** String.lastIndexOf(String): the last occurrence of `sub` in `s`, or -1. */
  function LastIndexOf(s: string, sub: string): (r: int)
    ensures r == -1 || OccursAt(s, sub, r)
    ensures forall i :: r < i <= |s| ==> !OccursAt(s, sub, i)
  {
    LastIndexBefore(s, sub, |s|)
  }

  /** The last occurrence of `sub` in `s` starting at or before `upto`, or -1. */
  function LastIndexBefore(s: string, sub: string, upto: int): (r: int)
    requires upto <= |s|
    decreases upto + 1
    ensures r == -1 || (r <= upto && OccursAt(s, sub, r))
    ensures forall i :: r < i <= upto ==> !OccursAt(s, sub, i)
  {
    if upto < 0 then -1
    else if OccursAt(s, sub, upto) then upto
    else LastIndexBefore(s, sub, upto - 1)
  }

  /** String.startsWith(String). */
  predicate StartsWith(s: string, prefix: string)
  {
    |prefix| <= |s| && s[..|prefix|] == prefix
  }

  /** The pieces between leftmost non-overlapping occurrences of `sep`. */
  function RawSplit(s: string, sep: string): (r: seq<string>)
    requires |sep| > 0
    decreases |s|
    ensures |r| >= 1
  {
    var i := IndexOf(s, sep);
    if i < 0 then [s] else [s[..i]] + RawSplit(s[i + |sep|..], sep)
  }

  /** Drops the empty strings at the end of `xs`. */
  function TrimTrailingEmpty(xs: seq<string>): (r: seq<string>)
    ensures |r| <= |xs| && r == xs[..|r|]
    ensures |r| == 0 || r[|r| - 1] != ""
    ensures forall k :: |r| <= k < |xs| ==> xs[k] == ""
  {
    if |xs| > 0 && xs[|xs| - 1] == "" then TrimTrailingEmpty(xs[..|xs| - 1]) else xs
  }

  /**
   * String.split(sep) for a separator with no regular-expression meaning:
   * the whole string when `sep` does not occur, otherwise the pieces with
   * trailing empty strings removed (possibly none at all).
   */
  function Split(s: string, sep: string): seq<string>
    requires |sep| > 0
  {
    if IndexOf(s, sep) < 0 then [s] else TrimTrailingEmpty(RawSplit(s, sep))
  }

  /** String.join: `xs` with `sep` between consecutive elements. */
  function Join(xs: seq<string>, sep: string): string
  {
    if |xs| == 0 then ""
    else if |xs| == 1 then xs[0]
    else Join(xs[..|xs| - 1], sep) + sep + xs[|xs| - 1]
  }

  /** Decimal digits of a non-negative int, as Integer.toString writes them. */
  function NatToString(n: nat): (r: string)
    ensures |r| >= 1
    ensures forall k :: 0 <= k < |r| ==> '0' <= r[k] <= '9'
  {
    if n < 10 then [Digit(n)] else NatToString(n / 10) + [Digit(n % 10)]
  }

  function Digit(d: nat): (c: char)
    requires d < 10
    ensures '0' <= c <= '9' && c as int - '0' as int == d
  {
    ('0' as int + d) as char
  }

  /** Reading the digits back gives the number: the rendering is injective. */
  function DigitsValue(r: string): int
  {
    if |r| == 0 then 0 else DigitsValue(r[..|r| - 1]) * 10 + (r[|r| - 1] as int - '0' as int)
  }

  lemma {:induction false} NatToStringRoundTrip(n: nat)
    ensures DigitsValue(NatToString(n)) == n
  {
    if n >= 10 {
      NatToStringRoundTrip(n / 10);
      var r := NatToString(n);
      assert r[..|r| - 1] == NatToString(n / 10);
    }
  }

  lemma NatToStringInjective(m: nat, n: nat)
    requires NatToString(m) == NatToString(n)
    ensures m == n
  {
    NatToStringRoundTrip(m);
    NatToStringRoundTrip(n);
  }

  /** The first occurrence of a one-character separator is just after a prefix free of it. */
  lemma IndexOfChar(a: string, c: char, rest: string)
    requires c !in a
    ensures IndexOf(a + [c] + rest, [c]) == |a|
  {
    var s := a + [c] + rest;
    assert OccursAt(s, [c], |a|) by {
      assert s[|a|..|a| + 1] == [c];
    }
    forall i | 0 <= i < |a|
      ensures !OccursAt(s, [c], i)
    {
      assert s[i..i + 1] == [a[i]];
    }
  }

  lemma RawSplitAtFirst(a: string, c: char, rest: string)
    requires c !in a
    ensures RawSplit(a + [c] + rest, [c]) == [a] + RawSplit(rest, [c])
  {
    var s := a + [c] + rest;
    IndexOfChar(a, c, rest);
    assert s[..|a|] == a;
    assert s[|a| + 1..] == rest;
  }

  /** Splitting `a c rest` on `c`, with `a` non-empty and free of `c`, gives `a` first. */
  lemma SplitFirstField(a: string, c: char, rest: string)
    requires a != "" && c !in a
    ensures |Split(a + [c] + rest, [c])| >= 1 && Split(a + [c] + rest, [c])[0] == a
  {
    IndexOfChar(a, c, rest);
    RawSplitAtFirst(a, c, rest);
    var xs := RawSplit(a + [c] + rest, [c]);
    var r := TrimTrailingEmpty(xs);
    assert xs[0] == a;
  }

  /** Splitting `a c b c rest` on `c`, with `a` and `b` non-empty and free of `c`, gives `a` then `b`. */
  lemma SplitSecondField(a: string, b: string, c: char, rest: string)
    requires a != "" && c !in a && b != "" && c !in b
    ensures |Split(a + [c] + b + [c] + rest, [c])| >= 2
    ensures Split(a + [c] + b + [c] + rest, [c])[0] == a && Split(a + [c] + b + [c] + rest, [c])[1] == b
  {
    var s := a + [c] + b + [c] + rest;
    assert s == a + [c] + (b + [c] + rest);
    IndexOfChar(a, c, b + [c] + rest);
    RawSplitAtFirst(a, c, b + [c] + rest);
    RawSplitAtFirst(b, c, rest);
    var xs := RawSplit(s, [c]);
    var r := TrimTrailingEmpty(xs);
    assert xs[0] == a && xs[1] == b;
  }
}
