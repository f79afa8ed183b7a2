/**
 * The string primitives the source takes from the JDK: two-digit numbers
 * (Integer.parseInt of a `\d{2}` group, String.format("%02d")), splitting on
 * commas (String.split(",")) and joining with commas (Collectors.joining(",")).
 */
module Text {

  /** `\d` of java.util.regex: an ASCII digit. */
  predicate IsDigit(c: char)
  {
    '0' <= c <= '9'
  }

  function DigitValue(c: char): int
    requires IsDigit(c)
  {
    c as int - '0' as int
  }

  function DigitChar(d: int): (c: char)
    requires 0 <= d < 10
    ensures IsDigit(c) && DigitValue(c) == d
  {
    ('0' as int + d) as char
  }

  /** Integer.parseInt of a two-digit group. */
  function Num2(a: char, b: char): (n: int)
    requires IsDigit(a) && IsDigit(b)
    ensures 0 <= n < 100
  {
    10 * DigitValue(a) + DigitValue(b)
  }

  /** String.format("%02d", n). */
  function Pad2(n: int): (s: string)
    requires 0 <= n < 100
    ensures |s| == 2 && IsDigit(s[0]) && IsDigit(s[1])
    ensures Num2(s[0], s[1]) == n
  {
    [DigitChar(n / 10), DigitChar(n % 10)]
  }

  /** Printing a parsed two-digit group gives the group back. */
  lemma Pad2OfNum2(a: char, b: char)
    requires IsDigit(a) && IsDigit(b)
    ensures Pad2(Num2(a, b)) == [a, b]
  {
    var n := Num2(a, b);
    assert n / 10 == DigitValue(a) && n % 10 == DigitValue(b);
  }

  /**
   * The pieces of s between commas, empty pieces included. On strings without
   * empty pieces, which are the only ones the source splits, this is what
   * String.split(",") returns.
   */
  function SplitCommas(s: string): (r: seq<string>)
    ensures |r| >= 1
    ensures forall k :: 0 <= k < |r| ==> ',' !in r[k]
    ensures forall k :: 0 <= k < |r| ==> |r[k]| <= |s|
    ensures |r| > 1 ==> forall k :: 0 <= k < |r| ==> |r[k]| < |s|
    ensures JoinCommas(r) == s
  {
    if s == [] then [[]]
    else
      var rest := SplitCommas(s[1..]);
      if s[0] == ',' then [[]] + rest
      else [[s[0]] + rest[0]] + rest[1..]
  }

  /** Collectors.joining(","). */
  function JoinCommas(ps: seq<string>): string
  {
    if ps == [] then []
    else if |ps| == 1 then ps[0]
    else ps[0] + [','] + JoinCommas(ps[1..])
  }

  /** Splitting undoes joining pieces that hold no comma. */
  lemma {:induction false} SplitJoin(ps: seq<string>)
    requires |ps| >= 1
    requires forall k :: 0 <= k < |ps| ==> ',' !in ps[k]
    ensures SplitCommas(JoinCommas(ps)) == ps
  {
    if |ps| == 1 {
      SplitPlain(ps[0]);
    } else {
      SplitJoin(ps[1..]);
      SplitPrefix(ps[0], JoinCommas(ps[1..]));
    }
  }

  /** A string without commas is its own only piece. */
  lemma {:induction false} SplitPlain(p: string)
    requires ',' !in p
    ensures SplitCommas(p) == [p]
  {
    if p != [] {
      SplitPlain(p[1..]);
    }
  }

  /** Splitting `p,rest` for a comma-free p. */
  lemma {:induction false} SplitPrefix(p: string, rest: string)
    requires ',' !in p
    ensures SplitCommas(p + [','] + rest) == [p] + SplitCommas(rest)
  {
    var s := p + [','] + rest;
    if p == [] {
      assert s[0] == ',' && s[1..] == rest;
    } else {
      assert s[0] == p[0] && s[1..] == p[1..] + [','] + rest;
      SplitPrefix(p[1..], rest);
      var r := SplitCommas(s[1..]);
      assert r == [p[1..]] + SplitCommas(rest);
      assert SplitCommas(s) == [[p[0]] + r[0]] + r[1..];
      assert [p[0]] + p[1..] == p;
    }
  }
}
