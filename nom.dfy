/** The parser-combinator vocabulary the IMAP parsers are written in: a
    parser takes text and either fails or returns the rest of the text with
    a value. Only complete-input behaviour occurs here, so every failure is
    recoverable (nom's `Err::Error`). */
module Nom {
  import opened Text

  datatype Parsed<+T> = Done(rest: string, value: T) | Fail

  /** `rest` is what is left of `s` after a parser consumed a prefix. */
  predicate Suffix(rest: string, s: string)
  {
    |rest| <= |s| && rest == s[|s| - |rest|..]
  }

  /** The length of the longest prefix of `s` whose characters satisfy `p`. */
  function SpanLength(s: string, p: char -> bool): (k: nat)
    ensures k <= |s|
    ensures forall i :: 0 <= i < k ==> p(s[i])
    ensures k == |s| || !p(s[k])
  {
    if s == [] || !p(s[0]) then 0 else 1 + SpanLength(s[1..], p)
  }

  /** A span does not reach past the first character that fails `p`. */
  lemma SpanLengthAppend(a: string, b: string, p: char -> bool)
    requires forall i :: 0 <= i < |a| ==> p(a[i])
    requires b == [] || !p(b[0])
    ensures SpanLength(a + b, p) == |a|
  {
    if a != [] {
      assert (a + b)[0] == a[0] && (a + b)[1..] == a[1..] + b;
      assert forall i :: 0 <= i < |a| - 1 ==> a[1..][i] == a[i + 1];
      SpanLengthAppend(a[1..], b, p);
    } else {
      assert a + b == b;
    }
  }

  predicate IsSpaceOrTab(c: char) { c == ' ' || c == '\t' }

  /** `space0`: skip spaces and tabs. */
  function Space0(s: string): (r: string)
    ensures Suffix(r, s)
    ensures r == [] || !IsSpaceOrTab(r[0])
  {
    s[SpanLength(s, IsSpaceOrTab)..]
  }

  /** `space1`: skip at least one space or tab. */
  function Space1(s: string): (r: Parsed<()>)
    ensures r.Done? <==> |s| > 0 && IsSpaceOrTab(s[0])
    ensures r.Done? ==> r.rest == Space0(s) && |r.rest| < |s|
  {
    if |s| > 0 && IsSpaceOrTab(s[0]) then Done(Space0(s), ()) else Fail
  }

  /** `char(c)` and one-character `tag`. */
  function Char(s: string, c: char): (r: Parsed<()>)
    ensures r.Done? <==> |s| > 0 && s[0] == c
    ensures r.Done? ==> r.rest == s[1..]
  {
    if |s| > 0 && s[0] == c then Done(s[1..], ()) else Fail
  }

  /** `tag(t)`: a case-sensitive prefix match. */
  function Tag(s: string, t: string): (r: Parsed<()>)
    ensures r.Done? <==> t <= s
    ensures r.Done? ==> s == t + r.rest
  {
    if t <= s then Done(s[|t|..], ()) else Fail
  }
}
