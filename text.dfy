/** Bytes, ASCII characters and the handful of Rust `str` operations the
    servers are built from (`split_once`, `split`, `splitn`,
    `to_ascii_uppercase`, `trim_end`, unsigned `from_str`), with Rust's exact
    edge cases. */
module Text {
  import opened Wrappers

  newtype byte = x: int | 0 <= x < 256

  const CR: byte := 13
  const LF: byte := 10

  const U32_MAX: nat := 0xFFFF_FFFF
  const U64_MAX: nat := 0xFFFF_FFFF_FFFF_FFFF

  /** `char::to_ascii_uppercase`: only `a`..`z` change. */
  function UpperChar(c: char): char
  {
    if 'a' <= c <= 'z' then (c as int - 32) as char else c
  }

  /** `str::to_ascii_uppercase`. */
  function Upper(s: string): (r: string)
    ensures |r| == |s|
    ensures forall i :: 0 <= i < |s| ==> r[i] == UpperChar(s[i])
  {
    if s == [] then [] else [UpperChar(s[0])] + Upper(s[1..])
  }

  /** Text without lower-case ASCII letters is its own upper case. */
  lemma UpperSame(s: string)
    requires forall i :: 0 <= i < |s| ==> !('a' <= s[i] <= 'z')
    ensures Upper(s) == s
  {
  }

  /** The position of the first `c` in `s`, if any. */
  function Find(s: string, c: char): (r: Option<nat>)
    ensures r.None? <==> c !in s
    ensures r.Some? ==> r.value < |s| && s[r.value] == c && c !in s[..r.value]
  {
    if s == [] then None
    else if s[0] == c then Some(0)
    else match Find(s[1..], c)
      case None => None
      case Some(k) => assert s[1..][..k] == s[1..k + 1]; Some(k + 1)
  }

  lemma FindAfter(a: string, c: char, b: string)
    requires c !in a
    ensures Find(a + [c] + b, c) == Some(|a|)
  {
    var s := a + [c] + b;
    assert forall i :: 0 <= i < |a| ==> s[i] == a[i];
    assert s[|a|] == c;
  }

  /** `s.split_once(c).unwrap_or((s, ""))`: the text before the first `c` and
      the text after it, or all of `s` and nothing when `c` does not occur. */
  function SplitOnceOr(s: string, c: char): (r: (string, string))
    ensures c in s ==> s == r.0 + [c] + r.1 && c !in r.0
    ensures c !in s ==> r == (s, "")
  {
    match Find(s, c)
    case None => (s, "")
    case Some(k) => assert s == s[..k] + [c] + s[k + 1..]; (s[..k], s[k + 1..])
  }

  lemma SplitOnceOrJoined(a: string, c: char, b: string)
    requires c !in a
    ensures SplitOnceOr(a + [c] + b, c) == (a, b)
  {
    FindAfter(a, c, b);
    var s := a + [c] + b;
    assert s[..|a|] == a && s[|a| + 1..] == b;
  }

  /** `s.split(c).collect::<Vec<_>>()`: never empty; `"".split(c)` is `[""]`. */
  function Split(s: string, c: char): (r: seq<string>)
    ensures |r| >= 1
    ensures forall i :: 0 <= i < |r| ==> c !in r[i]
    decreases |s|
  {
    match Find(s, c)
    case None => [s]
    case Some(k) => [s[..k]] + Split(s[k + 1..], c)
  }

  /** The pieces of `xs` with `sep` between neighbours (`[..].join(sep)`). */
  function Join(xs: seq<string>, sep: string): string
  {
    if xs == [] then "" else if |xs| == 1 then xs[0] else xs[0] + sep + Join(xs[1..], sep)
  }

  lemma JoinCons(x: string, xs: seq<string>, sep: string)
    requires |xs| >= 1
    ensures Join([x] + xs, sep) == x + sep + Join(xs, sep)
  {
    assert ([x] + xs)[1..] == xs;
  }

  /** Appending a piece to a join adds one separator (none to an empty join). */
  lemma {:induction false} JoinSnoc(xs: seq<string>, x: string, sep: string)
    ensures Join(xs + [x], sep) == if xs == [] then x else Join(xs, sep) + sep + x
  {
    if |xs| == 1 {
      assert (xs + [x])[1..] == [x];
    } else if |xs| > 1 {
      assert (xs + [x])[1..] == xs[1..] + [x];
      JoinSnoc(xs[1..], x, sep);
    } else {
      assert xs + [x] == [x];
    }
  }

  /** Joining one more piece of a prefix: a separator, unless the prefix
      was empty, then the piece. */
  lemma JoinPrefixStep(xs: seq<string>, i: nat, sep: string)
    requires i < |xs|
    ensures Join(xs[..i + 1], sep) == Join(xs[..i], sep) + (if 0 < i then sep else "") + xs[i]
  {
    JoinSnoc(xs[..i], xs[i], sep);
    assert xs[..i + 1] == xs[..i] + [xs[i]];
    if i == 0 {
      assert xs[..i] == [];
    }
  }

  /** A character that is in no piece and is not the separator is not in
      the join. */
  lemma {:induction false} JoinWithout(xs: seq<string>, c: char)
    requires c != ' '
    requires forall k :: 0 <= k < |xs| ==> c !in xs[k]
    ensures c !in Join(xs, " ")
  {
    if |xs| > 1 {
      JoinWithout(xs[1..], c);
      assert Join(xs, " ") == xs[0] + " " + Join(xs[1..], " ");
    }
  }

  /** The pieces written one after another. */
  function Concat(ss: seq<string>): string
  {
    if ss == [] then "" else Concat(ss[..|ss| - 1]) + ss[|ss| - 1]
  }

  lemma {:induction false} ConcatAppend(a: seq<string>, b: seq<string>)
    ensures Concat(a + b) == Concat(a) + Concat(b)
    decreases |b|
  {
    if b == [] {
      assert a + b == a;
    } else {
      var b0 := b[..|b| - 1];
      assert (a + b)[..|a + b| - 1] == a + b0;
      ConcatAppend(a, b0);
    }
  }

  lemma {:induction false} JoinSplit(s: string, c: char)
    ensures Join(Split(s, c), [c]) == s
    decreases |s|
  {
    match Find(s, c)
    case None =>
    case Some(k) =>
      var rest := Split(s[k + 1..], c);
      JoinSplit(s[k + 1..], c);
      assert Split(s, c) == [s[..k]] + rest;
      assert ([s[..k]] + rest)[1..] == rest;
      assert Join(Split(s, c), [c]) == s[..k] + [c] + Join(rest, [c]);
      assert s == s[..k] + [c] + s[k + 1..];
  }

  lemma {:induction false} SplitJoin(xs: seq<string>, c: char)
    requires |xs| >= 1
    requires forall i :: 0 <= i < |xs| ==> c !in xs[i]
    ensures Split(Join(xs, [c]), c) == xs
  {
    if |xs| > 1 {
      var rest := Join(xs[1..], [c]);
      FindAfter(xs[0], c, rest);
      var s := xs[0] + [c] + rest;
      assert s[..|xs[0]|] == xs[0] && s[|xs[0]| + 1..] == rest;
      SplitJoin(xs[1..], c);
    }
  }

  /** `s.splitn(2, c)`: the first piece and, when `c` occurs, the rest. */
  function SplitN2(s: string, c: char): (r: (string, Option<string>))
    ensures c in s ==> r.1.Some? && s == r.0 + [c] + r.1.value && c !in r.0
    ensures c !in s ==> r == (s, None)
  {
    match Find(s, c)
    case None => (s, None)
    case Some(_) => var (a, b) := SplitOnceOr(s, c); (a, Some(b))
  }

  lemma SplitN2Joined(a: string, c: char, b: string)
    requires c !in a
    ensures SplitN2(a + [c] + b, c) == (a, Some(b))
  {
    FindAfter(a, c, b);
    SplitOnceOrJoined(a, c, b);
  }

  // ---- decimal numbers ----

  predicate IsDigit(c: char) { '0' <= c <= '9' }

  predicate AllDigits(s: string) { forall i :: 0 <= i < |s| ==> IsDigit(s[i]) }

  function DigitChar(d: nat): char
    requires d < 10
  {
    ('0' as int + d) as char
  }

  /** The value of a string of decimal digits (leading zeros allowed). */
  function DigitsValue(s: string): nat
    requires AllDigits(s)
  {
    if s == [] then 0 else DigitsValue(s[..|s| - 1]) * 10 + (s[|s| - 1] as int - '0' as int)
  }

  /** `n.to_string()` for an unsigned integer. */
  function NatToString(n: nat): (r: string)
    decreases n
  {
    if n < 10 then [DigitChar(n)] else NatToString(n / 10) + [DigitChar(n % 10)]
  }

  /** Rust's `FromStr` for an unsigned integer type whose largest value is
      `max`: an optional `+`, then at least one decimal digit; a value above
      `max` is an overflow error. */
  function ParseUnsigned(s: string, max: nat): (r: Option<nat>)
    ensures r.Some? ==> r.value <= max
  {
    var t := if |s| > 0 && s[0] == '+' then s[1..] else s;
    if |t| > 0 && AllDigits(t) && DigitsValue(t) <= max then Some(DigitsValue(t)) else None
  }

  lemma {:induction false} NatToStringDigits(n: nat)
    ensures |NatToString(n)| >= 1 && AllDigits(NatToString(n))
    ensures DigitsValue(NatToString(n)) == n
    decreases n
  {
    if n >= 10 {
      NatToStringDigits(n / 10);
      var s := NatToString(n);
      assert s[..|s| - 1] == NatToString(n / 10);
    }
  }

  /** Printing a number and reading it back gives the number. */
  lemma ParseNatToString(n: nat, max: nat)
    requires n <= max
    ensures ParseUnsigned(NatToString(n), max) == Some(n)
  {
    NatToStringDigits(n);
  }

  // ---- white space ----

  /** `char::is_whitespace`: the Unicode White_Space property. */
  predicate IsWhitespace(c: char)
  {
    var n := c as int;
    (0x09 <= n <= 0x0D) || n == 0x20 || n == 0x85 || n == 0xA0 || n == 0x1680
    || (0x2000 <= n <= 0x200A) || n == 0x2028 || n == 0x2029 || n == 0x202F
    || n == 0x205F || n == 0x3000
  }

  /** `str::trim_end`: the longest prefix not ending in white space, after
      which only white space follows. */
  function TrimEnd(s: string): (r: string)
    ensures r <= s
    ensures r == [] || !IsWhitespace(r[|r| - 1])
    ensures forall i :: |r| <= i < |s| ==> IsWhitespace(s[i])
  {
    if s != [] && IsWhitespace(s[|s| - 1]) then TrimEnd(s[..|s| - 1]) else s
  }

  /** Text written after text: where the parts are grouped does not
      matter. */
  lemma AppendAssoc(a: string, b: string, c: string)
    ensures a + (b + c) == (a + b) + c
  {
  }
}
