/** Sequence sets (RFC 9051 section 9, `sequence-set`): comma-separated
    numbers and ranges whose bounds are nonzero 32-bit numbers or `*`. */
module ImapSequence {
  import opened Text
  import opened Nom

  type NonZeroU32 = n: nat | 1 <= n <= U32_MAX witness 1

  datatype Bound = Inclusive(n: NonZeroU32) | Unbounded

  /** A range is kept exactly as written: no reordering of its bounds. */
  datatype SequenceRange = SequenceRange(lower: Bound, upper: Bound)

  /** The ranges in the order written, overlaps and repeats included. */
  datatype SequenceSet = SequenceSet(ranges: seq<SequenceRange>)

  // ---- Display ----

  function BoundText(b: Bound): string
  {
    match b
    case Inclusive(n) => NatToString(n)
    case Unbounded => "*"
  }

  /** A range with equal bounds prints as that one bound. */
  function RangeText(r: SequenceRange): string
  {
    if r.lower == r.upper then BoundText(r.lower)
    else BoundText(r.lower) + ":" + BoundText(r.upper)
  }

  function RangeTexts(rs: seq<SequenceRange>): (ts: seq<string>)
    ensures |ts| == |rs| && forall i :: 0 <= i < |rs| ==> ts[i] == RangeText(rs[i])
  {
    if rs == [] then [] else [RangeText(rs[0])] + RangeTexts(rs[1..])
  }

  function SetText(s: SequenceSet): string
  {
    Join(RangeTexts(s.ranges), ",")
  }

  /** `Display for SequenceSet`: each range, then a comma if another range
      follows. */
  method FmtSequenceSet(s: SequenceSet) returns (out: string)
    ensures out == SetText(s)
  {
    var texts := RangeTexts(s.ranges);
    out := "";
    var i := 0;
    while i < |s.ranges|
      invariant 0 <= i <= |s.ranges|
      invariant out == Join(texts[..i], ",") + (if 0 < i < |s.ranges| then "," else "")
    {
      JoinPrefixStep(texts, i, ",");
      out := out + RangeText(s.ranges[i]);
      assert out == Join(texts[..i + 1], ",");
      if i + 1 < |s.ranges| {
        out := out + ",";
      }
      i := i + 1;
    }
    assert texts[..i] == texts;
  }

  // ---- parsing ----

  /** `digit1`: one or more ASCII digits. */
  function Digit1(s: string): (r: Parsed<string>)
    ensures r.Done? ==> |r.value| >= 1 && AllDigits(r.value) && s == r.value + r.rest
    ensures r.Done? ==> r.rest == [] || !IsDigit(r.rest[0])
    ensures r.Fail? <==> s == [] || !IsDigit(s[0])
  {
    var k := SpanLength(s, IsDigit);
    if k == 0 then Fail else
      assert s == s[..k] + s[k..];
      Done(s[k..], s[..k])
  }

  /** `parse_nz_u32`: digits whose value is a nonzero `u32`; `0`, `00` and
      values above 4294967295 fail. */
  function ParseNzU32(s: string): (r: Parsed<NonZeroU32>)
    ensures r.Done? ==> |r.rest| < |s|
  {
    match Digit1(s)
    case Fail => Fail
    case Done(rest, digits) =>
      match ParseUnsigned(digits, U32_MAX)
      case None => Fail
      case Some(v) => if v == 0 then Fail else Done(rest, v)
  }

  /** `Bound::parse`: a nonzero number, else `*`. */
  function ParseBound(s: string): (r: Parsed<Bound>)
    ensures r.Done? ==> |r.rest| < |s|
  {
    match ParseNzU32(s)
    case Done(rest, n) => Done(rest, Inclusive(n))
    case Fail => if |s| > 0 && s[0] == '*' then Done(s[1..], Unbounded) else Fail
  }

  /** `parse_range`: `bound:bound`. */
  function ParseRange(s: string): (r: Parsed<SequenceRange>)
    ensures r.Done? ==> |r.rest| < |s|
  {
    match ParseBound(s)
    case Fail => Fail
    case Done(r1, lo) =>
      if |r1| > 0 && r1[0] == ':' then
        match ParseBound(r1[1..])
        case Fail => Fail
        case Done(r2, hi) => Done(r2, SequenceRange(lo, hi))
      else Fail
  }

  /** `SequenceRange::parse` as written: a range, else a single number n
      stored as n:n. A lone `*` is not accepted. */
  function ParseElement(s: string): (r: Parsed<SequenceRange>)
    ensures r.Done? ==> |r.rest| < |s|
  {
    match ParseRange(s)
    case Done(rest, v) => Done(rest, v)
    case Fail =>
      match ParseNzU32(s)
      case Done(rest, n) => Done(rest, SequenceRange(Inclusive(n), Inclusive(n)))
      case Fail => Fail
  }

  /** A range, else a single bound b stored as b:b, so `*` is `*:*` as the
      `seq-number` rule of RFC 9051 allows. */
  function ParseElementFixed(s: string): (r: Parsed<SequenceRange>)
    ensures r.Done? ==> |r.rest| < |s|
  {
    match ParseRange(s)
    case Done(rest, v) => Done(rest, v)
    case Fail =>
      match ParseBound(s)
      case Done(rest, b) => Done(rest, SequenceRange(b, b))
      case Fail => Fail
  }

  function Element(s: string, fixed: bool): (r: Parsed<SequenceRange>)
    ensures r.Done? ==> |r.rest| < |s|
  {
    if fixed then ParseElementFixed(s) else ParseElement(s)
  }

  /** The `separated_list0` loop after an element: a comma followed by an
      element continues the list; otherwise the list ends before the comma. */
  function MoreElements(s: string, fixed: bool): (r: (string, seq<SequenceRange>))
    ensures |r.0| <= |s|
    decreases |s|
  {
    if |s| > 0 && s[0] == ',' then
      match Element(s[1..], fixed)
      case Fail => (s, [])
      case Done(rest, v) =>
        var (tail, vs) := MoreElements(rest, fixed);
        (tail, [v] + vs)
    else (s, [])
  }

  function ParseSetWith(s: string, fixed: bool): (r: Parsed<SequenceSet>)
    ensures r.Done? && |r.rest| <= |s|
  {
    match Element(s, fixed)
    case Fail => Done(s, SequenceSet([]))
    case Done(rest, v) =>
      var (tail, vs) := MoreElements(rest, fixed);
      Done(tail, SequenceSet([v] + vs))
  }

  /** `SequenceSet::parse` as written. It never fails: text that does not
      start an element is an empty set. */
  function ParseSet(s: string): Parsed<SequenceSet>
  {
    ParseSetWith(s, false)
  }

  /** The set parser with `*` accepted as an element. */
  function ParseSetFixed(s: string): Parsed<SequenceSet>
  {
    ParseSetWith(s, true)
  }

  // ---- properties ----

  /** What can follow a printed set without being read as part of it. */
  predicate Boundary(rest: string)
  {
    rest == [] || !(IsDigit(rest[0]) || rest[0] == ':' || rest[0] == ',' || rest[0] == '*')
  }

  lemma ParseNzU32Text(n: NonZeroU32, rest: string)
    requires rest == [] || !IsDigit(rest[0])
    ensures ParseNzU32(NatToString(n) + rest) == Done(rest, n)
  {
    NatToStringDigits(n);
    var t := NatToString(n);
    SpanLengthAppend(t, rest, IsDigit);
    assert (t + rest)[..|t|] == t && (t + rest)[|t|..] == rest;
    ParseNatToString(n, U32_MAX);
  }

  lemma ParseBoundText(b: Bound, rest: string)
    requires rest == [] || !IsDigit(rest[0])
    ensures ParseBound(BoundText(b) + rest) == Done(rest, b)
  {
    match b
    case Inclusive(n) => ParseNzU32Text(n, rest);
    case Unbounded =>
      assert ("*" + rest)[1..] == rest;
  }

  /** Zero and numbers above the `u32` range are not bounds. */
  lemma ParseBoundRejects(s: string, rest: string)
    requires AllDigits(s) && |s| >= 1 && (DigitsValue(s) == 0 || DigitsValue(s) > U32_MAX)
    requires rest == [] || !IsDigit(rest[0])
    ensures ParseBound(s + rest) == Fail
  {
    SpanLengthAppend(s, rest, IsDigit);
    assert (s + rest)[..|s|] == s;
  }

  /** What can follow a printed element without being read as part of it. */
  predicate ElementBoundary(rest: string)
  {
    rest == [] || !(IsDigit(rest[0]) || rest[0] == ':')
  }

  /** The element printed for a range is read back, whichever parser is
      used, unless it is `*:*` and the parser is the one as written. */
  lemma ElementText(r: SequenceRange, rest: string, fixed: bool)
    requires ElementBoundary(rest)
    requires !fixed ==> r != SequenceRange(Unbounded, Unbounded)
    ensures Element(RangeText(r) + rest, fixed) == Done(rest, r)
  {
    if r.lower == r.upper {
      SingleText(r.lower, rest, fixed);
    } else {
      PairText(r, rest);
    }
  }

  lemma SingleText(b: Bound, rest: string, fixed: bool)
    requires ElementBoundary(rest)
    requires !fixed ==> b != Unbounded
    ensures Element(BoundText(b) + rest, fixed) == Done(rest, SequenceRange(b, b))
  {
    ParseBoundText(b, rest);
    match b
    case Inclusive(n) => ParseNzU32Text(n, rest);
    case Unbounded =>
  }

  lemma PairText(r: SequenceRange, rest: string)
    requires r.lower != r.upper
    requires ElementBoundary(rest)
    ensures Element(RangeText(r) + rest, true) == Done(rest, r)
    ensures Element(RangeText(r) + rest, false) == Done(rest, r)
  {
    RangeTextParse(r, rest);
  }

  /** A printed range `lo:hi` is read back by the range parser. */
  lemma RangeTextParse(r: SequenceRange, rest: string)
    requires r.lower != r.upper
    requires ElementBoundary(rest)
    ensures ParseRange(RangeText(r) + rest) == Done(rest, r)
  {
    var x := ":" + BoundText(r.upper) + rest;
    RangeTextShape(r, rest);
    ParseBoundText(r.lower, x);
    ParseBoundText(r.upper, rest);
    ParseRangeStep(RangeText(r) + rest, x, r.lower, rest, r.upper);
  }

  lemma RangeTextShape(r: SequenceRange, rest: string)
    requires r.lower != r.upper
    ensures var x := ":" + BoundText(r.upper) + rest;
      RangeText(r) + rest == BoundText(r.lower) + x && x[1..] == BoundText(r.upper) + rest
  {
  }

  lemma ParseRangeStep(s: string, r1: string, lo: Bound, r2: string, hi: Bound)
    requires ParseBound(s) == Done(r1, lo) && |r1| > 0 && r1[0] == ':'
    requires ParseBound(r1[1..]) == Done(r2, hi)
    ensures ParseRange(s) == Done(r2, SequenceRange(lo, hi))
  {
  }

  lemma {:induction false} MoreElementsText(rs: seq<SequenceRange>, rest: string, fixed: bool)
    requires Boundary(rest)
    requires !fixed ==> forall i :: 0 <= i < |rs| ==> rs[i] != SequenceRange(Unbounded, Unbounded)
    ensures MoreElements(Suffixed(rs) + rest, fixed) == (rest, rs)
    decreases |rs|
  {
    if rs == [] {
      assert Suffixed(rs) + rest == rest;
    } else {
      MoreElementsText(rs[1..], rest, fixed);
      MoreElementsCons(rs, rest, fixed);
      assert [rs[0]] + rs[1..] == rs;
    }
  }

  /** One round of the list loop over printed text: the comma, the first
      range, then whatever the loop makes of the rest. */
  lemma MoreElementsCons(rs: seq<SequenceRange>, rest: string, fixed: bool)
    requires |rs| > 0 && Boundary(rest)
    requires !fixed ==> rs[0] != SequenceRange(Unbounded, Unbounded)
    ensures var m := MoreElements(Suffixed(rs[1..]) + rest, fixed);
      MoreElements(Suffixed(rs) + rest, fixed) == (m.0, [rs[0]] + m.1)
  {
    var t := Suffixed(rs[1..]) + rest;
    var s := Suffixed(rs) + rest;
    SuffixedCons(rs, rest);
    ElementText(rs[0], t, fixed);
    MoreElementsStep(s, fixed, t, rs[0]);
  }

  /** The comma-prefixed text of a nonempty list: a comma, the first range,
      then text that ends the element. */
  lemma SuffixedCons(rs: seq<SequenceRange>, rest: string)
    requires |rs| > 0 && Boundary(rest)
    ensures var t := Suffixed(rs[1..]) + rest;
      |Suffixed(rs) + rest| > 0 && (Suffixed(rs) + rest)[0] == ','
      && (Suffixed(rs) + rest)[1..] == RangeText(rs[0]) + t
      && ElementBoundary(t)
  {
    assert Suffixed(rs) == "," + RangeText(rs[0]) + Suffixed(rs[1..]);
    CommaFirst(RangeText(rs[0]), Suffixed(rs[1..]), rest);
    BoundaryAfter(rs[1..], rest);
  }

  lemma CommaFirst(a: string, b: string, c: string)
    ensures var x := "," + a + b + c; |x| > 0 && x[0] == ',' && x[1..] == a + (b + c)
  {
  }

  lemma BoundaryAfter(rs: seq<SequenceRange>, rest: string)
    requires Boundary(rest)
    ensures ElementBoundary(Suffixed(rs) + rest)
  {
    if rs != [] {
      assert (Suffixed(rs) + rest)[0] == ',';
    }
  }

  /** One round of the list loop: a comma and an element, then the rest. */
  lemma MoreElementsStep(s: string, fixed: bool, t: string, v: SequenceRange)
    requires |s| > 0 && s[0] == ',' && Element(s[1..], fixed) == Done(t, v)
    ensures MoreElements(s, fixed) == (MoreElements(t, fixed).0, [v] + MoreElements(t, fixed).1)
  {
  }

  /** The first element, then the list loop. */
  lemma ParseSetStep(s: string, fixed: bool, t: string, v: SequenceRange)
    requires Element(s, fixed) == Done(t, v)
    ensures ParseSetWith(s, fixed) == Done(MoreElements(t, fixed).0, SequenceSet([v] + MoreElements(t, fixed).1))
  {
  }

  /** Each range preceded by a comma. */
  function Suffixed(rs: seq<SequenceRange>): string
  {
    if rs == [] then "" else "," + RangeText(rs[0]) + Suffixed(rs[1..])
  }

  lemma SetTextShape(rs: seq<SequenceRange>, rest: string)
    requires |rs| >= 1
    ensures SetText(SequenceSet(rs)) + rest == RangeText(rs[0]) + (Suffixed(rs[1..]) + rest)
  {
    JoinSuffixed(rs);
    AppendAssoc(RangeText(rs[0]), Suffixed(rs[1..]), rest);
  }

  lemma {:induction false} JoinSuffixed(rs: seq<SequenceRange>)
    requires |rs| >= 1
    ensures SetText(SequenceSet(rs)) == RangeText(rs[0]) + Suffixed(rs[1..])
  {
    if |rs| > 1 {
      JoinSuffixed(rs[1..]);
      assert RangeTexts(rs)[1..] == RangeTexts(rs[1..]);
    }
  }

  /** Display-then-parse gives the same set for the corrected parser, for
      every set. */
  lemma ParseSetFixedText(s: SequenceSet, rest: string)
    requires Boundary(rest)
    ensures ParseSetFixed(SetText(s) + rest) == Done(rest, s)
  {
    ParseSetText(s, rest, true);
  }

  /** No range is `*:*`, the one range the parser as written cannot read
      back. */
  predicate NoLoneStar(s: SequenceSet)
  {
    forall i :: 0 <= i < |s.ranges| ==> s.ranges[i] != SequenceRange(Unbounded, Unbounded)
  }

  /** Display-then-parse gives the same set for the parser as written, as
      long as no range is `*:*`. */
  lemma ParseSetTextAsWritten(s: SequenceSet, rest: string)
    requires Boundary(rest)
    requires NoLoneStar(s)
    ensures ParseSet(SetText(s) + rest) == Done(rest, s)
  {
    ParseSetText(s, rest, false);
  }

  lemma ParseSetText(s: SequenceSet, rest: string, fixed: bool)
    requires Boundary(rest)
    requires !fixed ==> forall i :: 0 <= i < |s.ranges| ==> s.ranges[i] != SequenceRange(Unbounded, Unbounded)
    ensures ParseSetWith(SetText(s) + rest, fixed) == Done(rest, s)
  {
    var rs := s.ranges;
    if rs == [] {
      assert SetText(s) + rest == rest;
      assert Element(rest, fixed).Fail? by {
        if rest != [] {
          assert ParseNzU32(rest).Fail?;
          assert ParseBound(rest).Fail?;
        }
      }
    } else {
      MoreElementsText(rs[1..], rest, fixed);
      ParseSetCons(rs, rest, fixed);
      assert [rs[0]] + rs[1..] == rs;
    }
  }

  /** The first printed range, then the list loop over the rest. */
  lemma ParseSetCons(rs: seq<SequenceRange>, rest: string, fixed: bool)
    requires |rs| > 0 && Boundary(rest)
    requires !fixed ==> rs[0] != SequenceRange(Unbounded, Unbounded)
    ensures var m := MoreElements(Suffixed(rs[1..]) + rest, fixed);
      ParseSetWith(SetText(SequenceSet(rs)) + rest, fixed) == Done(m.0, SequenceSet([rs[0]] + m.1))
  {
    var t := Suffixed(rs[1..]) + rest;
    SetTextShape(rs, rest);
    BoundaryAfter(rs[1..], rest);
    ElementText(rs[0], t, fixed);
    ParseSetStep(SetText(SequenceSet(rs)) + rest, fixed, t, rs[0]);
  }

  /** As written, a `*` that does not open a range starts no element: the
      set read is empty and nothing is consumed. */
  lemma StarNotRead(s: string)
    requires |s| > 0 && s[0] == '*' && (|s| == 1 || s[1] != ':')
    ensures ParseSet(s) == Done(s, SequenceSet([]))
  {
    assert ParseNzU32(s).Fail?;
    assert ParseRange(s).Fail?;
  }

  /** The set `*` prints as `*`, which the parser as written reads as an
      empty set, leaving the `*` unread. */
  lemma LoneStarRejected()
    ensures SetText(SequenceSet([SequenceRange(Unbounded, Unbounded)])) == "*"
    ensures ParseSet("*") == Done("*", SequenceSet([]))
    ensures ParseSetFixed("*") == Done("", SequenceSet([SequenceRange(Unbounded, Unbounded)]))
  {
    assert ParseNzU32("*").Fail?;
    assert ParseBound("*") == Done("", Unbounded);
    assert ParseRange("*").Fail?;
    assert Element("*", true) == Done("", SequenceRange(Unbounded, Unbounded));
    assert MoreElements("", true) == ("", []);
    ParseSetStep("*", true, "", SequenceRange(Unbounded, Unbounded));
    assert [SequenceRange(Unbounded, Unbounded)] + [] == [SequenceRange(Unbounded, Unbounded)];
  }

  /** Ranges keep their order and bounds as written: `3:1` stays `3:1`. */
  lemma RangeKeptAsWritten()
    ensures ParseSet("3:1,1:3") == Done("", SequenceSet([
      SequenceRange(Inclusive(3), Inclusive(1)), SequenceRange(Inclusive(1), Inclusive(3))]))
  {
    var s := SequenceSet([SequenceRange(Inclusive(3), Inclusive(1)), SequenceRange(Inclusive(1), Inclusive(3))]);
    assert NatToString(1) == "1" && NatToString(3) == "3";
    assert RangeText(s.ranges[0]) == "3:1";
    assert RangeText(s.ranges[1]) == "1:3";
    assert RangeTexts(s.ranges) == ["3:1", "1:3"];
    assert SetText(s) == "3:1,1:3";
    ParseSetTextAsWritten(s, "");
    assert "3:1,1:3" + "" == "3:1,1:3";
  }

  /** The set `1:3,5,6:*` prints back as written. */
  lemma Example()
    ensures var s := SequenceSet([SequenceRange(Inclusive(1), Inclusive(3)),
      SequenceRange(Inclusive(5), Inclusive(5)), SequenceRange(Inclusive(6), Unbounded)]);
      ParseSet("1:3,5,6:*") == Done("", s) && SetText(s) == "1:3,5,6:*"
  {
    var s := SequenceSet([SequenceRange(Inclusive(1), Inclusive(3)),
      SequenceRange(Inclusive(5), Inclusive(5)), SequenceRange(Inclusive(6), Unbounded)]);
    assert NatToString(1) == "1" && NatToString(3) == "3";
    assert NatToString(5) == "5" && NatToString(6) == "6";
    assert RangeText(s.ranges[0]) == "1:3";
    assert RangeText(s.ranges[1]) == "5";
    assert RangeText(s.ranges[2]) == "6:*";
    assert RangeTexts(s.ranges) == ["1:3", "5", "6:*"];
    JoinCons("5", ["6:*"], ",");
    JoinCons("1:3", ["5", "6:*"], ",");
    assert SetText(s) == "1:3,5,6:*";
    ParseSetTextAsWritten(s, "");
    assert "1:3,5,6:*" + "" == "1:3,5,6:*";
  }
}
