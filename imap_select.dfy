/** The response to `SELECT` and `EXAMINE` (RFC 9051 section 6.3.2): the
    flags, the message count, the UID validity, the next UID and the LIST
    line of the mailbox, then the tagged completion. */
module ImapSelect {
  import opened Text
  import opened Wrappers
  import opened ImapProto
  import opened ImapFlags
  import opened ImapList

  type U32 = n: nat | n <= U32_MAX

  datatype SelectResponse = SelectResponse(
    flags: seq<Flag>,
    existing: U32,
    uidValidity: U32,
    nextUid: Uid,
    mailbox: ListItem,
    tag: Tag,
    readOnly: bool)

  function AccessText(readOnly: bool): string
  {
    if readOnly then "READ-ONLY" else "READ-WRITE"
  }

  /** A line of the response: its text, then CRLF. */
  function CrLf(text: string): string
  {
    text + "\r\n"
  }

  /** An untagged line: `* `, its text, CRLF. */
  function UntaggedLine(text: string): string
  {
    CrLf("* " + text)
  }

  /** The tagged completion: `<tag> OK [READ-ONLY|READ-WRITE] Done`. */
  function CompletionLine(tag: Tag, readOnly: bool): string
  {
    CrLf(tag + " OK [" + AccessText(readOnly) + "] Done")
  }

  /** The six lines of the response, in the order written. The EXISTS line
      is `exists::Response`, inlined. */
  function SelectLines(r: SelectResponse): seq<string>
  {
    [ UntaggedLine(FlagsResponse(r.flags)),
      UntaggedLine(NatToString(r.existing) + " EXISTS"),
      UntaggedLine("OK [UIDVALIDITY " + NatToString(r.uidValidity) + "] UIDs valid"),
      UntaggedLine("OK [UIDNEXT " + NatToString(r.nextUid) + "] Predicted next UID"),
      ListItemText(r.mailbox),
      CompletionLine(r.tag, r.readOnly) ]
  }

  /** `Display for select::Response`. */
  function SelectText(r: SelectResponse): string
  {
    Concat(SelectLines(r))
  }

  /** A line that ends in CRLF. */
  predicate EndsCrLf(s: string)
  {
    |s| >= 2 && s[|s| - 2..] == "\r\n"
  }

  /** A line that starts as an untagged response, `* `. */
  predicate StartsStar(s: string)
  {
    |s| >= 2 && s[..2] == "* "
  }

  /** Six CRLF-terminated lines; the first five are untagged (`* `) and the
      last is the tagged OK. */
  lemma SelectShape(r: SelectResponse)
    ensures var ls := SelectLines(r);
      |ls| == 6 &&
      (forall i :: 0 <= i < 6 ==> EndsCrLf(ls[i])) &&
      (forall i :: 0 <= i < 5 ==> StartsStar(ls[i])) &&
      ls[5] == CompletionLine(r.tag, r.readOnly)
  {
    ListItemLine(r.mailbox);
    StarPrefix(ListItemText(r.mailbox), 7);
    LinesShape(FlagsResponse(r.flags), NatToString(r.existing) + " EXISTS",
      "OK [UIDVALIDITY " + NatToString(r.uidValidity) + "] UIDs valid",
      "OK [UIDNEXT " + NatToString(r.nextUid) + "] Predicted next UID",
      ListItemText(r.mailbox), r.tag + " OK [" + AccessText(r.readOnly) + "] Done");
  }

  lemma LinesShape(a: string, b: string, c: string, d: string, item: string, done: string)
    requires EndsCrLf(item) && StartsStar(item)
    ensures var ls := [UntaggedLine(a), UntaggedLine(b), UntaggedLine(c), UntaggedLine(d), item, CrLf(done)];
      (forall i :: 0 <= i < 6 ==> EndsCrLf(ls[i])) &&
      (forall i :: 0 <= i < 5 ==> StartsStar(ls[i]))
  {
    UntaggedShape(a);
    UntaggedShape(b);
    UntaggedShape(c);
    UntaggedShape(d);
    CrLfEnds(done);
  }

  lemma CrLfEnds(text: string)
    ensures EndsCrLf(CrLf(text))
  {
    var s := CrLf(text);
    assert s[|s| - 2..] == "\r\n";
  }

  /** Every untagged line starts `* ` and ends in CRLF. */
  lemma UntaggedShape(text: string)
    ensures StartsStar(UntaggedLine(text)) && EndsCrLf(UntaggedLine(text))
    ensures UntaggedLine(text)[2..|UntaggedLine(text)| - 2] == text
  {
    var s := UntaggedLine(text);
    CrLfEnds("* " + text);
    assert s[..2] == "* ";
    assert s[2..|s| - 2] == text;
  }

  lemma StarPrefix(s: string, n: nat)
    requires 2 <= n <= |s| && s[..n][..2] == "* "
    ensures StartsStar(s)
  {
    assert s[..n][..2] == s[..2];
  }

  /** The tagged line says READ-ONLY exactly when the mailbox is read-only,
      and READ-WRITE otherwise. */
  lemma AccessLine(tag: Tag, readOnly: bool)
    ensures CompletionLine(tag, readOnly) == CrLf(tag + " OK [READ-ONLY] Done") <==> readOnly
    ensures CompletionLine(tag, readOnly) == CrLf(tag + " OK [READ-WRITE] Done") <==> !readOnly
  {
    var p, q := " OK [", "] Done";
    assert p + "READ-ONLY" + q == " OK [READ-ONLY] Done";
    assert p + "READ-WRITE" + q == " OK [READ-WRITE] Done";
    Regroup4(tag, p, "READ-ONLY", q);
    Regroup4(tag, p, "READ-WRITE", q);
    AccessDiffer(tag + p, q);
    CrLfInjective(tag + p + "READ-ONLY" + q, tag + p + "READ-WRITE" + q);
  }

  lemma Regroup4(a: string, b: string, c: string, d: string)
    ensures a + b + c + d == a + (b + c + d)
  {
  }

  lemma CrLfInjective(a: string, b: string)
    ensures CrLf(a) == CrLf(b) ==> a == b
  {
    if CrLf(a) == CrLf(b) {
      assert a == CrLf(a)[..|a|];
      assert b == CrLf(b)[..|b|];
    }
  }

  lemma AccessDiffer(p: string, q: string)
    ensures p + "READ-ONLY" + q != p + "READ-WRITE" + q
  {
    assert (p + "READ-ONLY" + q)[|p| + 5] == 'O';
    assert (p + "READ-WRITE" + q)[|p| + 5] == 'W';
  }

  /** The UIDVALIDITY value is written in decimal and read back from its
      line. */
  lemma UidValidityReadBack(r: SelectResponse)
    ensures var l := SelectLines(r)[2];
      |l| >= 33 &&
      var t := l[18..|l| - 14];
      l == UntaggedLine("OK [UIDVALIDITY " + t + "] UIDs valid") && ParseUnsigned(t, U32_MAX) == Some(r.uidValidity as nat)
  {
    var p, q := "OK [UIDVALIDITY ", "] UIDs valid";
    assert |p| == 16 && |q| == 12;
    assert SelectLines(r)[2] == UntaggedLine(p + NatToString(r.uidValidity) + q);
    NumberInLine(p, r.uidValidity, q, U32_MAX);
  }

  /** The UIDNEXT value is written in decimal and read back from its line. */
  lemma UidNextReadBack(r: SelectResponse)
    ensures var l := SelectLines(r)[3];
      |l| >= 37 &&
      var t := l[14..|l| - 22];
      l == UntaggedLine("OK [UIDNEXT " + t + "] Predicted next UID") && ParseUnsigned(t, U32_MAX) == Some(r.nextUid as nat)
  {
    var p, q := "OK [UIDNEXT ", "] Predicted next UID";
    assert |p| == 12 && |q| == 20;
    assert SelectLines(r)[3] == UntaggedLine(p + NatToString(r.nextUid) + q);
    NumberInLine(p, r.nextUid, q, U32_MAX);
  }

  /** A number between a head and a tail on an untagged line is read back
      from between them. */
  lemma NumberInLine(p: string, n: nat, q: string, max: nat)
    requires n <= max
    ensures var l := UntaggedLine(p + NatToString(n) + q);
      |l| >= |p| + |q| + 5 &&
      var t := l[|p| + 2..|l| - |q| - 2];
      l == UntaggedLine(p + t + q) && ParseUnsigned(t, max) == Some(n)
  {
    var v := NatToString(n);
    var l := UntaggedLine(p + v + q);
    var h := "* " + p;
    var e := q + "\r\n";
    assert l == h + v + e by {
      Regroup("* ", p, v, q, "\r\n");
    }
    NatToStringDigits(n);
    assert l[|h|..|l| - |e|] == v;
    ParseNatToString(n, max);
  }

  lemma Regroup(a: string, b: string, c: string, d: string, e: string)
    ensures a + (b + c + d) + e == (a + b) + c + (d + e)
  {
  }
}
