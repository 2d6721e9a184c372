/** Message flags (RFC 9051 section 2.3.2): the system flags written with a
    backslash, the registered keywords written with a dollar sign, and any
    other keyword as itself. */
module ImapFlags {
  import opened Text
  import opened ImapProto

  datatype Flag =
    | Seen | Answered | Flagged | Deleted | Draft | Recent
    | Forwarded | MdnSent | Junk | NotJunk | Phishing
    | Keyword(keyword: string)

  /** The text of each flag that is not a keyword. */
  const KnownTexts: seq<string> := [
    "\\Seen", "\\Answered", "\\Flagged", "\\Deleted", "\\Draft", "\\Recent",
    "$Forwarded", "$MDNSent", "$Junk", "$NotJunk", "$Phishing"]

  /** `Display for Flag`. */
  function FlagText(f: Flag): string
  {
    match f
    case Seen => "\\Seen"
    case Answered => "\\Answered"
    case Flagged => "\\Flagged"
    case Deleted => "\\Deleted"
    case Draft => "\\Draft"
    case Recent => "\\Recent"
    case Forwarded => "$Forwarded"
    case MdnSent => "$MDNSent"
    case Junk => "$Junk"
    case NotJunk => "$NotJunk"
    case Phishing => "$Phishing"
    case Keyword(k) => k
  }

  /** `FromStr for Flag`: exact, case-sensitive match of the known texts;
      anything else is a keyword. It never fails. */
  function ParseFlag(s: string): Flag
  {
    if s == "\\Seen" then Seen
    else if s == "\\Answered" then Answered
    else if s == "\\Flagged" then Flagged
    else if s == "\\Deleted" then Deleted
    else if s == "\\Draft" then Draft
    else if s == "\\Recent" then Recent
    else if s == "$Forwarded" then Forwarded
    else if s == "$MDNSent" then MdnSent
    else if s == "$Junk" then Junk
    else if s == "$NotJunk" then NotJunk
    else if s == "$Phishing" then Phishing
    else Keyword(s)
  }

  /** Printing what was parsed gives back the text, for every text. */
  lemma FlagTextParseFlag(s: string)
    ensures FlagText(ParseFlag(s)) == s
  {
  }

  /** Every flag that is not a keyword spelled like a known flag is read back
      from its text. */
  lemma ParseFlagText(f: Flag)
    requires f.Keyword? ==> f.keyword !in KnownTexts
    ensures ParseFlag(FlagText(f)) == f
  {
  }

  /** A text parses as a keyword exactly when it is none of the known texts. */
  lemma ParseFlagKeyword(s: string)
    ensures ParseFlag(s).Keyword? <==> s !in KnownTexts
  {
  }

  /** `flags::Response`: `FLAGS` and the flags as a parenthesized list. */
  function FlagsResponse(flags: seq<Flag>): string
  {
    "FLAGS " + ParenList(seq(|flags|, i requires 0 <= i < |flags| => FlagText(flags[i])))
  }

  /** The printed response for some flags lists their texts in order. */
  lemma FlagsResponseExample()
    ensures FlagsResponse([Seen, Answered, Flagged, Deleted, Draft, Recent, Forwarded])
      == "FLAGS (\\Seen \\Answered \\Flagged \\Deleted \\Draft \\Recent $Forwarded)"
  {
    FlagTexts();
    SevenItems("FLAGS ", ["\\Seen", "\\Answered", "\\Flagged", "\\Deleted", "\\Draft", "\\Recent", "$Forwarded"]);
    FlagsHead();
    FlagsTail();
  }

  lemma FlagTexts()
    ensures FlagsResponse([Seen, Answered, Flagged, Deleted, Draft, Recent, Forwarded])
      == "FLAGS " + ParenList(["\\Seen", "\\Answered", "\\Flagged", "\\Deleted", "\\Draft", "\\Recent", "$Forwarded"])
  {
    var fs := [Seen, Answered, Flagged, Deleted, Draft, Recent, Forwarded];
    assert seq(|fs|, i requires 0 <= i < |fs| => FlagText(fs[i]))
      == ["\\Seen", "\\Answered", "\\Flagged", "\\Deleted", "\\Draft", "\\Recent", "$Forwarded"];
  }

  lemma FlagsHead()
    ensures "FLAGS " + "(" + "\\Seen" + " " + "\\Answered" + " " + "\\Flagged" + " " == "FLAGS (\\Seen \\Answered \\Flagged "
  {
    assert "FLAGS " + "(" + "\\Seen" + " " == "FLAGS (\\Seen ";
    assert "FLAGS (\\Seen " + "\\Answered" + " " == "FLAGS (\\Seen \\Answered ";
  }

  lemma FlagsTail()
    ensures "FLAGS (\\Seen \\Answered \\Flagged " + "\\Deleted" + " " + "\\Draft" + " " + "\\Recent" + " " + "$Forwarded" + ")"
      == "FLAGS (\\Seen \\Answered \\Flagged \\Deleted \\Draft \\Recent $Forwarded)"
  {
    assert "FLAGS (\\Seen \\Answered \\Flagged " + "\\Deleted" + " " == "FLAGS (\\Seen \\Answered \\Flagged \\Deleted ";
    assert "FLAGS (\\Seen \\Answered \\Flagged \\Deleted " + "\\Draft" + " "
      == "FLAGS (\\Seen \\Answered \\Flagged \\Deleted \\Draft ";
    assert "FLAGS (\\Seen \\Answered \\Flagged \\Deleted \\Draft " + "\\Recent" + " "
      == "FLAGS (\\Seen \\Answered \\Flagged \\Deleted \\Draft \\Recent ";
  }

  /** A list of seven items after a prefix, written out. */
  lemma SevenItems(p: string, ts: seq<string>)
    requires |ts| == 7
    ensures p + ParenList(ts)
      == p + "(" + ts[0] + " " + ts[1] + " " + ts[2] + " " + ts[3] + " " + ts[4] + " " + ts[5] + " " + ts[6] + ")"
  {
    assert Join(ts[..1], " ") == ts[0];
    JoinPrefixStep(ts, 1, " ");
    JoinPrefixStep(ts, 2, " ");
    JoinPrefixStep(ts, 3, " ");
    JoinPrefixStep(ts, 4, " ");
    JoinPrefixStep(ts, 5, " ");
    JoinPrefixStep(ts, 6, " ");
    assert ts[..7] == ts;
  }
}
