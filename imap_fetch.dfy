/** The data items of `FETCH` (RFC 9051 section 6.4.5): a macro (`ALL`,
    `FAST`, `FULL`), a parenthesized list of attributes or one bare
    attribute. */
module ImapFetch {
  import opened Text
  import opened Wrappers
  import opened Nom

  datatype Attribute = Flags | Internaldate | Rfc822Size | Envelope | Body

  /** The name of each attribute on the wire. */
  function AttributeName(a: Attribute): string
  {
    match a
    case Flags => "FLAGS"
    case Internaldate => "INTERNALDATE"
    case Rfc822Size => "RFC822.SIZE"
    case Envelope => "ENVELOPE"
    case Body => "BODY"
  }

  /** `FromStr for Attribute`: an exact, case-sensitive match. */
  function ParseAttributeName(s: string): Option<Attribute>
  {
    if s == "FLAGS" then Some(Flags)
    else if s == "INTERNALDATE" then Some(Internaldate)
    else if s == "RFC822.SIZE" then Some(Rfc822Size)
    else if s == "ENVELOPE" then Some(Envelope)
    else if s == "BODY" then Some(Body)
    else None
  }

  /** A name is accepted exactly when it is the name of the attribute it
      yields; every other text (other spellings or cases) fails. */
  lemma ParseAttributeNameIff(s: string, a: Attribute)
    ensures ParseAttributeName(s) == Some(a) <==> s == AttributeName(a)
  {
  }

  datatype Items = All | Fast | Full | Attributes(attributes: seq<Attribute>)

  /** `Items::attributes`: what each macro stands for, or the list as
      given. */
  function ItemsAttributes(items: Items): seq<Attribute>
  {
    match items
    case All => [Flags, Internaldate, Rfc822Size, Envelope]
    case Fast => [Flags, Internaldate, Rfc822Size]
    case Full => [Flags, Internaldate, Rfc822Size, Envelope, Body]
    case Attributes(v) => v
  }

  /** FAST is ALL without ENVELOPE, FULL is ALL with BODY, and a list stands
      for itself, unchanged and in order. */
  lemma MacroRelations(v: seq<Attribute>)
    ensures ItemsAttributes(All) == ItemsAttributes(Fast) + [Envelope]
    ensures ItemsAttributes(Full) == ItemsAttributes(All) + [Body]
    ensures ItemsAttributes(Attributes(v)) == v
  {
  }

  predicate AttributeChar(c: char) { c != ' ' && c != ')' }

  /** `parse_attribute`: the longest nonempty run of characters other than
      space and `)`, which must name an attribute. */
  function ParseAttribute(s: string): (r: Parsed<Attribute>)
    ensures r.Done? ==> |r.rest| < |s|
  {
    var k := SpanLength(s, AttributeChar);
    if k == 0 then Fail
    else
      match ParseAttributeName(s[..k])
      case None => Fail
      case Some(a) => Done(s[k..], a)
  }

  /** The loop of `separated_list1(char(' '), parse_attribute)` after the
      first attribute: a space and an attribute continue it, anything else
      ends it before the space. */
  function MoreAttributes(s: string): (r: (string, seq<Attribute>))
    ensures |r.0| <= |s|
    decreases |s|
  {
    if |s| > 0 && s[0] == ' ' then
      match ParseAttribute(s[1..])
      case Fail => (s, [])
      case Done(rest, a) =>
        var (tail, more) := MoreAttributes(rest);
        (tail, [a] + more)
    else (s, [])
  }

  /** `(`, one or more attributes separated by single spaces, `)`. */
  function ParseList(s: string): (r: Parsed<seq<Attribute>>)
  {
    if |s| == 0 || s[0] != '(' then Fail
    else
      match ParseAttribute(s[1..])
      case Fail => Fail
      case Done(r1, a) =>
        var (r2, more) := MoreAttributes(r1);
        if |r2| > 0 && r2[0] == ')' then Done(r2[1..], [a] + more) else Fail
  }

  /** `Items::parse`: the alternatives are tried in order; the macros are
      prefix matches. */
  function ParseItems(s: string): Parsed<Items>
  {
    if "ALL" <= s then Done(s[3..], All)
    else if "FAST" <= s then Done(s[4..], Fast)
    else if "FULL" <= s then Done(s[4..], Full)
    else
      match ParseList(s)
      case Done(rest, v) => Done(rest, Attributes(v))
      case Fail =>
        match ParseAttribute(s)
        case Done(rest, a) => Done(rest, Attributes([a]))
        case Fail => Fail
  }

  // ---- properties ----

  /** The names of some attributes. */
  function AttributeNames(v: seq<Attribute>): (ns: seq<string>)
    ensures |ns| == |v| && forall i :: 0 <= i < |v| ==> ns[i] == AttributeName(v[i])
  {
    seq(|v|, i requires 0 <= i < |v| => AttributeName(v[i]))
  }

  /** What can follow an attribute name without being read as part of it. */
  predicate EndsName(rest: string)
  {
    rest == [] || !AttributeChar(rest[0])
  }

  lemma ParseAttributeText(a: Attribute, rest: string)
    requires EndsName(rest)
    ensures ParseAttribute(AttributeName(a) + rest) == Done(rest, a)
  {
    var n := AttributeName(a);
    assert ' ' !in n && ')' !in n;
    assert forall i :: 0 <= i < |n| ==> AttributeChar(n[i]);
    SpanLengthAppend(n, rest, AttributeChar);
    assert (n + rest)[..|n|] == n && (n + rest)[|n|..] == rest;
  }

  /** Each attribute preceded by a space. */
  function Spaced(v: seq<Attribute>): string
  {
    if v == [] then "" else " " + AttributeName(v[0]) + Spaced(v[1..])
  }

  lemma {:induction false} MoreAttributesText(v: seq<Attribute>, rest: string)
    requires EndsName(rest) && (rest == [] || rest[0] != ' ')
    ensures MoreAttributes(Spaced(v) + rest) == (rest, v)
    decreases |v|
  {
    if v == [] {
      assert Spaced(v) + rest == rest;
    } else {
      MoreAttributesText(v[1..], rest);
      MoreAttributesCons(v, rest);
      assert [v[0]] + v[1..] == v;
    }
  }

  lemma MoreAttributesCons(v: seq<Attribute>, rest: string)
    requires |v| > 0 && EndsName(rest) && (rest == [] || rest[0] != ' ')
    ensures var m := MoreAttributes(Spaced(v[1..]) + rest);
      MoreAttributes(Spaced(v) + rest) == (m.0, [v[0]] + m.1)
  {
    var t := Spaced(v[1..]) + rest;
    var s := Spaced(v) + rest;
    SpacedShape(v, rest);
    SpacedEndsName(v[1..], rest);
    ParseAttributeText(v[0], t);
    assert ParseAttribute(s[1..]) == Done(t, v[0]);
    MoreAttributesStep(s, v[0], t);
  }

  lemma MoreAttributesStep(s: string, a: Attribute, r1: string)
    requires |s| > 0 && s[0] == ' ' && ParseAttribute(s[1..]) == Done(r1, a)
    ensures MoreAttributes(s) == (MoreAttributes(r1).0, [a] + MoreAttributes(r1).1)
  {
  }

  /** Spaced names end an attribute name when what follows them does. */
  lemma SpacedEndsName(v: seq<Attribute>, rest: string)
    requires EndsName(rest)
    ensures EndsName(Spaced(v) + rest)
  {
    if v != [] {
      SpacedShape(v, rest);
    }
  }

  lemma SpacedShape(v: seq<Attribute>, rest: string)
    requires |v| > 0
    ensures var s := Spaced(v) + rest;
      |s| > 0 && s[0] == ' ' && s[1..] == AttributeName(v[0]) + (Spaced(v[1..]) + rest)
  {
    var a := AttributeName(v[0]);
    var t := Spaced(v[1..]);
    assert Spaced(v) == " " + a + t;
    ConsShape(' ', a, t, rest);
  }

  /** Reassociation of a one-character prefix. */
  lemma ConsShape(c: char, a: string, t: string, rest: string)
    ensures var s := [c] + a + t + rest;
      |s| > 0 && s[0] == c && s[1..] == a + (t + rest)
  {
  }

  /** `(` and the names of the attributes separated by spaces and `)`:
      the list printed the way RFC 9051 writes it. */
  function ListText(v: seq<Attribute>): string
    requires |v| > 0
  {
    "(" + AttributeName(v[0]) + Spaced(v[1..]) + ")"
  }

  /** The printed list of any nonempty sequence of attributes is read back,
      whatever follows it. */
  lemma ParseListText(v: seq<Attribute>, rest: string)
    requires |v| > 0
    ensures ParseItems(ListText(v) + rest) == Done(rest, Attributes(v))
  {
    var t := Spaced(v[1..]) + ")" + rest;
    ListTextShape(v, rest);
    SpacedEndsName(v[1..], ")" + rest);
    ParseAttributeText(v[0], t);
    MoreAttributesText(v[1..], ")" + rest);
    assert [v[0]] + v[1..] == v;
    ParseListStep(ListText(v) + rest, t, v[0], ")" + rest, v[1..]);
  }

  lemma ListTextShape(v: seq<Attribute>, rest: string)
    requires |v| > 0
    ensures var s := ListText(v) + rest;
      s[0] == '(' && s[1..] == AttributeName(v[0]) + (Spaced(v[1..]) + ")" + rest)
      && Spaced(v[1..]) + ")" + rest == Spaced(v[1..]) + (")" + rest)
  {
    var a := AttributeName(v[0]);
    var t := Spaced(v[1..]);
    assert ListText(v) == "(" + a + t + ")";
    ConsShape('(', a, t + ")", rest);
  }

  lemma ParseListStep(s: string, r1: string, a: Attribute, r2: string, more: seq<Attribute>)
    requires |s| > 0 && s[0] == '('
    requires ParseAttribute(s[1..]) == Done(r1, a)
    requires MoreAttributes(r1) == (r2, more)
    requires |r2| > 0 && r2[0] == ')'
    ensures ParseItems(s) == Done(r2[1..], Attributes([a] + more))
  {
  }

  /** A bare attribute is a one-element list. */
  lemma ParseBareAttribute(a: Attribute, rest: string)
    requires EndsName(rest)
    ensures ParseItems(AttributeName(a) + rest) == Done(rest, Attributes([a]))
  {
    ParseAttributeText(a, rest);
    var s := AttributeName(a) + rest;
    MacroPrefixes(a, rest);
  }

  /** No attribute name starts like a macro. */
  lemma MacroPrefixes(a: Attribute, rest: string)
    ensures var s := AttributeName(a) + rest; !("ALL" <= s) && !("FAST" <= s) && !("FULL" <= s)
  {
    var s := AttributeName(a) + rest;
    match a
    case Flags => assert s[0] == 'F' && s[1] == 'L';
    case Internaldate => assert s[0] == 'I';
    case Rfc822Size => assert s[0] == 'R';
    case Envelope => assert s[0] == 'E';
    case Body => assert s[0] == 'B';
  }

  /** An empty list is not accepted. */
  lemma EmptyListRejected(rest: string)
    ensures ParseItems("()" + rest).Fail?
  {
    var s := "()" + rest;
    assert s[0] == '(' && s[1] == ')';
    assert SpanLength(s[1..], AttributeChar) == 0;
    assert SpanLength(s, AttributeChar) == 1;
    assert s[..1] == "(";
  }

  /** `ALL` and the printed list of the attributes it stands for select the
      same attributes. */
  lemma AllEqualsList()
    ensures var list := ListText(ItemsAttributes(All));
      ParseItems("ALL").Done? && ParseItems(list).Done?
      && ItemsAttributes(ParseItems("ALL").value) == ItemsAttributes(ParseItems(list).value)
  {
    var list := ListText(ItemsAttributes(All));
    ParseListText(ItemsAttributes(All), "");
    assert list + "" == list;
  }
}
