/** The argument readers of IMAP commands: double-quoted strings with
    backslash escapes, bare atoms, and the typed arguments built from them
    (a SASL mechanism, an optional string, a capability list, a list of
    status items). */
module ImapArgs {
  import opened Text
  import opened Wrappers
  import opened Nom
  import Sasl
  import FlagSet
  import ImapCapability
  import ImapStatus

  /** One more character in front of a successful result. */
  function Prepend(c: char, r: Parsed<string>): (p: Parsed<string>)
    ensures p.Done? <==> r.Done?
    ensures p.Done? ==> p.rest == r.rest && p.value == [c] + r.value
  {
    match r
    case Fail => Fail
    case Done(rest, v) => Done(rest, [c] + v)
  }

  /** nom's `escaped_transform` with `none_of("\\\"")` as the normal
      characters, `\` as the control character and `\\` or `\"` as the only
      escapes. The loop stops at the first `"`, which fails the parse when
      nothing was read yet (`first`); a `\` at the very end or before any
      other character fails it too. */
  function Unescape(s: string, first: bool): (r: Parsed<string>)
    ensures r.Done? ==> |r.rest| <= |s| && (r.rest == [] || r.rest[0] == '"')
    decreases |s|
  {
    if s == [] then Done("", "")
    else if s[0] == '\\' then
      if |s| < 2 || (s[1] != '\\' && s[1] != '"') then Fail
      else Prepend(s[1], Unescape(s[2..], false))
    else if s[0] == '"' then
      if first then Fail else Done(s, "")
    else Prepend(s[0], Unescape(s[1..], false))
  }

  /** `parse_dquote_str`: `"`, the unescaped body, `"`. */
  function DquoteStr(s: string): (r: Parsed<string>)
    ensures r.Done? ==> |r.rest| < |s|
  {
    if |s| == 0 || s[0] != '"' then Fail
    else
      match Unescape(s[1..], true)
      case Fail => Fail
      case Done(rest, v) => if |rest| > 0 && rest[0] == '"' then Done(rest[1..], v) else Fail
  }

  /** Characters of a bare argument: anything but space, tab, CR and LF. */
  predicate AtomChar(c: char) { c != ' ' && c != '\t' && c != '\r' && c != '\n' }

  /** `parse_str`: a quoted string, or else a nonempty run of atom
      characters (`is_not(" \t\r\n")`). */
  function ParseStr(s: string): (r: Parsed<string>)
    ensures r.Done? ==> |r.rest| < |s|
  {
    match DquoteStr(s)
    case Done(rest, v) => Done(rest, v)
    case Fail =>
      var k := SpanLength(s, AtomChar);
      if k == 0 then Fail else Done(s[k..], s[..k])
  }

  // ---- printing a string so that it reads back ----

  /** A backslash before each `\` and `"`. */
  function Escape(v: string): string
  {
    if v == [] then [] else EscapeChar(v[0]) + Escape(v[1..])
  }

  function EscapeChar(c: char): string
  {
    if c == '\\' || c == '"' then ['\\', c] else [c]
  }

  /** A quoted string whose body reads back as `v`. */
  function Quote(v: string): string
  {
    "\"" + Escape(v) + "\""
  }

  lemma {:induction false} EscapeAppend(a: string, b: string)
    ensures Escape(a + b) == Escape(a) + Escape(b)
  {
    if a != [] {
      assert (a + b)[1..] == a[1..] + b;
      EscapeAppend(a[1..], b);
    } else {
      assert a + b == b;
    }
  }

  /** Text without `\` or `"` is its own escape. */
  lemma {:induction false} EscapePlain(v: string)
    requires '\\' !in v && '"' !in v
    ensures Escape(v) == v
  {
    if v != [] {
      assert v[0] in v;
      assert forall c :: c in v[1..] ==> c in v;
      EscapePlain(v[1..]);
    }
  }

  /** Text without `\` or `"` is quoted as it is. */
  lemma QuotePlain(v: string, rest: string)
    requires v != [] && '\\' !in v && '"' !in v
    ensures DquoteStr("\"" + v + "\"" + rest) == Done(rest, v)
  {
    EscapePlain(v);
    QuoteRoundTrip(v, rest);
  }

  /** Reading an escaped body stops at the closing quote and gives the text
      back; only the empty body fails, and only in first position. */
  lemma {:induction false} UnescapeEscape(v: string, rest: string, first: bool)
    requires v != [] || !first
    ensures Unescape(Escape(v) + "\"" + rest, first) == Done("\"" + rest, v)
    decreases |v|
  {
    if v == [] {
      assert Escape(v) + "\"" + rest == "\"" + rest;
    } else {
      UnescapeEscape(v[1..], rest, false);
      UnescapeCons(v, rest, first);
      assert [v[0]] + v[1..] == v;
    }
  }

  lemma UnescapeCons(v: string, rest: string, first: bool)
    requires v != []
    ensures Unescape(Escape(v) + "\"" + rest, first)
      == Prepend(v[0], Unescape(Escape(v[1..]) + "\"" + rest, false))
  {
    var t := Escape(v[1..]) + "\"" + rest;
    assert Escape(v) + "\"" + rest == EscapeChar(v[0]) + t by {
      EscapeShape(v, "\"" + rest);
      assert Escape(v) + "\"" + rest == Escape(v) + ("\"" + rest);
      assert t == Escape(v[1..]) + ("\"" + rest);
    }
    UnescapeStep(v[0], t, first);
  }

  lemma EscapeShape(v: string, q: string)
    requires v != []
    ensures Escape(v) + q == EscapeChar(v[0]) + (Escape(v[1..]) + q)
  {
  }

  /** One escaped character in front of the rest of a body. */
  lemma UnescapeStep(c: char, t: string, first: bool)
    ensures Unescape(EscapeChar(c) + t, first) == Prepend(c, Unescape(t, false))
  {
    var s := EscapeChar(c) + t;
    if c == '\\' || c == '"' {
      assert s[0] == '\\' && s[1] == c && s[2..] == t;
    } else {
      assert s[0] == c && s[1..] == t;
    }
  }

  /** A quoted nonempty string reads back, whatever follows it. */
  lemma QuoteRoundTrip(v: string, rest: string)
    requires v != []
    ensures DquoteStr(Quote(v) + rest) == Done(rest, v)
    ensures ParseStr(Quote(v) + rest) == Done(rest, v)
  {
    var s := Quote(v) + rest;
    assert s[1..] == Escape(v) + "\"" + rest;
    UnescapeEscape(v, rest, true);
    assert ("\"" + rest)[1..] == rest;
  }

  /** `""` is not a quoted string: its body is empty. It is read as a bare
      argument of two quote characters instead. */
  lemma EmptyQuoted(rest: string)
    requires rest == [] || !AtomChar(rest[0])
    ensures DquoteStr("\"\"" + rest).Fail?
    ensures ParseStr("\"\"" + rest) == Done(rest, "\"\"")
  {
    var s := "\"\"" + rest;
    assert s[1..] == "\"" + rest;
    SpanLengthAppend("\"\"", rest, AtomChar);
    assert s[..2] == "\"\"" && s[2..] == rest;
  }

  /** A bare word that does not start with `"` reads back up to the first
      space, tab, CR or LF. */
  lemma AtomRoundTrip(w: string, rest: string)
    requires w != [] && w[0] != '"' && forall i :: 0 <= i < |w| ==> AtomChar(w[i])
    requires rest == [] || !AtomChar(rest[0])
    ensures ParseStr(w + rest) == Done(rest, w)
  {
    var s := w + rest;
    SpanLengthAppend(w, rest, AtomChar);
    assert s[..|w|] == w && s[|w|..] == rest;
  }

  /** A quoted word of the parser's own examples. */
  lemma DquoteHello()
    ensures DquoteStr("\"Hello\"") == Done("", "Hello")
  {
    QuotePlain("Hello", "");
    assert "\"" + "Hello" + "\"" + "" == "\"Hello\"";
  }

  /** A quoted string holding a space, followed by more text. */
  lemma DquoteHelloWorld()
    ensures DquoteStr("\"Hello World!\" rest") == Done(" rest", "Hello World!")
  {
    QuotePlain("Hello World!", " rest");
    assert "\"" + "Hello World!" + "\"" + " rest" == "\"Hello World!\" rest";
  }

  /** An escaped quote. */
  lemma DquoteQuote()
    ensures DquoteStr("\"dquote \\\"\"") == Done("", "dquote \"")
  {
    QuoteLast("dquote ", '"', "");
    assert "\"" + "dquote " + ['\\', '"'] + "\"" + "" == "\"dquote \\\"\"";
    assert "dquote " + ['"'] == "dquote \"";
  }

  /** An escaped backslash. */
  lemma DquoteBackslash()
    ensures DquoteStr("\"backslash \\\\\"") == Done("", "backslash \\")
  {
    QuoteLast("backslash ", '\\', "");
    assert "\"" + "backslash " + ['\\', '\\'] + "\"" + "" == "\"backslash \\\\\"";
    assert "backslash " + ['\\'] == "backslash \\";
  }

  /** A plain text ending in one escaped character. */
  lemma QuoteLast(p: string, c: char, rest: string)
    requires '\\' !in p && '"' !in p && (c == '\\' || c == '"')
    ensures DquoteStr("\"" + p + ['\\', c] + "\"" + rest) == Done(rest, p + [c])
  {
    var v := p + [c];
    EscapeLast(p, c);
    QuoteRoundTrip(v, rest);
    assert Quote(v) == "\"" + (p + ['\\', c]) + "\"";
    QuoteShape(p, ['\\', c], rest);
  }

  lemma QuoteShape(p: string, e: string, rest: string)
    ensures "\"" + (p + e) + "\"" + rest == "\"" + p + e + "\"" + rest
  {
  }

  lemma EscapeLast(p: string, c: char)
    requires '\\' !in p && '"' !in p && (c == '\\' || c == '"')
    ensures Escape(p + [c]) == p + ['\\', c]
  {
    EscapeAppend(p, [c]);
    EscapePlain(p);
    assert [c][1..] == [];
  }

  /** A bare word stops at the space. */
  lemma StrAtom()
    ensures ParseStr("Hello World!") == Done(" World!", "Hello")
  {
    AtomRoundTrip("Hello", " World!");
    assert "Hello" + " World!" == "Hello World!";
  }

  /** A quoted string keeps its space. */
  lemma StrQuoted()
    ensures ParseStr("\"Hello World!\"") == Done("", "Hello World!")
  {
    QuotePlain("Hello World!", "");
    assert "\"" + "Hello World!" + "\"" + "" == "\"Hello World!\"";
  }

  // ---- typed arguments (`ParseArg`) ----

  /** `String` and `SecretString`: optional blanks, then a string. */
  function ArgString(s: string): (r: Parsed<string>)
    ensures r.Done? ==> |r.rest| < |s|
  {
    ParseStr(Space0(s))
  }

  /** Blanks are skipped only where there are some. */
  lemma Space0None(s: string)
    requires s == [] || !IsSpaceOrTab(s[0])
    ensures Space0(s) == s
  {
  }

  lemma Space0One(t: string)
    requires t == [] || !IsSpaceOrTab(t[0])
    ensures Space0(" " + t) == t
  {
    var s := " " + t;
    assert s[1..] == t;
    assert SpanLength(s[1..], IsSpaceOrTab) == 0;
  }

  /** A quoted nonempty argument reads back, with or without one space in
      front of it. */
  lemma ArgStringQuoted(v: string, rest: string)
    requires v != []
    ensures ArgString(Quote(v) + rest) == Done(rest, v)
    ensures ArgString(" " + Quote(v) + rest) == Done(rest, v)
  {
    var t := Quote(v) + rest;
    assert t[0] == '"';
    Space0None(t);
    Space0One(t);
    assert " " + Quote(v) + rest == " " + t;
    QuoteRoundTrip(v, rest);
  }

  /** `Option<String>`: optional blanks, then a string if one is there. It
      never fails. */
  function ArgOptString(s: string): (r: Parsed<Option<string>>)
    ensures r.Done?
    ensures r.value.None? <==> ArgString(Space0(s)).Fail?
  {
    var t := Space0(s);
    match ArgString(t)
    case Done(rest, v) => Done(rest, Some(v))
    case Fail => Done(t, None)
  }

  /** `MechanismKind`: a string that names a SASL mechanism. */
  function ArgMechanism(s: string): (r: Parsed<Sasl.MechanismKind>)
    ensures r.Done? <==> ParseStr(Space0(s)).Done? && Sasl.ParseMechanism(ParseStr(Space0(s)).value).Some?
  {
    match ParseStr(Space0(s))
    case Fail => Fail
    case Done(rest, w) =>
      match Sasl.ParseMechanism(w)
      case None => Fail
      case Some(m) => Done(rest, m)
  }

  /** `Capabilities`: everything after the blanks, split at each space, the
      names collected; the whole input is consumed. */
  function ArgCapabilities(s: string): (r: Parsed<set<nat>>)
    ensures r.Done? && r.rest == ""
    ensures forall i: nat :: i in r.value <==>
      i < |ImapCapability.Decl| && ImapCapability.Decl[i] in Split(Space0(s), ' ')
  {
    Done("", FromNamesOf(ImapCapability.Decl, Split(Space0(s), ' ')))
  }

  function FromNamesOf(decl: seq<string>, ns: seq<string>): (f: set<nat>)
    ensures forall i: nat :: i in f <==> i < |decl| && decl[i] in ns
  {
    FlagSet.FromNames(decl, ns)
  }

  predicate NotClose(c: char) { c != ')' }

  /** `status::Items`: blanks, `(`, everything up to the first `)`, `)`;
      the words between the parentheses are the items. */
  function ArgStatusItems(s: string): (r: Parsed<set<nat>>)
  {
    var t := Space0(s);
    if t == [] || t[0] != '(' then Fail
    else
      var body := t[1..];
      var k := SpanLength(body, NotClose);
      if k == |body| then Fail
      else Done(body[k + 1..], ImapStatus.ParseItems(body[..k]))
  }

  /** The parenthesized words are read back as the items they name, and
      parsing stops right after the `)`. */
  lemma ArgStatusItemsText(words: string, rest: string)
    requires ')' !in words
    ensures ArgStatusItems(" (" + words + ")" + rest) == Done(rest, ImapStatus.ParseItems(words))
  {
    var s := " (" + words + ")" + rest;
    var t := "(" + words + ")" + rest;
    assert s == " " + t;
    assert SpanLength(s, IsSpaceOrTab) == 1 by {
      assert s[0] == ' ' && s[1] == '(';
      assert SpanLength(s[1..], IsSpaceOrTab) == 0;
    }
    assert Space0(s) == t;
    var body := t[1..];
    assert body == words + (")" + rest);
    SpanLengthAppend(words, ")" + rest, NotClose);
    assert body[..|words|] == words && body[|words| + 1..] == rest;
  }
}
