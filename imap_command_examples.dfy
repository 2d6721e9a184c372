/** The behaviour of `Command::from_str` on the kinds of line its tests
    use: a LOGIN with an atom and a quoted string, a LOGIN missing its
    password, an unknown verb, a non-UID verb after `UID`, and STATUS with
    items. Each is proved for every line of its shape, then for the concrete
    line. */
module ImapCommandExamples {
  import opened Text
  import opened Wrappers
  import opened Nom
  import opened ImapArgs
  import opened ImapCommand
  import ImapStatus
  import ImapCommandRender
  import ImapSequence

  // ---- shapes ----

  /** A line whose fourth character is not a space does not start with
      `UID `. */
  lemma NotUidLine(s: string)
    requires |s| >= 4 && s[3] != ' '
    ensures FromStr(s) == ParseCommand(s, false)
  {
    assert Upper(s[..4])[3] == UpperChar(s[3]);
  }

  /** An atom that neither starts with a quote nor holds a blank. */
  predicate Atom(w: string)
  {
    w != [] && w[0] != '"' && forall i :: 0 <= i < |w| ==> AtomChar(w[i])
  }

  /** A quoted string without escapes. */
  predicate PlainQuoted(v: string)
  {
    v != [] && '\\' !in v && '"' !in v
  }

  lemma AtomArg(w: string, rest: string)
    requires Atom(w) && (rest == [] || !AtomChar(rest[0]))
    ensures ArgString(w + rest) == Done(rest, w)
  {
    Space0None(w + rest);
    AtomRoundTrip(w, rest);
  }

  lemma QuotedArg(v: string)
    requires PlainQuoted(v)
    ensures ArgString(" " + "\"" + v + "\"") == Done("", v)
  {
    var q := "\"" + v + "\"";
    assert " " + "\"" + v + "\"" == " " + q;
    Space0One(q);
    QuotePlain(v, "");
    assert q + "" == q;
  }

  lemma EmptyArg()
    ensures ArgString("").Fail?
  {
    assert SpanLength("", AtomChar) == 0;
  }

  /** The second string argument missing: the verb's syntax error. */
  lemma TwoStringsMissing(n: CommandName, i: string, r1: string, a: string)
    requires TwoStringVerb(n) && ArgString(i) == Done(r1, a) && ArgString(r1).Fail?
    ensures ParseArgs(n, i, false) == Err(Syntax(n))
  {
  }

  lemma AtomThenQuoted(a: string, b: string)
    requires Atom(a) && PlainQuoted(b)
    ensures var rest := " " + "\"" + b + "\"";
      ArgString(a + " " + "\"" + b + "\"") == Done(rest, a) && ArgString(rest) == Done("", b)
  {
    var rest := " " + "\"" + b + "\"";
    assert a + " " + "\"" + b + "\"" == a + rest;
    AtomArg(a, rest);
    QuotedArg(b);
  }

  /** A verb spelled in any case, then its arguments. */
  lemma VerbLine(line: string, verb: string, n: CommandName, i: string)
    requires line == verb + " " + i
    requires ' ' !in verb && Upper(verb) == NameText(n)
    ensures FromStr(line) == ParseArgs(n, i, false)
  {
    NameTextShape(n);
    assert Upper(verb)[3] == UpperChar(verb[3]);
    assert line[3] == verb[3];
    NotUidLine(line);
    VerbCase(verb, NameText(n), i, false);
    ParseCommandVerb(n, i, false);
  }

  /** `<verb> <atom> "<string>"` for LOGIN, RENAME and LIST in any case:
      the two strings, the inner spaces of the quoted one kept. */
  lemma TwoStringsLine(line: string, verb: string, n: CommandName, a: string, b: string)
    requires TwoStringVerb(n) && ' ' !in verb && Upper(verb) == NameText(n)
    requires Atom(a) && PlainQuoted(b)
    requires line == verb + " " + a + " " + "\"" + b + "\""
    ensures FromStr(line) == Ok(Pair(n, a, b))
  {
    LineShape(line, verb, a, b);
    VerbLine(line, verb, n, a + " " + "\"" + b + "\"");
    TwoStringsArgs(n, a, b);
  }

  lemma LineShape(line: string, verb: string, a: string, b: string)
    requires line == verb + " " + a + " " + "\"" + b + "\""
    ensures line == verb + " " + (a + " " + "\"" + b + "\"")
  {
  }

  lemma TwoStringsArgs(n: CommandName, a: string, b: string)
    requires TwoStringVerb(n) && Atom(a) && PlainQuoted(b)
    ensures ParseArgs(n, a + " " + "\"" + b + "\"", false) == Ok(Pair(n, a, b))
  {
    AtomThenQuoted(a, b);
    ImapCommandRender.TwoStringsStep(n, a + " " + "\"" + b + "\"", " " + "\"" + b + "\"", a, b);
  }

  /** The same verbs with one atom only: the verb's syntax error. */
  lemma OneOfTwoStrings(line: string, verb: string, n: CommandName, a: string)
    requires TwoStringVerb(n) && ' ' !in verb && Upper(verb) == NameText(n) && Atom(a)
    requires line == verb + " " + a
    ensures FromStr(line) == Err(Syntax(n))
  {
    VerbLine(line, verb, n, a);
    AtomArg(a, "");
    assert a + "" == a;
    EmptyArg();
    TwoStringsMissing(n, a, "", a);
  }

  /** No verb is longer than twelve letters. */
  lemma NameLength(n: CommandName)
    ensures |NameText(n)| <= 12
  {
    match n
    case Capability =>
    case Noop =>
    case Logout =>
    case Starttls =>
    case Authenticate =>
    case Login =>
    case Enable =>
    case Select =>
    case Examine =>
    case Namespace =>
    case Create =>
    case Delete =>
    case Rename =>
    case Subscribe =>
    case Unsubscribe =>
    case List =>
    case Status =>
    case Append =>
    case Idle =>
    case Close =>
    case Unselect =>
    case Expunge =>
    case Search =>
    case Fetch =>
    case Store =>
    case Copy =>
    case Move =>
  }

  /** A word longer than every verb is not a command. */
  lemma LongWordUnrecognized(s: string)
    requires ' ' !in s && |s| > 12
    ensures FromStr(s) == Err(UnrecognizedCommand)
  {
    assert s[3] != ' ';
    NotUidLine(s);
    ParseCommandOutcome(s, false);
    assert SplitOnceOr(s, ' ').0 == s;
    forall n: CommandName
      ensures Upper(s) != NameText(n)
    {
      NameLength(n);
    }
  }

  /** `UID` before a verb that has no UID form is not a command. */
  lemma UidOfPlainVerb(n: CommandName, i: string)
    requires !UidVerb(n)
    ensures FromStr("UID " + NameText(n) + " " + i) == Err(UnrecognizedCommand)
  {
    var s := NameText(n) + " " + i;
    assert "UID " + NameText(n) + " " + i == "UID " + s;
    assert ("UID " + s)[..4] == "UID " && ("UID " + s)[4..] == s;
    assert Upper("UID ") == "UID " by {
      UpperSame("UID ");
    }
    ParseCommandVerb(n, i, true);
  }

  /** What is left after a one-mailbox verb's argument is discarded. */
  lemma OneStringLeftover(n: CommandName, m: string, rest: string)
    requires OneStringVerb(n) && m != []
    ensures ParseArgs(n, Quote(m) + rest, false) == Ok(Single(n, m))
  {
    ArgStringQuoted(m, rest);
  }

  /** `<status> "<mailbox>" (<words>)`: the items named by the words. */
  lemma StatusLine(line: string, verb: string, m: string, words: string)
    requires ' ' !in verb && Upper(verb) == NameText(CommandName.Status)
    requires PlainQuoted(m) && ')' !in words
    requires line == verb + " " + "\"" + m + "\"" + " (" + words + ")"
    ensures FromStr(line) == Ok(Command.Status(m, ImapStatus.ParseItems(words)))
  {
    StatusLineArgs(line, verb, m, words);
    ImapCommandRender.StatusArgs(m, words, ImapStatus.ParseItems(words));
  }

  lemma StatusLineArgs(line: string, verb: string, m: string, words: string)
    requires ' ' !in verb && Upper(verb) == NameText(CommandName.Status)
    requires PlainQuoted(m)
    requires line == verb + " " + "\"" + m + "\"" + " (" + words + ")"
    ensures FromStr(line) == ParseArgs(CommandName.Status, Quote(m) + " (" + words + ")", false)
  {
    var i := Quote(m) + " (" + words + ")";
    assert line == verb + " " + i by {
      QuotedText(m, words);
      StatusShape(verb, m, words);
    }
    VerbLine(line, verb, CommandName.Status, i);
  }

  lemma StatusShape(verb: string, m: string, words: string)
    ensures verb + " " + "\"" + m + "\"" + " (" + words + ")" == verb + " " + ("\"" + m + "\"" + " (" + words + ")")
  {
  }

  lemma QuotedText(m: string, words: string)
    requires PlainQuoted(m)
    ensures "\"" + m + "\"" + " (" + words + ")" == Quote(m) + " (" + words + ")"
  {
    EscapePlain(m);
  }

  // ---- the lines of the source's tests ----

  lemma LoginAlice()
    ensures FromStr("login alice \"hunter 2\"") == Ok(Command.Login("alice", "hunter 2"))
  {
    LoginVerb();
    AliceWords();
    TwoStringsLine("login alice \"hunter 2\"", "login", CommandName.Login, "alice", "hunter 2");
  }

  lemma AliceWords()
    ensures Atom("alice") && PlainQuoted("hunter 2")
    ensures "login alice \"hunter 2\"" == "login" + " " + "alice" + " " + "\"" + "hunter 2" + "\""
  {
  }

  lemma LoginVerb()
    ensures ' ' !in "login" && Upper("login") == NameText(CommandName.Login)
  {
    var u := Upper("login");
    assert u[0] == 'L' && u[1] == 'O' && u[2] == 'G' && u[3] == 'I' && u[4] == 'N';
  }

  /** `login bob` is answered `Syntax: LOGIN <username> <password>`. */
  lemma LoginBob()
    ensures FromStr("login bob") == Err(Syntax(CommandName.Login))
  {
    LoginVerb();
    BobWords();
    OneOfTwoStrings("login bob", "login", CommandName.Login, "bob");
  }

  lemma LoginSyntax()
    ensures ErrorMessage(Syntax(CommandName.Login)) == "Syntax: LOGIN <username> <password>"
  {
  }

  lemma BobWords()
    ensures Atom("bob") && "login bob" == "login" + " " + "bob"
  {
  }

  lemma UnknownCommand()
    ensures FromStr("unrecognizedcommand") == Err(UnrecognizedCommand)
  {
    NoSpace();
    LongWordUnrecognized("unrecognizedcommand");
  }

  lemma NoSpace()
    ensures ' ' !in "unrecognizedcommand"
  {
    var s := "unrecognizedcommand";
    assert forall k :: 0 <= k < |s| ==> s[k] != ' ';
  }

  lemma StatusVerb()
    ensures ' ' !in "status" && Upper("status") == NameText(CommandName.Status)
  {
    var u := Upper("status");
    assert u[0] == 'S' && u[1] == 'T' && u[2] == 'A' && u[3] == 'T' && u[4] == 'U' && u[5] == 'S';
  }

  /** `status "INBOX" (MESSAGES UNSEEN)` asks for the first and the fourth
      item. */
  lemma StatusInbox()
    ensures FromStr("status \"INBOX\" (MESSAGES UNSEEN)") == Ok(Command.Status("INBOX", {0, 3}))
  {
    StatusVerb();
    InboxWords();
    StatusLine("status \"INBOX\" (MESSAGES UNSEEN)", "status", "INBOX", "MESSAGES UNSEEN");
    MessagesUnseen();
  }

  lemma InboxWords()
    ensures PlainQuoted("INBOX") && ')' !in "MESSAGES UNSEEN"
    ensures "status \"INBOX\" (MESSAGES UNSEEN)" == "status" + " " + "\"" + "INBOX" + "\"" + " (" + "MESSAGES UNSEEN" + ")"
  {
  }

  /** Two item names, the first and the fourth. */
  lemma MessagesUnseen()
    ensures ImapStatus.ParseItems("MESSAGES UNSEEN") == {0, 3}
  {
    TwoNames();
    FirstAndFourth(ImapStatus.ParseItems("MESSAGES UNSEEN"));
  }

  lemma TwoNames()
    ensures Split("MESSAGES UNSEEN", ' ') == ["MESSAGES", "UNSEEN"]
  {
    SplitJoin(["MESSAGES", "UNSEEN"], ' ');
    JoinTwo();
  }

  lemma JoinTwo()
    ensures Join(["MESSAGES", "UNSEEN"], " ") == "MESSAGES UNSEEN"
  {
    JoinCons("MESSAGES", ["UNSEEN"], " ");
  }

  lemma FirstAndFourth(f: set<nat>)
    requires forall i: nat :: i in f <==> i < |ImapStatus.Decl| && ImapStatus.Decl[i] in ["MESSAGES", "UNSEEN"]
    ensures f == {0, 3}
  {
    assert 0 in f && 3 in f;
    forall i: nat | i in f
      ensures i == 0 || i == 3
    {
      assert i < 6;
    }
  }

  /** `status INBOX ()` asks for no item. */
  lemma StatusEmpty()
    ensures FromStr("status INBOX ()") == Ok(Command.Status("INBOX", {}))
  {
    StatusVerb();
    EmptyWords();
    VerbLine("status INBOX ()", "status", CommandName.Status, "INBOX ()");
    InboxAtom();
    ArgStatusItemsText("", "");
    NoItems();
    ImapCommandRender.StatusStep("INBOX ()", " ()", "INBOX", {});
  }

  lemma EmptyWords()
    ensures "status INBOX ()" == "status" + " " + "INBOX ()"
    ensures " (" + "" + ")" + "" == " ()"
  {
  }

  lemma InboxAtom()
    ensures ArgString("INBOX ()") == Done(" ()", "INBOX")
  {
    assert Atom("INBOX");
    AtomArg("INBOX", " ()");
    assert "INBOX" + " ()" == "INBOX ()";
  }

  lemma NoItems()
    ensures ImapStatus.ParseItems("") == {}
  {
    assert Split("", ' ') == [""];
    forall i: nat
      ensures i !in ImapStatus.ParseItems("")
    {
    }
  }

  /** `FETCH * FLAGS`: the set parser as written does not read the `*`, so
      the blank that must follow the set is missing and the line is FETCH's
      syntax error. */
  lemma FetchLoneStar()
    ensures ParseArgs(CommandName.Fetch, "* FLAGS", false) == Err(Syntax(CommandName.Fetch))
  {
    ImapSequence.StarNotRead("* FLAGS");
  }
}
