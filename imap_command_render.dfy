/** A printer for IMAP commands, written the way a client would send them,
    and the proof that the command parser reads every printed command
    back: quoted strings for mailbox names and credentials, the status
    items in parentheses, the capability names separated by spaces and the
    FETCH data items as a macro or a parenthesized list. */
module ImapCommandRender {
  import opened Text
  import opened Wrappers
  import opened Nom
  import opened ImapArgs
  import opened ImapCommand
  import FlagSet
  import Sasl
  import ImapCapability
  import ImapStatus
  import ImapSequence
  import ImapFetch

  /** The data items of FETCH as text: the macro, or the list. */
  function ItemsText(items: ImapFetch.Items): string
  {
    match items
    case All => "ALL"
    case Fast => "FAST"
    case Full => "FULL"
    case Attributes(v) => if |v| > 0 then ImapFetch.ListText(v) else "()"
  }

  function MechanismText(m: Sasl.MechanismKind): string
  {
    match m
    case Plain => "PLAIN"
  }

  /** The text after the verb and its space, for the verbs with arguments. */
  function ArgsText(c: Command): string
  {
    match c
    case Authenticate(m, r) => MechanismText(m) + (if r.Some? then " " + Quote(r.value) else "")
    case Login(a, b) => Quote(a) + " " + Quote(b)
    case Enable(f) => Join(FlagSet.Names(ImapCapability.Decl, f), " ")
    case Select(m) => Quote(m)
    case Examine(m) => Quote(m)
    case Create(m) => Quote(m)
    case Delete(m) => Quote(m)
    case Rename(a, b) => Quote(a) + " " + Quote(b)
    case Subscribe(m) => Quote(m)
    case Unsubscribe(m) => Quote(m)
    case List(a, b) => Quote(a) + " " + Quote(b)
    case Status(m, f) => Quote(m) + " (" + Join(FlagSet.Names(ImapStatus.Decl, f), " ") + ")"
    case Fetch(_, s, items) => ImapSequence.SetText(s) + " " + ItemsText(items)
    case _ => ""
  }

  /** The line of a command without its tag. */
  function Render(c: Command): string
  {
    var n := Name(c);
    (if IsUid(c) then "UID " else "")
      + (if TakesArgs(n) then NameText(n) + " " + ArgsText(c) else NameText(n))
  }

  /** The commands the printer writes faithfully: quoted strings must not
      be empty (an empty quoted string is read as the atom `""`), flag sets
      hold declared flags only, a FETCH set holds no `*:*` range (the set
      parser as written cannot read it back) and an explicit FETCH list is
      not empty. */
  predicate Renderable(c: Command)
  {
    match c
    case Authenticate(_, r) => r.Some? ==> r.value != []
    case Login(a, b) => a != [] && b != []
    case Enable(f) => FlagSet.Valid(ImapCapability.Decl, f)
    case Select(m) => m != []
    case Examine(m) => m != []
    case Create(m) => m != []
    case Delete(m) => m != []
    case Rename(a, b) => a != [] && b != []
    case Subscribe(m) => m != []
    case Unsubscribe(m) => m != []
    case List(a, b) => a != [] && b != []
    case Status(m, f) => m != [] && FlagSet.Valid(ImapStatus.Decl, f)
    case Fetch(_, s, items) => ImapSequence.NoLoneStar(s) && (items.Attributes? ==> |items.attributes| > 0)
    case _ => true
  }

  /** Every printable command is read back from its line by
      `Command::from_str`. */
  lemma RenderRoundTrip(c: Command)
    requires Renderable(c)
    ensures FromStr(Render(c)) == Ok(c)
  {
    var n := Name(c);
    UidOnlyForUidVerbs(c);
    if TakesArgs(n) {
      ArgsRoundTrip(c);
      WithArgsLine(n, ArgsText(c), IsUid(c), c);
    } else {
      NoArgsRoundTrip(c);
      NoArgsLine(n, IsUid(c), c);
    }
  }

  /** How `from_str` reads a line built from a verb and its arguments. */
  lemma WithArgsLine(n: CommandName, args: string, isUid: bool, c: Command)
    requires TakesArgs(n) && (isUid ==> UidVerb(n))
    requires ParseArgs(n, args, isUid) == Ok(c)
    ensures FromStr((if isUid then "UID " else "") + (NameText(n) + " " + args)) == Ok(c)
  {
    UidPrefix(n, " " + args, isUid);
    assert NameText(n) + (" " + args) == NameText(n) + " " + args;
    ParseCommandVerb(n, args, isUid);
  }

  /** How `from_str` reads a line that is a verb alone. */
  lemma NoArgsLine(n: CommandName, isUid: bool, c: Command)
    requires isUid ==> UidVerb(n)
    requires ParseArgs(n, "", isUid) == Ok(c)
    ensures FromStr((if isUid then "UID " else "") + NameText(n)) == Ok(c)
  {
    UidPrefix(n, "", isUid);
    assert NameText(n) + "" == NameText(n);
    ParseCommandVerb(n, "", isUid);
  }

  lemma UidOnlyForUidVerbs(c: Command)
    ensures IsUid(c) ==> UidVerb(Name(c))
  {
  }

  /** `from_str` looks at `UID ` only: a line starting with a verb is read
      without the UID form, and `UID ` before it asks for the UID form. */
  lemma UidPrefix(n: CommandName, tail: string, isUid: bool)
    ensures var line := NameText(n) + tail;
      FromStr((if isUid then "UID " else "") + line) == ParseCommand(line, isUid)
  {
    var line := NameText(n) + tail;
    NameTextShape(n);
    if isUid {
      UidPrefixed(line);
    } else {
      assert "" + line == line;
      assert line[3] == NameText(n)[3];
      NoUidPrefix(line);
    }
  }

  lemma UidPrefixed(line: string)
    ensures FromStr("UID " + line) == ParseCommand(line, true)
  {
    var s := "UID " + line;
    assert s[..4] == "UID " && s[4..] == line;
    UpperSame("UID ");
  }

  lemma NoUidPrefix(line: string)
    requires |line| >= 4 && 'A' <= line[3] <= 'Z'
    ensures FromStr(line) == ParseCommand(line, false)
  {
    assert Upper(line[..4])[3] == UpperChar(line[3]);
  }

  /** A command without arguments is rebuilt from its name and UID form. */
  lemma NoArgsRoundTrip(c: Command)
    requires !TakesArgs(Name(c))
    ensures ParseArgs(Name(c), "", IsUid(c)) == Ok(c)
  {
    assert NoArgs(Name(c), IsUid(c)) == c;
  }

  lemma ArgsRoundTrip(c: Command)
    requires TakesArgs(Name(c)) && Renderable(c)
    ensures ParseArgs(Name(c), ArgsText(c), IsUid(c)) == Ok(c)
  {
    match c
    case Select(m) => OneStringRoundTrip(c, m);
    case Examine(m) => OneStringRoundTrip(c, m);
    case Create(m) => OneStringRoundTrip(c, m);
    case Delete(m) => OneStringRoundTrip(c, m);
    case Subscribe(m) => OneStringRoundTrip(c, m);
    case Unsubscribe(m) => OneStringRoundTrip(c, m);
    case Login(a, b) => TwoStringsRoundTrip(c, a, b);
    case Rename(a, b) => TwoStringsRoundTrip(c, a, b);
    case List(a, b) => TwoStringsRoundTrip(c, a, b);
    case Authenticate(m, r) => AuthenticateRoundTrip(m, r);
    case Enable(f) => EnableRoundTrip(f);
    case Status(m, f) => StatusRoundTrip(m, f);
    case Fetch(u, s, items) => FetchRoundTrip(u, s, items);
  }

  lemma OneStringRoundTrip(c: Command, m: string)
    requires OneStringVerb(Name(c)) && m != []
    requires c == Single(Name(c), m)
    ensures ParseArgs(Name(c), Quote(m), false) == Ok(c)
  {
    ArgStringQuoted(m, "");
    assert Quote(m) + "" == Quote(m);
  }

  lemma TwoStringsRoundTrip(c: Command, a: string, b: string)
    requires TwoStringVerb(Name(c)) && a != [] && b != []
    requires c == Pair(Name(c), a, b)
    ensures ParseArgs(Name(c), Quote(a) + " " + Quote(b), false) == Ok(c)
  {
    ArgStringQuoted(a, " " + Quote(b));
    ArgStringQuoted(b, "");
    assert Quote(a) + " " + Quote(b) == Quote(a) + (" " + Quote(b));
    assert " " + Quote(b) + "" == " " + Quote(b);
    TwoStringsStep(Name(c), Quote(a) + " " + Quote(b), " " + Quote(b), a, b);
  }

  /** Both string arguments read: the command of the verb. */
  lemma TwoStringsStep(n: CommandName, i: string, r1: string, a: string, b: string)
    requires TwoStringVerb(n) && ArgString(i) == Done(r1, a)
    requires ArgString(r1).Done? && ArgString(r1).value == b
    ensures ParseArgs(n, i, false) == Ok(Pair(n, a, b))
  {
  }

  lemma AuthenticateRoundTrip(m: Sasl.MechanismKind, r: Option<string>)
    requires r.Some? ==> r.value != []
    ensures ParseArgs(CommandName.Authenticate,
      MechanismText(m) + (if r.Some? then " " + Quote(r.value) else ""), false)
      == Ok(Command.Authenticate(m, r))
  {
    var tail := if r.Some? then " " + Quote(r.value) else "";
    MechanismRead(m, tail);
    if r.Some? {
      Space0One(Quote(r.value));
      ArgStringQuoted(r.value, "");
      assert Quote(r.value) + "" == Quote(r.value);
    }
    AuthenticateStep(MechanismText(m) + tail, tail, m);
  }

  lemma AuthenticateStep(i: string, tail: string, m: Sasl.MechanismKind)
    requires ArgMechanism(i) == Done(tail, m)
    ensures ParseArgs(CommandName.Authenticate, i, false)
      == Ok(Command.Authenticate(m, ArgOptString(tail).value))
  {
    assert ParseAuthenticate(i) == Ok(Command.Authenticate(m, ArgOptString(tail).value));
    assert WithArgs(CommandName.Authenticate, i, false) == PlainArgs(CommandName.Authenticate, i);
  }

  /** The mechanism name is an atom, read back up to the blank after it. */
  lemma MechanismRead(m: Sasl.MechanismKind, tail: string)
    requires tail == [] || tail[0] == ' '
    ensures ArgMechanism(MechanismText(m) + tail) == Done(tail, m)
  {
    MechanismAtom(m, tail);
    MechanismName(m);
    AtomMechanism(MechanismText(m), tail, m);
  }

  /** A mechanism name written as an atom is read back, whatever blank
      follows it. */
  lemma AtomMechanism(w: string, tail: string, m: Sasl.MechanismKind)
    requires w != [] && w[0] != '"' && forall i :: 0 <= i < |w| ==> AtomChar(w[i])
    requires tail == [] || tail[0] == ' '
    requires Sasl.ParseMechanism(w) == Some(m)
    ensures ArgMechanism(w + tail) == Done(tail, m)
  {
    assert (w + tail)[0] == w[0];
    Space0None(w + tail);
    AtomRoundTrip(w, tail);
    MechanismStep(w + tail, tail, w, m);
  }

  lemma MechanismAtom(m: Sasl.MechanismKind, tail: string)
    ensures var w := MechanismText(m);
      w != [] && w[0] != '"' && (forall i :: 0 <= i < |w| ==> AtomChar(w[i]))
  {
  }

  lemma MechanismName(m: Sasl.MechanismKind)
    ensures Sasl.ParseMechanism(MechanismText(m)) == Some(m)
  {
    UpperSame(MechanismText(m));
  }

  lemma MechanismStep(s: string, rest: string, w: string, m: Sasl.MechanismKind)
    requires Space0(s) == s && ParseStr(s) == Done(rest, w) && Sasl.ParseMechanism(w) == Some(m)
    ensures ArgMechanism(s) == Done(rest, m)
  {
  }

  lemma EnableRoundTrip(f: set<nat>)
    requires FlagSet.Valid(ImapCapability.Decl, f)
    ensures ParseArgs(CommandName.Enable, Join(FlagSet.Names(ImapCapability.Decl, f), " "), false)
      == Ok(Command.Enable(f))
  {
    var decl := ImapCapability.Decl;
    CapabilityNames();
    NamesRead(decl, f);
    EnableStep(Join(FlagSet.Names(decl, f), " "), f);
  }

  lemma CapabilityNames()
    ensures var decl := ImapCapability.Decl;
      FlagSet.Distinct(decl) && forall i :: 0 <= i < |decl| ==>
        ' ' !in decl[i] && ')' !in decl[i] && decl[i] != [] && decl[i][0] != '\t'
  {
    ImapCapability.DeclDistinct();
  }

  lemma StatusNames()
    ensures var decl := ImapStatus.Decl;
      FlagSet.Distinct(decl) && forall i :: 0 <= i < |decl| ==>
        ' ' !in decl[i] && ')' !in decl[i] && decl[i] != [] && decl[i][0] != '\t'
  {
    ImapStatus.DeclDistinct();
  }

  lemma EnableStep(i: string, f: set<nat>)
    requires FlagSet.FromNames(ImapCapability.Decl, Split(Space0(i), ' ')) == f
    ensures ParseArgs(CommandName.Enable, i, false) == Ok(Command.Enable(f))
  {
  }

  /** The joined names of a set, skipped blanks and all, name the set
      again, and hold no `)`. */
  lemma NamesRead(decl: seq<string>, f: set<nat>)
    requires FlagSet.Distinct(decl) && FlagSet.Valid(decl, f)
    requires forall i :: 0 <= i < |decl| ==>
      ' ' !in decl[i] && ')' !in decl[i] && decl[i] != [] && decl[i][0] != '\t'
    ensures var words := Join(FlagSet.Names(decl, f), " ");
      Space0(words) == words && FlagSet.FromNames(decl, Split(words, ' ')) == f && ')' !in words
  {
    var names := FlagSet.Names(decl, f);
    var words := Join(names, " ");
    SplitNames(decl, f);
    NoCloseInNames(decl, f);
    if names != [] {
      assert names[0] in names;
      FlagSet.NamesDeclared(decl, f, names[0]);
      JoinHead(names, " ");
      Space0None(words);
      FlagSet.FromNamesNames(decl, f);
    } else {
      assert Split(words, ' ') == [""];
      EmptyNameUnknown(decl, f);
    }
  }

  lemma StatusRoundTrip(m: string, f: set<nat>)
    requires m != [] && FlagSet.Valid(ImapStatus.Decl, f)
    ensures ParseArgs(CommandName.Status,
      Quote(m) + " (" + Join(FlagSet.Names(ImapStatus.Decl, f), " ") + ")", false) == Ok(Command.Status(m, f))
  {
    StatusNames();
    NamesRead(ImapStatus.Decl, f);
    StatusArgs(m, Join(FlagSet.Names(ImapStatus.Decl, f), " "), f);
  }

  /** A quoted mailbox and parenthesized words are read as the mailbox and
      the items the words name. */
  lemma StatusArgs(m: string, words: string, f: set<nat>)
    requires m != [] && ')' !in words && ImapStatus.ParseItems(words) == f
    ensures ParseArgs(CommandName.Status, Quote(m) + " (" + words + ")", false) == Ok(Command.Status(m, f))
  {
    StatusFacts(m, words);
    StatusStep(Quote(m) + " (" + words + ")", " (" + words + ")", m, f);
  }

  lemma StatusFacts(m: string, words: string)
    requires m != [] && ')' !in words
    ensures var items := " (" + words + ")";
      ArgString(Quote(m) + " (" + words + ")") == Done(items, m)
      && ArgStatusItems(items) == Done("", ImapStatus.ParseItems(words))
  {
    var items := " (" + words + ")";
    ArgStringQuoted(m, items);
    StatusItemsAlone(words);
    ParenAssoc(Quote(m), words);
  }

  lemma StatusItemsAlone(words: string)
    requires ')' !in words
    ensures ArgStatusItems(" (" + words + ")") == Done("", ImapStatus.ParseItems(words))
  {
    ArgStatusItemsText(words, "");
    EmptyRest(" (" + words + ")");
  }

  lemma EmptyRest(s: string)
    ensures s + "" == s
  {
  }

  lemma ParenAssoc(q: string, words: string)
    ensures q + " (" + words + ")" == q + (" (" + words + ")")
  {
  }

  lemma StatusStep(i: string, rest: string, m: string, f: set<nat>)
    requires ArgString(i) == Done(rest, m) && ArgStatusItems(rest).Done? && ArgStatusItems(rest).value == f
    ensures ParseArgs(CommandName.Status, i, false) == Ok(Command.Status(m, f))
  {
    assert ParseStatus(i) == Ok(Command.Status(m, f));
    assert WithArgs(CommandName.Status, i, false) == PlainArgs(CommandName.Status, i);
  }

  lemma FetchRoundTrip(u: bool, s: ImapSequence.SequenceSet, items: ImapFetch.Items)
    requires ImapSequence.NoLoneStar(s)
    requires items.Attributes? ==> |items.attributes| > 0
    ensures ParseArgs(CommandName.Fetch, ImapSequence.SetText(s) + " " + ItemsText(items), u)
      == Ok(Command.Fetch(u, s, items))
  {
    FetchFacts(s, items);
    FetchStep(ImapSequence.SetText(s) + " " + ItemsText(items), " " + ItemsText(items), ItemsText(items), s, items, u);
  }

  lemma FetchFacts(s: ImapSequence.SequenceSet, items: ImapFetch.Items)
    requires ImapSequence.NoLoneStar(s)
    requires items.Attributes? ==> |items.attributes| > 0
    ensures var t := ItemsText(items);
      ImapFetch.ParseItems(t) == Done("", items) && Space0(" " + t) == t
      && ImapSequence.ParseSet(ImapSequence.SetText(s) + " " + t) == Done(" " + t, s)
  {
    var t := ItemsText(items);
    ItemsRead(items);
    Space0One(t);
    SetThenItems(s, t);
  }

  /** A printed set is read up to the blank before the data items. */
  lemma SetThenItems(s: ImapSequence.SequenceSet, t: string)
    requires ImapSequence.NoLoneStar(s)
    ensures ImapSequence.ParseSet(ImapSequence.SetText(s) + " " + t) == Done(" " + t, s)
  {
    ImapSequence.ParseSetTextAsWritten(s, " " + t);
    SpaceAssoc(ImapSequence.SetText(s), t);
  }

  lemma SpaceAssoc(a: string, t: string)
    ensures a + " " + t == a + (" " + t)
  {
  }

  lemma FetchStep(i: string, r1: string, t: string, s: ImapSequence.SequenceSet,
                  items: ImapFetch.Items, u: bool)
    requires ImapSequence.ParseSet(i) == Done(r1, s)
    requires |r1| > 0 && r1[0] == ' ' && Space0(r1) == t
    requires ImapFetch.ParseItems(t) == Done("", items)
    ensures ParseArgs(CommandName.Fetch, i, u) == Ok(Command.Fetch(u, s, items))
  {
  }

  /** The printed data items are read back, and they start with a letter
      or `(`. */
  lemma ItemsRead(items: ImapFetch.Items)
    requires items.Attributes? ==> |items.attributes| > 0
    ensures ImapFetch.ParseItems(ItemsText(items)) == Done("", items)
    ensures var t := ItemsText(items); |t| > 0 && t[0] != ' ' && t[0] != '\t'
  {
    match items
    case All =>
    case Fast =>
      assert "FAST"[0] != "ALL"[0];
      assert "FAST"[4..] == "";
    case Full =>
      assert "FULL"[0] != "ALL"[0] && "FULL"[1] != "FAST"[1];
      assert "FULL"[4..] == "";
    case Attributes(v) =>
      ImapFetch.ParseListText(v, "");
      assert ImapFetch.ListText(v) + "" == ImapFetch.ListText(v);
  }

  /** The flag names never contain a space, so splitting their join at
      spaces gives them back; no name is empty. */
  lemma SplitNames(decl: seq<string>, f: set<nat>)
    requires forall i :: 0 <= i < |decl| ==> ' ' !in decl[i] && decl[i] != []
    ensures var names := FlagSet.Names(decl, f);
      names != [] ==> Split(Join(names, " "), ' ') == names
    ensures FlagSet.Names(decl, f) == [] ==> Join(FlagSet.Names(decl, f), " ") == ""
  {
    var names := FlagSet.Names(decl, f);
    forall k | 0 <= k < |names|
      ensures ' ' !in names[k]
    {
      assert names[k] in names;
      FlagSet.NamesDeclared(decl, f, names[k]);
    }
    if names != [] {
      SplitJoin(names, ' ');
    }
  }

  /** No flag set holds a flag named by the empty word. */
  lemma EmptyNameUnknown(decl: seq<string>, f: set<nat>)
    requires FlagSet.Distinct(decl) && forall i :: 0 <= i < |decl| ==> decl[i] != []
    requires FlagSet.Valid(decl, f) && FlagSet.Names(decl, f) == []
    ensures FlagSet.FromNames(decl, [""]) == f
  {
    forall i: nat | i < |decl|
      ensures i !in f
    {
      FlagSet.NamesMembership(decl, f, i);
    }
  }

  lemma NoCloseInNames(decl: seq<string>, f: set<nat>)
    requires forall i :: 0 <= i < |decl| ==> ')' !in decl[i]
    ensures ')' !in Join(FlagSet.Names(decl, f), " ")
  {
    var names := FlagSet.Names(decl, f);
    forall k | 0 <= k < |names|
      ensures ')' !in names[k]
    {
      assert names[k] in names;
      FlagSet.NamesDeclared(decl, f, names[k]);
    }
    JoinAvoids(names, " ", ')');
  }

  lemma {:induction false} JoinAvoids(xs: seq<string>, sep: string, c: char)
    requires c !in sep && forall k :: 0 <= k < |xs| ==> c !in xs[k]
    ensures c !in Join(xs, sep)
  {
    if |xs| > 1 {
      JoinAvoids(xs[1..], sep, c);
    }
  }

  lemma JoinHead(xs: seq<string>, sep: string)
    requires xs != [] && xs[0] != []
    ensures Join(xs, sep) != [] && Join(xs, sep)[0] == xs[0][0]
  {
  }
}
