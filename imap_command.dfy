/** IMAP commands (RFC 9051 section 6): a tag, an optional `UID` prefix, a
    case-insensitive verb and the arguments that verb takes. */
module ImapCommand {
  import opened Text
  import opened Wrappers
  import opened Nom
  import opened ImapProto
  import opened ImapArgs
  import ImapResponse
  import Sasl
  import Utf8
  import FlagSet
  import ImapCapability
  import ImapStatus
  import ImapSequence
  import ImapFetch

  datatype Command =
    | Capability
    | Noop
    | Logout
    | Starttls
    | Authenticate(mechanism: Sasl.MechanismKind, initialResponse: Option<string>)
    | Login(username: string, password: string)
    | Enable(capabilities: set<nat>)
    | Select(mailbox: string)
    | Examine(mailbox: string)
    | Create(mailbox: string)
    | Delete(mailbox: string)
    | Rename(existing: string, newName: string)
    | Subscribe(mailbox: string)
    | Unsubscribe(mailbox: string)
    | List(reference: string, mailbox: string)
    | Namespace
    | Status(mailbox: string, statusItems: set<nat>)
    | Append
    | Idle
    | Close
    | Unselect
    | Expunge(isUid: bool)
    | Search(isUid: bool)
    | Fetch(isUid: bool, sequenceSet: ImapSequence.SequenceSet, fetchItems: ImapFetch.Items)
    | Store(isUid: bool)
    | Copy(isUid: bool)
    | Move(isUid: bool)

  datatype CommandName =
    | Capability | Noop | Logout | Starttls | Authenticate | Login | Enable
    | Select | Examine | Create | Delete | Rename | Subscribe | Unsubscribe
    | List | Namespace | Status | Append | Idle | Close | Unselect
    | Expunge | Search | Fetch | Store | Copy | Move

  /** `Command::name`. */
  function Name(c: Command): CommandName
  {
    match c
    case Capability => CommandName.Capability
    case Noop => CommandName.Noop
    case Logout => CommandName.Logout
    case Starttls => CommandName.Starttls
    case Authenticate(_, _) => CommandName.Authenticate
    case Login(_, _) => CommandName.Login
    case Enable(_) => CommandName.Enable
    case Select(_) => CommandName.Select
    case Examine(_) => CommandName.Examine
    case Create(_) => CommandName.Create
    case Delete(_) => CommandName.Delete
    case Rename(_, _) => CommandName.Rename
    case Subscribe(_) => CommandName.Subscribe
    case Unsubscribe(_) => CommandName.Unsubscribe
    case List(_, _) => CommandName.List
    case Namespace => CommandName.Namespace
    case Status(_, _) => CommandName.Status
    case Append => CommandName.Append
    case Idle => CommandName.Idle
    case Close => CommandName.Close
    case Unselect => CommandName.Unselect
    case Expunge(_) => CommandName.Expunge
    case Search(_) => CommandName.Search
    case Fetch(_, _, _) => CommandName.Fetch
    case Store(_) => CommandName.Store
    case Copy(_) => CommandName.Copy
    case Move(_) => CommandName.Move
  }

  /** The verb of each command on the wire, in upper case. */
  function NameText(n: CommandName): string
  {
    match n
    case Capability => "CAPABILITY"
    case Noop => "NOOP"
    case Logout => "LOGOUT"
    case Starttls => "STARTTLS"
    case Authenticate => "AUTHENTICATE"
    case Login => "LOGIN"
    case Enable => "ENABLE"
    case Select => "SELECT"
    case Examine => "EXAMINE"
    case Create => "CREATE"
    case Delete => "DELETE"
    case Rename => "RENAME"
    case Subscribe => "SUBSCRIBE"
    case Unsubscribe => "UNSUBSCRIBE"
    case List => "LIST"
    case Namespace => "NAMESPACE"
    case Status => "STATUS"
    case Append => "APPEND"
    case Idle => "IDLE"
    case Close => "CLOSE"
    case Unselect => "UNSELECT"
    case Expunge => "EXPUNGE"
    case Search => "SEARCH"
    case Fetch => "FETCH"
    case Store => "STORE"
    case Copy => "COPY"
    case Move => "MOVE"
  }

  /** The verb table: an upper-cased verb names at most one command. The
      table is tried in source order, in three runs of nine verbs, so that a
      proof about it looks at one run at a time. */
  function ParseVerb(u: string): Option<CommandName>
  {
    if VerbsA(u).Some? then VerbsA(u)
    else if VerbsB(u).Some? then VerbsB(u)
    else VerbsC(u)
  }

  /** CAPABILITY to EXAMINE. */
  function VerbsA(u: string): Option<CommandName>
  {
    if u == "CAPABILITY" then Some(CommandName.Capability)
    else if u == "NOOP" then Some(CommandName.Noop)
    else if u == "LOGOUT" then Some(CommandName.Logout)
    else if u == "STARTTLS" then Some(CommandName.Starttls)
    else if u == "AUTHENTICATE" then Some(CommandName.Authenticate)
    else if u == "LOGIN" then Some(CommandName.Login)
    else if u == "ENABLE" then Some(CommandName.Enable)
    else if u == "SELECT" then Some(CommandName.Select)
    else if u == "EXAMINE" then Some(CommandName.Examine)
    else None
  }

  /** CREATE to APPEND. */
  function VerbsB(u: string): Option<CommandName>
  {
    if u == "CREATE" then Some(CommandName.Create)
    else if u == "DELETE" then Some(CommandName.Delete)
    else if u == "RENAME" then Some(CommandName.Rename)
    else if u == "SUBSCRIBE" then Some(CommandName.Subscribe)
    else if u == "UNSUBSCRIBE" then Some(CommandName.Unsubscribe)
    else if u == "LIST" then Some(CommandName.List)
    else if u == "NAMESPACE" then Some(CommandName.Namespace)
    else if u == "STATUS" then Some(CommandName.Status)
    else if u == "APPEND" then Some(CommandName.Append)
    else None
  }

  /** IDLE to MOVE. */
  function VerbsC(u: string): Option<CommandName>
  {
    if u == "IDLE" then Some(CommandName.Idle)
    else if u == "CLOSE" then Some(CommandName.Close)
    else if u == "UNSELECT" then Some(CommandName.Unselect)
    else if u == "EXPUNGE" then Some(CommandName.Expunge)
    else if u == "SEARCH" then Some(CommandName.Search)
    else if u == "FETCH" then Some(CommandName.Fetch)
    else if u == "STORE" then Some(CommandName.Store)
    else if u == "COPY" then Some(CommandName.Copy)
    else if u == "MOVE" then Some(CommandName.Move)
    else None
  }

  /** The verbs that may follow `UID`. */
  predicate UidVerb(n: CommandName)
  {
    n in {CommandName.Expunge, CommandName.Search, CommandName.Fetch,
          CommandName.Store, CommandName.Copy, CommandName.Move}
  }

  /** Whether a command was given with the `UID` prefix. */
  function IsUid(c: Command): bool
  {
    match c
    case Expunge(u) => u
    case Search(u) => u
    case Fetch(u, _, _) => u
    case Store(u) => u
    case Copy(u) => u
    case Move(u) => u
    case _ => false
  }

  /** The verbs whose arguments are read. */
  predicate TakesArgs(n: CommandName)
  {
    n in {CommandName.Authenticate, CommandName.Login, CommandName.Enable,
          CommandName.Select, CommandName.Examine, CommandName.Create, CommandName.Delete,
          CommandName.Rename, CommandName.Subscribe, CommandName.Unsubscribe,
          CommandName.List, CommandName.Status, CommandName.Fetch}
  }

  /** The `SYNTAX` text of each verb with arguments. */
  function ArgSyntax(n: CommandName): string
  {
    match n
    case Authenticate => "<mechanism> [<initial-response>]"
    case Login => "<username> <password>"
    case Enable => "<capability> [<capability> ...]"
    case Rename => "<existing> <new>"
    case List => "<reference> <mailbox>"
    case Status => "<mailbox> <status-data-item> [<status-data-item> ...]"
    case Fetch => "<sequence set> <fetch attribute> [<fetch attribute> ...]"
    case _ => "<mailbox>"
  }

  /** The message of a syntax error: `Syntax: <VERB> <SYNTAX>`. */
  function SyntaxMessage(n: CommandName): string
  {
    "Syntax: " + NameText(n) + " " + ArgSyntax(n)
  }

  /** `ParseError`. The text of a syntax error is fixed by its verb, so the
      error records the verb and `ErrorMessage` gives the text. */
  datatype ParseError = Syntax(verb: CommandName) | UnrecognizedCommand

  function SyntaxError(n: CommandName): Result<Command, ParseError>
  {
    Err(Syntax(n))
  }

  /** The text each error is reported with. */
  function ErrorMessage(e: ParseError): string
  {
    match e
    case Syntax(n) => SyntaxMessage(n)
    case UnrecognizedCommand => "Unrecognized command"
  }

  predicate OneStringVerb(n: CommandName)
  {
    n in {CommandName.Select, CommandName.Examine, CommandName.Create,
          CommandName.Delete, CommandName.Subscribe, CommandName.Unsubscribe}
  }

  predicate TwoStringVerb(n: CommandName)
  {
    n in {CommandName.Login, CommandName.Rename, CommandName.List}
  }

  /** The command of a verb whose one argument is a mailbox. */
  function Single(n: CommandName, m: string): (c: Command)
    requires OneStringVerb(n)
    ensures Name(c) == n && !IsUid(c)
  {
    match n
    case Select => Command.Select(m)
    case Examine => Command.Examine(m)
    case Create => Command.Create(m)
    case Delete => Command.Delete(m)
    case Subscribe => Command.Subscribe(m)
    case Unsubscribe => Command.Unsubscribe(m)
  }

  /** The command of a verb with two string arguments. */
  function Pair(n: CommandName, a: string, b: string): (c: Command)
    requires TwoStringVerb(n)
    ensures Name(c) == n && !IsUid(c)
  {
    match n
    case Login => Command.Login(a, b)
    case Rename => Command.Rename(a, b)
    case List => Command.List(a, b)
  }

  /** One string argument. */
  function OneString(n: CommandName, i: string): (r: Result<Command, ParseError>)
    requires OneStringVerb(n)
    ensures r.Ok? ==> Name(r.value) == n && !IsUid(r.value)
    ensures r.Err? ==> r.error == Syntax(n)
    ensures r.Ok? <==> ArgString(i).Done?
  {
    match ArgString(i)
    case Fail => SyntaxError(n)
    case Done(_, m) => Ok(Single(n, m))
  }

  /** Two string arguments, one after the other. */
  function TwoStrings(n: CommandName, i: string): (r: Result<Command, ParseError>)
    requires TwoStringVerb(n)
    ensures r.Ok? ==> Name(r.value) == n && !IsUid(r.value)
    ensures r.Err? ==> r.error == Syntax(n)
    ensures r.Ok? <==> ArgString(i).Done? && ArgString(ArgString(i).rest).Done?
  {
    match ArgString(i)
    case Fail => SyntaxError(n)
    case Done(i1, a) =>
      match ArgString(i1)
      case Fail => SyntaxError(n)
      case Done(_, b) => Ok(Pair(n, a, b))
  }

  /** The command of a verb that takes no arguments; the UID verbs among
      them carry whether `UID` came first. */
  function NoArgs(n: CommandName, isUid: bool): (c: Command)
    requires !TakesArgs(n)
    ensures Name(c) == n && IsUid(c) == (isUid && UidVerb(n))
  {
    match n
    case Capability => Command.Capability
    case Noop => Command.Noop
    case Logout => Command.Logout
    case Starttls => Command.Starttls
    case Namespace => Command.Namespace
    case Append => Command.Append
    case Idle => Command.Idle
    case Close => Command.Close
    case Unselect => Command.Unselect
    case Expunge => Command.Expunge(isUid)
    case Search => Command.Search(isUid)
    case Store => Command.Store(isUid)
    case Copy => Command.Copy(isUid)
    case Move => Command.Move(isUid)
  }

  /** `AUTHENTICATE`: a mechanism name and an optional initial response. */
  function ParseAuthenticate(i: string): (r: Result<Command, ParseError>)
    ensures r.Ok? ==> r.value.Authenticate? && Name(r.value) == CommandName.Authenticate && !IsUid(r.value)
    ensures r.Err? ==> r.error == Syntax(CommandName.Authenticate)
    ensures r.Ok? <==> ArgMechanism(i).Done?
  {
    AuthenticateAfter(ArgMechanism(i))
  }

  /** The rest of `AUTHENTICATE` once the mechanism has been read. */
  function AuthenticateAfter(m: Parsed<Sasl.MechanismKind>): (r: Result<Command, ParseError>)
    ensures r.Ok? ==> r.value.Authenticate? && Name(r.value) == CommandName.Authenticate && !IsUid(r.value)
    ensures r.Ok? ==> m.Done? && r.value.mechanism == m.value
    ensures r.Err? ==> r.error == Syntax(CommandName.Authenticate)
    ensures r.Ok? <==> m.Done?
  {
    if m.Fail? then SyntaxError(CommandName.Authenticate)
    else Ok(Command.Authenticate(m.value, ArgOptString(m.rest).value))
  }

  /** `ENABLE`: the capability names that follow, the unknown ones
      dropped; it always succeeds. */
  function ParseEnable(i: string): (c: Command)
    ensures c.Enable? && c.capabilities == ArgCapabilities(i).value
    ensures Name(c) == CommandName.Enable && !IsUid(c)
  {
    Command.Enable(ArgCapabilities(i).value)
  }

  /** `STATUS`: a mailbox and a parenthesized list of status items. */
  function ParseStatus(i: string): (r: Result<Command, ParseError>)
    ensures r.Ok? ==> r.value.Status? && Name(r.value) == CommandName.Status && !IsUid(r.value)
    ensures r.Err? ==> r.error == Syntax(CommandName.Status)
    ensures r.Ok? <==> ArgString(i).Done? && ArgStatusItems(ArgString(i).rest).Done?
  {
    StatusAfter(ArgString(i))
  }

  /** The rest of `STATUS` once the mailbox has been read. */
  function StatusAfter(m: Parsed<string>): (r: Result<Command, ParseError>)
    ensures r.Ok? ==> r.value.Status? && Name(r.value) == CommandName.Status && !IsUid(r.value)
    ensures r.Err? ==> r.error == Syntax(CommandName.Status)
    ensures r.Ok? <==> m.Done? && ArgStatusItems(m.rest).Done?
  {
    if m.Fail? then SyntaxError(CommandName.Status) else StatusWith(m.value, ArgStatusItems(m.rest))
  }

  /** The end of `STATUS`: the status items decide. */
  function StatusWith(mailbox: string, f: Parsed<set<nat>>): (r: Result<Command, ParseError>)
    ensures r.Ok? <==> f.Done?
    ensures r.Ok? ==> r.value == Command.Status(mailbox, f.value)
    ensures r.Ok? ==> Name(r.value) == CommandName.Status && !IsUid(r.value)
    ensures r.Err? ==> r.error == Syntax(CommandName.Status)
  {
    if f.Fail? then SyntaxError(CommandName.Status) else Ok(Command.Status(mailbox, f.value))
  }

  /** `Fetch::parse`: a sequence set, read with the set parser as written,
      blanks, the data items. It succeeds exactly when blanks follow the set
      and the data items are read after them, and then holds what was read. */
  function ParseFetch(i: string, isUid: bool): (r: Result<Command, ParseError>)
    ensures r.Ok? ==> r.value.Fetch? && Name(r.value) == CommandName.Fetch && IsUid(r.value) == isUid
    ensures r.Err? ==> r.error == Syntax(CommandName.Fetch)
    ensures var p := ImapSequence.ParseSet(i);
      r.Ok? <==> Space1(p.rest).Done? && ImapFetch.ParseItems(Space0(p.rest)).Done?
    ensures var p := ImapSequence.ParseSet(i);
      r.Ok? ==> r.value.sequenceSet == p.value && r.value.fetchItems == ImapFetch.ParseItems(Space0(p.rest)).value
  {
    FetchAfterSet(ImapSequence.ParseSet(i), isUid)
  }

  /** The rest of `Fetch::parse` once the sequence set has been read. */
  function FetchAfterSet(r1: Parsed<ImapSequence.SequenceSet>, isUid: bool): (r: Result<Command, ParseError>)
    ensures r.Ok? ==> r.value.Fetch? && Name(r.value) == CommandName.Fetch && IsUid(r.value) == isUid
    ensures r.Ok? <==> r1.Done? && Space1(r1.rest).Done? && ImapFetch.ParseItems(Space0(r1.rest)).Done?
    ensures r.Ok? ==>
      r1.Done? && r.value.sequenceSet == r1.value && r.value.fetchItems == ImapFetch.ParseItems(Space0(r1.rest)).value
    ensures r.Err? ==> r.error == Syntax(CommandName.Fetch)
  {
    if r1.Fail? then SyntaxError(CommandName.Fetch)
    else
      match Space1(r1.rest)
      case Fail => SyntaxError(CommandName.Fetch)
      case Done(i2, _) => FetchWithItems(r1.value, ImapFetch.ParseItems(i2), isUid)
  }

  /** The end of `Fetch::parse`: the data items decide. */
  function FetchWithItems(sequenceSet: ImapSequence.SequenceSet, items: Parsed<ImapFetch.Items>, isUid: bool): (r: Result<Command, ParseError>)
    ensures r.Ok? <==> items.Done?
    ensures r.Ok? ==> r.value == Command.Fetch(isUid, sequenceSet, items.value)
    ensures r.Err? ==> r.error == Syntax(CommandName.Fetch)
  {
    match items
    case Fail => SyntaxError(CommandName.Fetch)
    case Done(_, v) => Ok(Command.Fetch(isUid, sequenceSet, v))
  }

  /** The arguments of a verb that takes them. */
  function WithArgs(n: CommandName, i: string, isUid: bool): (r: Result<Command, ParseError>)
    requires TakesArgs(n)
    ensures r.Ok? ==> Name(r.value) == n && IsUid(r.value) == (isUid && UidVerb(n))
    ensures r.Err? ==> r.error == Syntax(n)
  {
    if n == CommandName.Fetch then ParseFetch(i, isUid) else PlainArgs(n, i)
  }

  /** The arguments of a verb that takes them and has no UID form. */
  function PlainArgs(n: CommandName, i: string): (r: Result<Command, ParseError>)
    requires TakesArgs(n) && n != CommandName.Fetch
    ensures !UidVerb(n)
    ensures r.Ok? ==> Name(r.value) == n && !IsUid(r.value)
    ensures r.Err? ==> r.error == Syntax(n)
  {
    match n
    case Select | Examine | Create | Delete | Subscribe | Unsubscribe => OneString(n, i)
    case Login | Rename | List => TwoStrings(n, i)
    case Authenticate => ParseAuthenticate(i)
    case Enable => Ok(ParseEnable(i))
    case Status => ParseStatus(i)
  }

  /** The arguments of a verb, read from the text after the verb; whatever
      follows the last argument is ignored. A command of that verb comes
      back, in the UID form exactly when asked for and allowed, or the
      verb's syntax error, which only verbs with arguments give. */
  function ParseArgs(n: CommandName, i: string, isUid: bool): (r: Result<Command, ParseError>)
    ensures r.Ok? ==> Name(r.value) == n && IsUid(r.value) == (isUid && UidVerb(n))
    ensures r.Err? ==> r.error == Syntax(n) && TakesArgs(n)
  {
    if TakesArgs(n) then WithArgs(n, i, isUid) else Ok(NoArgs(n, isUid))
  }

  /** `parse_command`: the verb runs to the first space and is matched
      after ASCII upper-casing; with `UID` only the six UID verbs are
      known. */
  function ParseCommand(s: string, isUid: bool): Result<Command, ParseError>
  {
    var (verb, i) := SplitOnceOr(s, ' ');
    match ParseVerb(Upper(verb))
    case None => Err(UnrecognizedCommand)
    case Some(n) => if isUid && !UidVerb(n) then Err(UnrecognizedCommand) else ParseArgs(n, i, isUid)
  }

  /** `Command::from_str`: a first four characters of `UID ` in any case
      select the UID form of the rest. */
  function FromStr(s: string): Result<Command, ParseError>
  {
    if |s| >= 4 && Upper(s[..4]) == "UID " then ParseCommand(s[4..], true) else ParseCommand(s, false)
  }

  /** `From<ParseError> for StatusResponse`: always BAD. */
  function ErrorResponse(e: ParseError): (r: ImapResponse.StatusResponse)
    ensures r.status == ImapResponse.Bad && r.message == ErrorMessage(e)
  {
    ImapResponse.StatusResponse(ImapResponse.Bad, ErrorMessage(e))
  }

  datatype TaggedCommand = TaggedCommand(tag: Tag, command: Command)

  datatype Error = BadRequest(response: ImapResponse.TaggedStatusResponse) | InvalidUtf8

  /** `TryFrom<&[u8]> for TaggedCommand`: UTF-8, the tag up to the first
      space, then the command; a command that does not parse is answered
      BAD with its tag. */
  function TryFromBytes(b: seq<byte>): Result<TaggedCommand, Error>
  {
    match Utf8.Decode(b)
    case None => Err(InvalidUtf8)
    case Some(s) =>
      var (tag, rest) := SplitOnceOr(s, ' ');
      match FromStr(rest)
      case Ok(c) => Ok(TaggedCommand(tag, c))
      case Err(e) => Err(BadRequest(ImapResponse.WithTag(ErrorResponse(e), tag)))
  }

  /** `Request`: a tagged piece of data. */
  datatype Request<T> = Request(tag: Tag, data: T)

  /** `Request::into_res`: a response with the request's own tag. */
  function IntoRes<T>(req: Request<T>, status: ImapResponse.Status, message: string): (r: ImapResponse.TaggedStatusResponse)
    ensures r.tag == req.tag && r.status == status && r.message == message
  {
    ImapResponse.WithTag(ImapResponse.StatusResponse(status, message), req.tag)
  }

  /** `Request::ok`, `Request::no` and `Request::bad`. */
  function RequestOk<T>(req: Request<T>, message: string): (r: ImapResponse.TaggedStatusResponse)
    ensures r == ImapResponse.Tagged(req.tag, ImapResponse.Ok, message)
  {
    IntoRes(req, ImapResponse.Ok, message)
  }

  function RequestNo<T>(req: Request<T>, message: string): (r: ImapResponse.TaggedStatusResponse)
    ensures r == ImapResponse.Tagged(req.tag, ImapResponse.No, message)
  {
    IntoRes(req, ImapResponse.No, message)
  }

  function RequestBad<T>(req: Request<T>, message: string): (r: ImapResponse.TaggedStatusResponse)
    ensures r == ImapResponse.Tagged(req.tag, ImapResponse.Bad, message)
  {
    IntoRes(req, ImapResponse.Bad, message)
  }

  /** The line written for a reply carries the request's tag, which a
      reader of status lines finds again. */
  lemma ReplyReadBack<T>(req: Request<T>, status: ImapResponse.Status, message: string)
    requires ' ' !in req.tag
    ensures ImapResponse.ParseTaggedText(ImapResponse.TaggedText(IntoRes(req, status, message)))
      == Some(ImapResponse.Tagged(req.tag, status, message))
  {
    ImapResponse.ParseTaggedTextRoundTrip(IntoRes(req, status, message));
  }

  // ---- reading a tagged line ----

  /** Only bytes that are not UTF-8 give `InvalidUtf8`; every decoded line
      gives a command or a tagged BAD. */
  lemma InvalidUtf8Iff(b: seq<byte>)
    ensures TryFromBytes(b) == Err(InvalidUtf8) <==> Utf8.Decode(b).None?
    ensures TryFromBytes(b).Err? && TryFromBytes(b).error.BadRequest? ==>
      TryFromBytes(b).error.response.status == ImapResponse.Bad
  {
  }

  /** The tag is the text before the first space, the command the text
      after it; a command that does not parse is answered BAD with that tag
      and the error's message. */
  lemma TaggedLine(tag: Tag, line: string)
    requires ' ' !in tag
    ensures var r := TryFromBytes(Utf8.Encode(tag + " " + line));
      (FromStr(line).Ok? ==> r == Ok(TaggedCommand(tag, FromStr(line).value))) &&
      (FromStr(line).Err? ==>
        r == Err(BadRequest(ImapResponse.Tagged(tag, ImapResponse.Bad, ErrorMessage(FromStr(line).error)))))
  {
    Utf8.DecodeEncode(tag + " " + line);
    SplitOnceOrJoined(tag, ' ', line);
  }

  /** A line without a space is all tag: the empty command is not
      recognised, and the BAD answer carries the line as its tag. */
  lemma TagOnly(s: string)
    requires ' ' !in s
    ensures TryFromBytes(Utf8.Encode(s))
      == Err(BadRequest(ImapResponse.Tagged(s, ImapResponse.Bad, "Unrecognized command")))
  {
    Utf8.DecodeEncode(s);
    EmptyUnrecognized();
  }

  lemma EmptyUnrecognized()
    ensures FromStr("") == Err(UnrecognizedCommand)
  {
    assert SplitOnceOr("", ' ') == ("", "");
    assert Upper("") == "";
    forall n: CommandName
      ensures ParseVerb("") != Some(n)
    {
      ParseVerbIff("", n);
      NameTextShape(n);
    }
  }

  // ---- the verb table ----

  /** The verb table in six parts, so that each proof about the table looks
      at a few verbs at a time. */
  function Part(n: CommandName): nat
  {
    match n
    case Capability | Noop | Logout => 0
    case Starttls | Authenticate | Login => 1
    case Enable | Select | Examine => 2
    case Create | Delete | Rename => 3
    case Subscribe | Unsubscribe | List => 4
    case Namespace | Status | Append => 5
    case Idle | Close | Unselect => 6
    case Expunge | Search | Fetch => 7
    case Store | Copy | Move => 8
  }

  /** Every verb is an upper-case word of at least four letters. */
  lemma NameTextShape(n: CommandName)
    ensures var v := NameText(n);
      |v| >= 4 && (forall k :: 0 <= k < |v| ==> 'A' <= v[k] <= 'Z') && Upper(v) == v
  {
    NameLetters(n);
    UpperSame(NameText(n));
  }

  lemma NameLetters(n: CommandName)
    ensures var v := NameText(n); |v| >= 4 && forall k :: 0 <= k < |v| ==> 'A' <= v[k] <= 'Z'
  {
    if Part(n) < 3 {
      NameLetters0(n);
    } else if Part(n) < 6 {
      NameLetters1(n);
    } else {
      NameLetters2(n);
    }
  }

  lemma NameLetters0(n: CommandName)
    requires Part(n) < 3
    ensures var v := NameText(n); |v| >= 4 && forall k :: 0 <= k < |v| ==> 'A' <= v[k] <= 'Z'
  {
  }

  lemma NameLetters1(n: CommandName)
    requires 3 <= Part(n) < 6
    ensures var v := NameText(n); |v| >= 4 && forall k :: 0 <= k < |v| ==> 'A' <= v[k] <= 'Z'
  {
  }

  lemma NameLetters2(n: CommandName)
    requires 6 <= Part(n)
    ensures var v := NameText(n); |v| >= 4 && forall k :: 0 <= k < |v| ==> 'A' <= v[k] <= 'Z'
  {
  }

  /** An upper-cased verb is recognised exactly when it is the verb of a
      command, and then it names that command. */
  lemma ParseVerbIff(u: string, n: CommandName)
    ensures ParseVerb(u) == Some(n) <==> u == NameText(n)
  {
    ParseVerbSound(u);
    ParseVerbNames(n);
  }

  /** Whatever the table recognises is the verb of what it names. */
  lemma ParseVerbSound(u: string)
    ensures ParseVerb(u).Some? ==> u == NameText(ParseVerb(u).value)
  {
    VerbsSound(u);
  }

  lemma VerbsSound(u: string)
    ensures VerbsA(u).Some? ==> u == NameText(VerbsA(u).value)
    ensures VerbsB(u).Some? ==> u == NameText(VerbsB(u).value)
    ensures VerbsC(u).Some? ==> u == NameText(VerbsC(u).value)
  {
    VerbsASound(u);
    VerbsBSound(u);
    VerbsCSound(u);
  }

  lemma VerbsASound(u: string)
    ensures VerbsA(u).Some? ==> u == NameText(VerbsA(u).value)
  {
  }

  lemma VerbsBSound(u: string)
    ensures VerbsB(u).Some? ==> u == NameText(VerbsB(u).value)
  {
  }

  lemma VerbsCSound(u: string)
    ensures VerbsC(u).Some? ==> u == NameText(VerbsC(u).value)
  {
  }

  /** The table recognises the verb of every command. */
  lemma ParseVerbNames(n: CommandName)
    ensures ParseVerb(NameText(n)) == Some(n)
  {
    match Part(n)
    case 0 => ParseVerb0(n);
    case 1 => ParseVerb1(n);
    case 2 => ParseVerb2(n);
    case 3 => ParseVerb3(n);
    case 4 => ParseVerb4(n);
    case 5 => ParseVerb5(n);
    case 6 => ParseVerb6(n);
    case 7 => ParseVerb7(n);
    case 8 => ParseVerb8(n);
  }

  lemma ParseVerb0(n: CommandName)
    requires Part(n) == 0
    ensures ParseVerb(NameText(n)) == Some(n)
  {
  }

  lemma ParseVerb1(n: CommandName)
    requires Part(n) == 1
    ensures ParseVerb(NameText(n)) == Some(n)
  {
  }

  lemma ParseVerb2(n: CommandName)
    requires Part(n) == 2
    ensures ParseVerb(NameText(n)) == Some(n)
  {
  }

  lemma ParseVerb3(n: CommandName)
    requires Part(n) == 3
    ensures ParseVerb(NameText(n)) == Some(n)
  {
  }

  lemma ParseVerb4(n: CommandName)
    requires Part(n) == 4
    ensures ParseVerb(NameText(n)) == Some(n)
  {
  }

  lemma ParseVerb5(n: CommandName)
    requires Part(n) == 5
    ensures ParseVerb(NameText(n)) == Some(n)
  {
  }

  lemma ParseVerb6(n: CommandName)
    requires Part(n) == 6
    ensures ParseVerb(NameText(n)) == Some(n)
  {
  }

  lemma ParseVerb7(n: CommandName)
    requires Part(n) == 7
    ensures ParseVerb(NameText(n)) == Some(n)
  {
  }

  lemma ParseVerb8(n: CommandName)
    requires Part(n) == 8
    ensures ParseVerb(NameText(n)) == Some(n)
  {
  }

  /** A line that starts with a verb reads the arguments of that verb from
      the text after the first space; a verb alone reads them from nothing. */
  lemma ParseCommandVerb(n: CommandName, i: string, isUid: bool)
    ensures ParseCommand(NameText(n) + " " + i, isUid)
      == if isUid && !UidVerb(n) then Err(UnrecognizedCommand) else ParseArgs(n, i, isUid)
    ensures ParseCommand(NameText(n), isUid)
      == if isUid && !UidVerb(n) then Err(UnrecognizedCommand) else ParseArgs(n, "", isUid)
  {
    var v := NameText(n);
    NameTextShape(n);
    assert ' ' !in v;
    SplitOnceOrJoined(v, ' ', i);
    ParseVerbIff(v, n);
  }

  /** The outcome of `parse_command` for any line: a command named by the
      upper-cased first word, in the UID form exactly when asked for; an
      unrecognised command exactly when no command (or no UID command) has
      that verb; otherwise that verb's syntax error. */
  lemma ParseCommandOutcome(s: string, isUid: bool)
    ensures var verb := SplitOnceOr(s, ' ').0;
      var r := ParseCommand(s, isUid);
      (r.Ok? ==> Upper(verb) == NameText(Name(r.value)) && IsUid(r.value) == isUid) &&
      (r == Err(UnrecognizedCommand) <==>
        forall n: CommandName :: Upper(verb) == NameText(n) ==> isUid && !UidVerb(n)) &&
      (r.Err? && r.error.Syntax? ==> Upper(verb) == NameText(r.error.verb) && TakesArgs(r.error.verb))
  {
    var (verb, i) := SplitOnceOr(s, ' ');
    var u := Upper(verb);
    match ParseVerb(u)
    case None =>
      forall n: CommandName
        ensures u != NameText(n)
      {
        ParseVerbIff(u, n);
      }
    case Some(n) =>
      ParseVerbIff(u, n);
      forall m: CommandName | u == NameText(m)
        ensures m == n
      {
        ParseVerbIff(u, m);
      }
  }

  /** The verb is matched without regard to ASCII case. */
  lemma VerbCase(v1: string, v2: string, i: string, isUid: bool)
    requires ' ' !in v1 && ' ' !in v2 && Upper(v1) == Upper(v2)
    ensures ParseCommand(v1 + " " + i, isUid) == ParseCommand(v2 + " " + i, isUid)
  {
    SplitOnceOrJoined(v1, ' ', i);
    SplitOnceOrJoined(v2, ' ', i);
  }
}
