/** SMTP commands (crates/smtp/src/command.rs): how one line of bytes
    becomes a command, and how `read_cmd` reads lines, each cut at the line
    limit, until one is a command, answering the lines it cannot parse. */
module SmtpCommand {
  import opened Wrappers
  import opened Text
  import opened Line
  import opened Sasl
  import Utf8

  /** An address `EmailAddress::from_str` accepted, held by its text. */
  datatype Address = Address(text: string)

  /** Which texts `EmailAddress::from_str` accepts; the address grammar of
      the `email_address` crate is not part of this model. */
  type AddressCheck = string -> bool

  datatype Command =
    | Helo(domain: string)
    | Ehlo(domain: string)
    | Mail(from: Address)
    | Rcpt(to: Address)
    | Rset
    | Data
    | Bdat(size: nat, last: bool)
    | Noop
    | Quit
    | Starttls
    | Auth(mechanism: MechanismKind, initialResponse: Option<string>)

  /** `Error`; `Syntax` carries the usage text the reply shows. */
  datatype Error = UnrecognizedCommand | Syntax(correct: string) | InvalidUtf8

  /** The most bytes `read_cmd` reads for one line, its CRLF included. */
  const LINE_LIMIT: nat := 1000

  const MAIL_USAGE := "MAIL FROM:<address>"
  const RCPT_USAGE := "RCPT TO:<address>"
  const BDAT_USAGE := "BDAT <size>"
  const AUTH_USAGE := "AUTH <mechanism> [initial-response]"

  /** The verbs `Command::try_from` knows, and every other verb. */
  datatype Verb = HELO | EHLO | MAIL | RCPT | DATA | RSET | NOOP | QUIT | BDAT | STARTTLS | AUTH | Unknown

  /** The verb an upper-cased word names. */
  function VerbOf(w: string): Verb
  {
    if w == "HELO" then HELO
    else if w == "EHLO" then EHLO
    else if w == "MAIL" then MAIL
    else if w == "RCPT" then RCPT
    else if w == "DATA" then DATA
    else if w == "RSET" then RSET
    else if w == "NOOP" then NOOP
    else if w == "QUIT" then QUIT
    else if w == "BDAT" then BDAT
    else if w == "STARTTLS" then STARTTLS
    else if w == "AUTH" then AUTH
    else Unknown
  }

  /** The verb of a command. */
  function VerbOfCommand(c: Command): Verb
  {
    match c
    case Helo(_) => HELO
    case Ehlo(_) => EHLO
    case Mail(_) => MAIL
    case Rcpt(_) => RCPT
    case Rset => RSET
    case Data => DATA
    case Bdat(_, _) => BDAT
    case Noop => NOOP
    case Quit => QUIT
    case Starttls => STARTTLS
    case Auth(_, _) => AUTH
  }

  /** `parse_mailbox` through `mailbox`: skip to the first `<`, take the
      text up to the next `>`, and hand it to `EmailAddress::from_str`.
      What follows the `>` is ignored. */
  function Mailbox(i: string, isAddress: AddressCheck): (r: Result<Address, ()>)
    ensures r.Ok? ==> isAddress(r.value.text) && '>' !in r.value.text
  {
    match Find(i, '<')
    case None => Err(())
    case Some(k) =>
      var after := i[k + 1..];
      match Find(after, '>')
      case None => Err(())
      case Some(j) =>
        var text := after[..j];
        if isAddress(text) then Ok(Address(text)) else Err(())
  }

  /** The arguments of a command, once its verb is known. */
  function ParseArgs(v: Verb, args: string, isAddress: AddressCheck): (r: Result<Command, Error>)
    ensures r != Err(InvalidUtf8)
    ensures r.Err? && r.error.Syntax? ==>
      (v == MAIL && r.error.correct == MAIL_USAGE) || (v == RCPT && r.error.correct == RCPT_USAGE) ||
      (v == BDAT && r.error.correct == BDAT_USAGE) || (v == AUTH && r.error.correct == AUTH_USAGE)
  {
    match v
    case HELO => Ok(Helo(args))
    case EHLO => Ok(Ehlo(args))
    case MAIL => MailArgs(args, isAddress)
    case RCPT => RcptArgs(args, isAddress)
    case DATA => Ok(Data)
    case RSET => Ok(Rset)
    case NOOP => Ok(Noop)
    case QUIT => Ok(Quit)
    case BDAT => BdatArgs(args)
    case STARTTLS => Ok(Starttls)
    case AUTH => AuthArgs(args)
    case Unknown => Err(UnrecognizedCommand)
  }

  /** `MAIL FROM:<address>`: the mailbox, or the usage text. */
  function MailArgs(args: string, isAddress: AddressCheck): (r: Result<Command, Error>)
    ensures r.Ok? ==> r.value.Mail?
    ensures r.Err? ==> r.error == Syntax(MAIL_USAGE)
  {
    match Mailbox(args, isAddress)
    case Ok(a) => Ok(Mail(a))
    case Err(_) => Err(Syntax(MAIL_USAGE))
  }

  /** `RCPT TO:<address>`: the mailbox, or the usage text. */
  function RcptArgs(args: string, isAddress: AddressCheck): (r: Result<Command, Error>)
    ensures r.Ok? ==> r.value.Rcpt?
    ensures r.Err? ==> r.error == Syntax(RCPT_USAGE)
  {
    match Mailbox(args, isAddress)
    case Ok(a) => Ok(Rcpt(a))
    case Err(_) => Err(Syntax(RCPT_USAGE))
  }

  /** `BDAT <size> ["LAST"]`: the size is the text before the first space,
      read as a `u64`; the chunk is the last when the rest of the line is
      LAST in any case. */
  function BdatArgs(args: string): (r: Result<Command, Error>)
    ensures r.Ok? ==> r.value.Bdat? && r.value.size <= U64_MAX
    ensures r.Err? ==> r.error == Syntax(BDAT_USAGE)
  {
    var (size, more) := SplitN2(args, ' ');
    match ParseUnsigned(size, U64_MAX)
    case None => Err(Syntax(BDAT_USAGE))
    case Some(n) => Ok(Bdat(n, more.Some? && Upper(more.value) == "LAST"))
  }

  /** `AUTH <mechanism> [initial-response]`: the mechanism is the text
      before the first space, the rest of the line the initial response. */
  function AuthArgs(args: string): (r: Result<Command, Error>)
    ensures r.Ok? ==> r.value.Auth?
    ensures r.Err? ==> r.error == Syntax(AUTH_USAGE)
  {
    var (mechanism, initial) := SplitN2(args, ' ');
    match ParseMechanism(mechanism)
    case None => Err(Syntax(AUTH_USAGE))
    case Some(m) => Ok(Auth(m, initial))
  }

  /** `Command::try_from` once the bytes are text: the verb is the text
      before the first space, matched after ASCII upper-casing; the rest
      of the line is its arguments. */
  function Parse(s: string, isAddress: AddressCheck): (r: Result<Command, Error>)
    ensures r != Err(InvalidUtf8)
  {
    var (verb, args) := SplitOnceOr(s, ' ');
    ParseArgs(VerbOf(Upper(verb)), args, isAddress)
  }

  /** `Command::try_from(&[u8])`: bytes that are not UTF-8 are
      `InvalidUtf8`, anything else is parsed as text. */
  function TryFrom(b: seq<byte>, isAddress: AddressCheck): (r: Result<Command, Error>)
    ensures r == Err(InvalidUtf8) <==> Utf8.Decode(b).None?
  {
    match Utf8.Decode(b)
    case None => Err(InvalidUtf8)
    case Some(s) => Parse(s, isAddress)
  }

  // ---- reading commands ----

  /** How a line is turned into a command: `Command::try_from` with the
      server's address check. */
  type LineParser = seq<byte> -> Result<Command, Error>

  /** The parser the session reads commands with. */
  function Parser(isAddress: AddressCheck): (parse: LineParser)
    ensures forall b :: parse(b) == TryFrom(b, isAddress)
  {
    b => TryFrom(b, isAddress)
  }

  /** What `read_cmd` finds in some input: the command, if any, what it
      wrote on the way and the input it left unread. */
  datatype ReadOutcome = ReadOutcome(command: Option<Command>, written: string, rest: seq<byte>)

  /** The reply to a line that is not a command; lines that are not UTF-8
      get none. */
  function ErrorReply(e: Error): string
  {
    match e
    case Syntax(correct) => "501 Syntax: " + correct + "\r\n"
    case UnrecognizedCommand => "500 Unrecognized command\r\n"
    case InvalidUtf8 => ""
  }

  /** `read_cmd_inner` over the bytes still to be read: each line is read
      through `take(limit)`, so a longer line is split at the limit. */
  function ReadCmdSpec(limit: nat, parse: LineParser, s: seq<byte>): (o: ReadOutcome)
    ensures |o.rest| <= |s|
    ensures o.command.Some? ==> |o.rest| < |s|
    decreases |s|
  {
    var raw := NextLine(Take(s, limit));
    if raw == [] then ReadOutcome(None, "", s)
    else
      var rest := s[|raw|..];
      match parse(TrimNewlines(raw))
      case Ok(cmd) => ReadOutcome(Some(cmd), "", rest)
      case Err(e) =>
        var o := ReadCmdSpec(limit, parse, rest);
        ReadOutcome(o.command, ErrorReply(e) + o.written, o.rest)
  }

  /** `read_cmd_inner`: one buffer, cleared after every line that is not
      a command. */
  method ReadCmd(conn: Connection, limit: nat, parse: LineParser) returns (r: Option<Command>)
    requires conn.Valid()
    modifies conn
    ensures conn.Valid()
    ensures var o := ReadCmdSpec(limit, parse, old(conn.Remaining()));
      r == o.command && conn.output == old(conn.output) + o.written && conn.Remaining() == o.rest
    ensures conn.tls == old(conn.tls) && conn.open == old(conn.open)
  {
    var buf: seq<byte> := [];
    while true
      invariant conn.Valid()
      invariant buf == []
      invariant var o0 := ReadCmdSpec(limit, parse, old(conn.Remaining()));
        var o := ReadCmdSpec(limit, parse, conn.Remaining());
        o0.command == o.command && o0.rest == o.rest && old(conn.output) + o0.written == conn.output + o.written
      invariant conn.tls == old(conn.tls) && conn.open == old(conn.open)
      decreases |conn.Remaining()|
    {
      ghost var before := conn.Remaining();
      var res;
      res, buf := conn.ReadLineLimit(buf, limit);
      if res.Err? {
        return None;
      }
      var parsed := parse(buf);
      SpecStep(limit, parse, before, buf, conn.Remaining());
      if parsed.Ok? {
        return Some(parsed.value);
      }
      ghost var out := conn.output;
      ghost var later := ReadCmdSpec(limit, parse, conn.Remaining()).written;
      match parsed.error {
        case InvalidUtf8 =>
          assert out + ErrorReply(parsed.error) == out;
        case Syntax(correct) =>
          conn.Write("501 Syntax: " + correct + "\r\n");
        case UnrecognizedCommand =>
          conn.Write("500 Unrecognized command\r\n");
      }
      assert conn.output == out + ErrorReply(parsed.error);
      AppendAssoc(out, ErrorReply(parsed.error), later);
      buf := [];
    }
  }

  /** One line of the input: what `ReadCmdSpec` does with it. */
  lemma SpecStep(limit: nat, parse: LineParser, s: seq<byte>, line: seq<byte>, rest: seq<byte>)
    requires NextLine(Take(s, limit)) != []
    requires line == TrimNewlines(NextLine(Take(s, limit))) && rest == s[|NextLine(Take(s, limit))|..]
    ensures |rest| < |s|
    ensures parse(line).Ok? ==>
      ReadCmdSpec(limit, parse, s) == ReadOutcome(Some(parse(line).value), "", rest)
    ensures parse(line).Err? ==>
      var o := ReadCmdSpec(limit, parse, rest);
      ReadCmdSpec(limit, parse, s) == ReadOutcome(o.command, ErrorReply(parse(line).error) + o.written, o.rest)
  {
  }

  // ---- properties of the parser ----

  /** A verb without spaces and its arguments: the line splits back into
      them. */
  lemma VerbLine(verb: string, args: string)
    requires ' ' !in verb
    ensures SplitOnceOr(verb + " " + args, ' ') == (verb, args)
  {
    SplitOnceOrJoined(verb, ' ', args);
  }

  /** A verb without spaces, a space and the arguments: the arguments are
      parsed for the verb the upper-cased word names. */
  lemma ParseLine(verb: string, args: string, isAddress: AddressCheck)
    requires ' ' !in verb
    ensures Parse(verb + " " + args, isAddress) == ParseArgs(VerbOf(Upper(verb)), args, isAddress)
  {
    VerbLine(verb, args);
  }

  /** The name of a known verb. */
  function Name(v: Verb): string
    requires v != Unknown
  {
    match v
    case HELO => "HELO"
    case EHLO => "EHLO"
    case MAIL => "MAIL"
    case RCPT => "RCPT"
    case DATA => "DATA"
    case RSET => "RSET"
    case NOOP => "NOOP"
    case QUIT => "QUIT"
    case BDAT => "BDAT"
    case STARTTLS => "STARTTLS"
    case AUTH => "AUTH"
  }

  /** Each verb's name names it, already in upper case. */
  lemma VerbOfName(v: Verb)
    requires v != Unknown
    ensures Upper(Name(v)) == Name(v) && VerbOf(Name(v)) == v
  {
    NameLetters(v);
    UpperSame(Name(v));
    NamedVerb(v);
  }

  lemma NameLetters(v: Verb)
    requires v != Unknown
    ensures forall i :: 0 <= i < |Name(v)| ==> 'A' <= Name(v)[i] <= 'Z'
  {
  }

  lemma NamedVerb(v: Verb)
    requires v != Unknown
    ensures VerbOf(Name(v)) == v
  {
  }

  /** Every command parsed was named by its verb, and a verb that names no
      command is `UnrecognizedCommand`, whatever follows it. */
  lemma ParsedByVerb(v: Verb, args: string, isAddress: AddressCheck)
    ensures var r := ParseArgs(v, args, isAddress);
      (r.Ok? ==> VerbOfCommand(r.value) == v) && (r == Err(UnrecognizedCommand) <==> v == Unknown)
  {
    var r := ParseArgs(v, args, isAddress);
    match v
    case MAIL => KindVerb(r, MAIL);
    case RCPT => KindVerb(r, RCPT);
    case BDAT => KindVerb(r, BDAT);
    case AUTH => KindVerb(r, AUTH);
    case _ =>
  }

  /** A command of the kind a verb parses has that verb. */
  lemma KindVerb(r: Result<Command, Error>, v: Verb)
    requires v == MAIL ==> r.Ok? ==> r.value.Mail?
    requires v == RCPT ==> r.Ok? ==> r.value.Rcpt?
    requires v == BDAT ==> r.Ok? ==> r.value.Bdat?
    requires v == AUTH ==> r.Ok? ==> r.value.Auth?
    requires v in {MAIL, RCPT, BDAT, AUTH}
    ensures r.Ok? ==> VerbOfCommand(r.value) == v
  {
  }

  /** The verb is matched in any ASCII case. */
  lemma VerbAnyCase(v: string, w: string, args: string, isAddress: AddressCheck)
    requires ' ' !in v && ' ' !in w && Upper(v) == Upper(w)
    ensures Parse(v + " " + args, isAddress) == Parse(w + " " + args, isAddress)
  {
    ParseLine(v, args, isAddress);
    ParseLine(w, args, isAddress);
  }

  /** A word without spaces alone on its line is a verb without
      arguments. */
  lemma VerbAlone(w: string, isAddress: AddressCheck)
    requires ' ' !in w
    ensures Parse(w, isAddress) == ParseArgs(VerbOf(Upper(w)), "", isAddress)
  {
  }

  /** HELO and EHLO, in any case, take everything after the first space
      as the domain, spaces included. */
  lemma HeloDomain(w: string, args: string, isAddress: AddressCheck)
    requires ' ' !in w && (Upper(w) == "HELO" || Upper(w) == "EHLO")
    ensures Parse(w + " " + args, isAddress) == if Upper(w) == "HELO" then Ok(Helo(args)) else Ok(Ehlo(args))
  {
    ParseLine(w, args, isAddress);
  }

  /** The mailbox is the text between the first `<` and the `>` after it,
      when the address check accepts it. */
  lemma MailboxOf(a: string, text: string, c: string, isAddress: AddressCheck)
    requires '<' !in a && '>' !in text
    ensures Mailbox(a + "<" + text + ">" + c, isAddress) == if isAddress(text) then Ok(Address(text)) else Err(())
  {
    var i := a + "<" + text + ">" + c;
    FindAfter(a, '<', text + ">" + c);
    assert i == a + ['<'] + (text + ">" + c);
    assert i[|a| + 1..] == text + ['>'] + c;
    FindAfter(text, '>', c);
    assert (text + ['>'] + c)[..|text|] == text;
  }

  /** Without a `<`, or without a `>` after it, there is no mailbox. */
  lemma NoMailbox(i: string, isAddress: AddressCheck)
    requires '<' !in i || (Find(i, '<').Some? && '>' !in i[Find(i, '<').value + 1..])
    ensures Mailbox(i, isAddress) == Err(())
  {
  }

  /** `MAIL FROM:<address>` and `RCPT TO:<address>`, with anything after
      the `>`: the address, or the command's usage text. */
  lemma MailAndRcptArgs(text: string, params: string, isAddress: AddressCheck)
    requires '>' !in text
    ensures ParseArgs(MAIL, "FROM:<" + text + ">" + params, isAddress) ==
      if isAddress(text) then Ok(Mail(Address(text))) else Err(Syntax(MAIL_USAGE))
    ensures ParseArgs(RCPT, "TO:<" + text + ">" + params, isAddress) ==
      if isAddress(text) then Ok(Rcpt(Address(text))) else Err(Syntax(RCPT_USAGE))
  {
    assert "FROM:<" + text + ">" + params == "FROM:" + "<" + text + ">" + params;
    assert "TO:<" + text + ">" + params == "TO:" + "<" + text + ">" + params;
    MailboxOf("FROM:", text, params, isAddress);
    MailboxOf("TO:", text, params, isAddress);
  }

  /** A size printed in decimal has no space in it. */
  lemma SizeText(n: nat)
    ensures ' ' !in NatToString(n)
  {
    var d := NatToString(n);
    NatToStringDigits(n);
    assert forall i :: 0 <= i < |d| ==> IsDigit(d[i]);
  }

  /** `BDAT <size>`: every size a `u64` holds is read back, as a chunk
      that is not the last; a larger one is a syntax error. */
  lemma BdatArgsSize(n: nat, isAddress: AddressCheck)
    ensures ParseArgs(BDAT, NatToString(n), isAddress) ==
      if n <= U64_MAX then Ok(Bdat(n, false)) else Err(Syntax(BDAT_USAGE))
  {
    NatToStringDigits(n);
    SizeText(n);
  }

  /** `BDAT <size> <word>`: the last chunk exactly when the rest of the
      line is LAST in some case. */
  lemma BdatArgsLast(n: nat, tail: string, isAddress: AddressCheck)
    requires n <= U64_MAX
    ensures ParseArgs(BDAT, NatToString(n) + " " + tail, isAddress) == Ok(Bdat(n, Upper(tail) == "LAST"))
  {
    var d := NatToString(n);
    ParseNatToString(n, U64_MAX);
    SizeText(n);
    assert d + " " + tail == d + [' '] + tail;
    SplitN2Joined(d, ' ', tail);
  }

  /** `AUTH <mechanism> [initial-response]`: PLAIN in any case, with the
      rest of the line, spaces and all, as the initial response. */
  lemma AuthArgsOf(mechanism: string, response: string, isAddress: AddressCheck)
    requires ' ' !in mechanism
    ensures ParseArgs(AUTH, mechanism, isAddress) ==
      if Upper(mechanism) == "PLAIN" then Ok(Auth(Plain, None)) else Err(Syntax(AUTH_USAGE))
    ensures ParseArgs(AUTH, mechanism + " " + response, isAddress) ==
      if Upper(mechanism) == "PLAIN" then Ok(Auth(Plain, Some(response))) else Err(Syntax(AUTH_USAGE))
  {
    assert mechanism + " " + response == mechanism + [' '] + response;
    SplitN2Joined(mechanism, ' ', response);
  }

  // ---- properties of reading ----

  /** A line, ended by CRLF, that fits in the limit is read whole. */
  lemma LineWithin(l: seq<byte>, rest: seq<byte>, limit: nat)
    requires LF !in l && (l == [] || !IsNewline(l[|l| - 1]))
    requires |l| + 2 <= limit
    ensures NextLine(Take(l + [CR, LF] + rest, limit)) == l + [CR, LF]
    ensures TrimNewlines(l + [CR, LF]) == l
    ensures (l + [CR, LF] + rest)[|l| + 2..] == rest
  {
    LineThenRest(l, rest);
    var s := l + [CR, LF] + rest;
    var t := Take(s, limit);
    assert t[..|l| + 1] == s[..|l| + 1];
    LineEnded(s, l + [CR, LF], limit);
  }

  /** A line longer than the limit is cut there: its first `limit` bytes
      are read as a line of their own and the remainder is read as the next
      line. */
  lemma LongLineSplits(l: seq<byte>, rest: seq<byte>, limit: nat)
    requires limit < |l| && LF !in l
    ensures NextLine(Take(l + rest, limit)) == l[..limit]
  {
    var s := l + rest;
    assert Take(s, limit) == l[..limit];
    assert LF !in l[..limit] by {
      assert forall x :: x in l[..limit] ==> x in l;
    }
    NoNewline(l[..limit]);
  }

  /** At the end of the input there is no command and nothing is
      written. */
  lemma ReadCmdEof(limit: nat, parse: LineParser)
    ensures ReadCmdSpec(limit, parse, []) == ReadOutcome(None, "", [])
  {
  }

  /** A line that parses is returned at once, and the input after it is
      left unread; one that does not is answered and reading goes on. */
  lemma ReadCmdLine(limit: nat, parse: LineParser, l: seq<byte>, rest: seq<byte>)
    requires LF !in l && (l == [] || !IsNewline(l[|l| - 1]))
    requires |l| + 2 <= limit
    ensures var o := ReadCmdSpec(limit, parse, rest);
      var r := ReadCmdSpec(limit, parse, l + [CR, LF] + rest);
      (parse(l).Ok? ==> r == ReadOutcome(Some(parse(l).value), "", rest)) &&
      (parse(l).Err? ==> r == ReadOutcome(o.command, ErrorReply(parse(l).error) + o.written, o.rest))
  {
    LineWithin(l, rest, limit);
  }

  /** With a line limit, the result is a command or the input ran out. */
  lemma {:induction false} ReadCmdEnds(limit: nat, parse: LineParser, s: seq<byte>)
    requires limit > 0
    ensures var o := ReadCmdSpec(limit, parse, s); o.command.None? ==> o.rest == []
    decreases |s|
  {
    var raw := NextLine(Take(s, limit));
    NextLineShape(Take(s, limit));
    if raw != [] {
      ReadCmdEnds(limit, parse, s[|raw|..]);
    }
  }

  /** An ASCII line without line breaks, encoded, is a line `ReadCmdLine`
      accepts, and decodes back to itself. */
  lemma AsciiLine(t: string)
    requires Utf8.IsAscii(t)
    requires '\n' !in t && (t == [] || (t[|t| - 1] != '\n' && t[|t| - 1] != '\r'))
    ensures var l := Utf8.Encode(t);
      LF !in l && (l == [] || !IsNewline(l[|l| - 1])) && |l| == |t| && Utf8.Decode(l) == Some(t)
  {
    Utf8.EncodeAscii(t);
    Utf8.AsciiByteInEncode(t, '\n');
    Utf8.DecodeEncode(t);
  }

  /** An ASCII line reads as its own text. */
  lemma TryFromAscii(t: string, isAddress: AddressCheck)
    requires Utf8.IsAscii(t)
    ensures TryFrom(Utf8.Encode(t), isAddress) == Parse(t, isAddress)
  {
    Utf8.DecodeEncode(t);
  }

  /** The two lines of the example, parsed. */
  lemma HeloWorldParses(isAddress: AddressCheck)
    ensures Parse("HELO world", isAddress) == Ok(Helo("world"))
  {
    assert "HELO world" == "HELO" + " " + "world";
    HeloDomain("HELO", "world", isAddress);
  }

  lemma QuitParses(isAddress: AddressCheck)
    ensures Parse("QUIT", isAddress) == Ok(Quit)
  {
    VerbAlone("QUIT", isAddress);
  }

  /** A line `ReadCmdLine` accepts that parses to `c`. */
  predicate CommandLine(parse: LineParser, l: seq<byte>, c: Command)
  {
    LF !in l && (l == [] || !IsNewline(l[|l| - 1])) && parse(l) == Ok(c)
  }

  /** The two lines of the example, as bytes. */
  lemma HeloWorldLine(isAddress: AddressCheck, h: string)
    requires h == "HELO world"
    ensures CommandLine(Parser(isAddress), Utf8.Encode(h), Helo("world")) && |Utf8.Encode(h)| == 10
  {
    AsciiLine(h);
    TryFromAscii(h, isAddress);
    HeloWorldParses(isAddress);
  }

  lemma QuitLine(isAddress: AddressCheck, q: string)
    requires q == "QUIT"
    ensures CommandLine(Parser(isAddress), Utf8.Encode(q), Quit) && |Utf8.Encode(q)| == 4
  {
    AsciiLine(q);
    TryFromAscii(q, isAddress);
    QuitParses(isAddress);
  }

  /** Two lines that parse, then the end of the input: each read returns
      one command and writes nothing. */
  lemma TwoCommands(limit: nat, parse: LineParser, l1: seq<byte>, l2: seq<byte>, c1: Command, c2: Command)
    requires CommandLine(parse, l1, c1) && |l1| + 2 <= limit
    requires CommandLine(parse, l2, c2) && |l2| + 2 <= limit
    ensures var first := ReadCmdSpec(limit, parse, l1 + [CR, LF] + l2 + [CR, LF]);
      first == ReadOutcome(Some(c1), "", l2 + [CR, LF]) &&
      ReadCmdSpec(limit, parse, first.rest) == ReadOutcome(Some(c2), "", []) &&
      ReadCmdSpec(limit, parse, []) == ReadOutcome(None, "", [])
  {
    var rest := l2 + [CR, LF];
    assert l1 + [CR, LF] + l2 + [CR, LF] == l1 + [CR, LF] + rest;
    ReadCmdLine(limit, parse, l1, rest);
    ReadCmdLine(limit, parse, l2, []);
    assert l2 + [CR, LF] + [] == rest;
  }

  /** `HELO world` then `QUIT`, then the end of the input: two commands
      and nothing written, for any line limit of at least 12 bytes. */
  lemma HeloThenQuit(limit: nat, isAddress: AddressCheck, h: string, q: string)
    requires limit >= 12 && h == "HELO world" && q == "QUIT"
    ensures var input := Utf8.Encode(h) + [CR, LF] + Utf8.Encode(q) + [CR, LF];
      var first := ReadCmdSpec(limit, Parser(isAddress), input);
      first == ReadOutcome(Some(Helo("world")), "", Utf8.Encode(q) + [CR, LF]) &&
      ReadCmdSpec(limit, Parser(isAddress), first.rest) == ReadOutcome(Some(Quit), "", [])
  {
    HeloWorldLine(isAddress, h);
    QuitLine(isAddress, q);
    TwoCommands(limit, Parser(isAddress), Utf8.Encode(h), Utf8.Encode(q), Helo("world"), Quit);
  }
}
