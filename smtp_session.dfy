/** The SMTP server session (crates/smtp/src/server/session.rs): the mail
    transaction of RFC 5321 section 3.3 — HELO or EHLO, MAIL, RCPT, then
    DATA or BDAT — together with RSET, NOOP, QUIT, STARTTLS (RFC 3207) and
    AUTH (RFC 4954). */
module SmtpSession {
  import opened Wrappers
  import opened Text
  import opened Auth
  import opened SmtpCommand
  import Line
  import SmtpEhlo
  import SmtpIo

  /** `Envelope`: the sender and the set of recipients. */
  datatype Envelope = Envelope(from: Address, recipients: set<Address>)

  /** The parts of the server's `Context` the session looks at: its host
      name and whether a TLS configuration is present. The credential
      validator is not consulted by the session. */
  datatype Config = Config(hostname: string, tlsConfigured: bool)

  /** The session's fields that commands change. */
  datatype Fields = Fields(envelope: Option<Envelope>, heloDomain: Option<string>, identity: Option<Identity>)

  /** How a message body follows the envelope. */
  datatype Body = DataBody | BdatBody(size: nat, last: bool)

  /** `Incoming`: a completed envelope and the way its body is sent; the
      body is then read from the same connection by `SmtpData.DataReader`
      or `SmtpBdat.BdatReader`. */
  datatype Incoming = Incoming(envelope: Envelope, body: Body)

  /** The client sent bytes after STARTTLS, so the read buffer is not empty
      when the connection is upgraded: the assertion in `Connection::upgrade`
      fails and the session ends there. */
  datatype SessionError = StarttlsRefused

  /** What the command loop does after a command. */
  datatype Next = Continue | Deliver(incoming: Incoming) | Halt(error: SessionError)

  /** The effect of one command: the new fields, whether TLS is then in use,
      what was written, whether the connection was shut, and what follows. */
  datatype Effect = Effect(fields: Fields, tls: bool, written: string, closes: bool, next: Next)

  const HELLO := "250 hello\r\n"
  const OK := "250 ok\r\n"
  const SAY_HELO_FIRST := "503 say HELO first\r\n"
  const TRANSACTION_STARTED := "501 transaction already started\r\n"
  const NEED_MAIL := "503 need MAIL command\r\n"
  const NO_RECIPIENTS := "554 no recipients\r\n"
  const GO_AHEAD := "354 go ahead\r\n"
  const ALREADY_TLS := "454 Already using TLS\r\n"
  const NO_TLS := "454 TLS not available\r\n"
  const TLS_GO_AHEAD := "220 Go ahead\r\n"
  const AUTH_IN_TRANSACTION := "503 transaction already started\r\n"
  const ALREADY_AUTHENTICATED := "503 already authenticated\r\n"
  const WELCOME := "235 welcome\r\n"

  /** `greet`: 220 and the host name. */
  function Greeting(cfg: Config): string
  {
    "220 " + cfg.hostname + "\r\n"
  }

  /** The extensions `ehlo` advertises: 8BITMIME, SMTPUTF8 and CHUNKING, and
      STARTTLS when TLS is configured and not yet in use. */
  function EhloExtensions(cfg: Config, tls: bool): set<nat>
  {
    {SmtpEhlo.EIGHTBITMIME, SmtpEhlo.SMTPUTF8, SmtpEhlo.CHUNKING} +
    (if cfg.tlsConfigured && !tls then {SmtpEhlo.STARTTLS} else {})
  }

  /** The EHLO response: the server's own host name, no SIZE, every AUTH
      mechanism. */
  function EhloResponse(cfg: Config, tls: bool): SmtpEhlo.Response
  {
    SmtpEhlo.Response(cfg.hostname, EhloExtensions(cfg, tls), None, SmtpEhlo.AllAuth)
  }

  /** What `take_envelope` does: with no envelope, 503; with no recipients,
      554 and the envelope stays; otherwise the envelope is handed over and
      the session keeps none. */
  datatype Taken = Taken(envelope: Option<Envelope>, kept: Option<Envelope>, written: string)

  function TakeEnvelopeSpec(e: Option<Envelope>): Taken
  {
    match e
    case None => Taken(None, None, NEED_MAIL)
    case Some(env) => if env.recipients == {} then Taken(None, e, NO_RECIPIENTS) else Taken(e, None, "")
  }

  /** The `match cmd` of `next_message`, over the fields, whether TLS is in
      use, and whether the read buffer is empty when STARTTLS upgrades. */
  function HandleSpec(cfg: Config, f: Fields, tls: bool, bufferEmpty: bool, cmd: Command): Effect
  {
    match cmd
    case Helo(domain) => Effect(f.(envelope := None, heloDomain := Some(domain)), tls, HELLO, false, Continue)
    case Ehlo(domain) =>
      Effect(f.(envelope := None, heloDomain := Some(domain)), tls,
        SmtpEhlo.ResponseText(EhloResponse(cfg, tls)), false, Continue)
    case Mail(from) =>
      if f.heloDomain.None? then Effect(f, tls, SAY_HELO_FIRST, false, Continue)
      else if f.envelope.Some? then Effect(f, tls, TRANSACTION_STARTED, false, Continue)
      else Effect(f.(envelope := Some(Envelope(from, {}))), tls, OK, false, Continue)
    case Rcpt(to) =>
      if f.envelope.None? then Effect(f, tls, NEED_MAIL, false, Continue)
      else
        var env := f.envelope.value;
        Effect(f.(envelope := Some(env.(recipients := env.recipients + {to}))), tls, OK, false, Continue)
    case Data =>
      var t := TakeEnvelopeSpec(f.envelope);
      if t.envelope.Some? then
        Effect(f.(envelope := None), tls, t.written + GO_AHEAD, false, Deliver(Incoming(t.envelope.value, DataBody)))
      else Effect(f.(envelope := t.kept), tls, t.written, false, Continue)
    case Rset => Effect(f.(envelope := None), tls, OK, false, Continue)
    case Bdat(size, last) =>
      var t := TakeEnvelopeSpec(f.envelope);
      if t.envelope.Some? then
        Effect(f.(envelope := None), tls, t.written, false, Deliver(Incoming(t.envelope.value, BdatBody(size, last))))
      else Effect(f.(envelope := t.kept), tls, t.written, false, Continue)
    case Quit => Effect(f, tls, SmtpIo.BYE, true, Continue)
    case Noop => Effect(f, tls, OK, false, Continue)
    case Starttls =>
      if tls then Effect(f, tls, ALREADY_TLS, false, Continue)
      else if !cfg.tlsConfigured then Effect(f, tls, NO_TLS, false, Continue)
      else if !bufferEmpty then Effect(f, tls, TLS_GO_AHEAD, false, Halt(StarttlsRefused))
      else Effect(Fields(None, None, None), true, TLS_GO_AHEAD, false, Continue)
    case Auth(_, _) =>
      if f.envelope.Some? then Effect(f, tls, AUTH_IN_TRANSACTION, false, Continue)
      else if f.identity.Some? then Effect(f, tls, ALREADY_AUTHENTICATED, false, Continue)
      else Effect(f, tls, WELCOME, false, Continue)
  }

  /** A mail transaction is only ever open after HELO or EHLO. */
  predicate InTransactionAfterHelo(f: Fields)
  {
    f.envelope.Some? ==> f.heloDomain.Some?
  }

  /** `Session`: the connection, the envelope being built, the domain the
      client gave in HELO or EHLO, the authenticated identity, whether the
      greeting was sent, and the server's configuration. */
  class Session {
    const conn: Line.Connection
    const cfg: Config
    /** What `EmailAddress::from_str` accepts. */
    const isAddress: AddressCheck
    var envelope: Option<Envelope>
    var heloDomain: Option<string>
    var identity: Option<Identity>
    var greeted: bool

    ghost predicate Valid()
      reads this, conn
    {
      conn.Valid()
    }

    function State(): Fields
      reads this
    {
      Fields(envelope, heloDomain, identity)
    }

    /** `Session::new`: nothing known about the client yet. */
    constructor (input: seq<seq<byte>>, isTls: bool, config: Config, addressCheck: AddressCheck)
      requires forall i :: 0 <= i < |input| ==> input[i] != []
      ensures Valid() && fresh(conn)
      ensures State() == Fields(None, None, None) && !greeted && cfg == config && isAddress == addressCheck
      ensures conn.Remaining() == Line.Flatten(input) && conn.output == "" && conn.tls == isTls && conn.open
    {
      conn := new Line.Connection(input, isTls);
      cfg := config;
      isAddress := addressCheck;
      envelope := None;
      heloDomain := None;
      identity := None;
      greeted := false;
    }

    /** `reset_mail_txn`: the envelope is dropped, nothing else changes. */
    method ResetMailTxn()
      modifies this
      ensures State() == old(State()).(envelope := None) && greeted == old(greeted)
    {
      envelope := None;
    }

    /** `greet`. */
    method Greet()
      requires Valid()
      modifies conn
      ensures Valid()
      ensures conn.output == old(conn.output) + Greeting(cfg)
      ensures conn.buffered == old(conn.buffered) && conn.arrivals == old(conn.arrivals)
      ensures conn.tls == old(conn.tls) && conn.open == old(conn.open)
    {
      conn.Write("220 " + cfg.hostname + "\r\n");
    }

    /** Commands do not read from the connection; they write, may shut it,
        may switch it to TLS. */
    twostate predicate Performed(e: Effect, next: Next)
      reads this, conn
    {
      next == e.next && State() == e.fields && conn.tls == e.tls &&
      conn.output == old(conn.output) + e.written &&
      conn.buffered == old(conn.buffered) && conn.arrivals == old(conn.arrivals) &&
      conn.open == (old(conn.open) && !e.closes)
    }

    /** `take_envelope`. */
    method TakeEnvelope() returns (e: Option<Envelope>)
      requires Valid()
      modifies this, conn
      ensures Valid() && greeted == old(greeted)
      ensures var t := TakeEnvelopeSpec(old(envelope));
        e == t.envelope && State() == old(State()).(envelope := t.kept) &&
        conn.output == old(conn.output) + t.written
      ensures conn.buffered == old(conn.buffered) && conn.arrivals == old(conn.arrivals)
      ensures conn.tls == old(conn.tls) && conn.open == old(conn.open)
    {
      var taken := envelope;
      envelope := None;
      match taken {
        case None =>
          conn.Write(NEED_MAIL);
          return None;
        case Some(env) =>
          if env.recipients == {} {
            conn.Write(NO_RECIPIENTS);
            envelope := Some(env);
            return None;
          }
          return Some(env);
      }
    }

    /** `ehlo`. */
    method Ehlo(domain: string)
      requires Valid()
      modifies this, conn
      ensures Valid() && greeted == old(greeted)
      ensures Performed(HandleSpec(cfg, old(State()), old(conn.tls), old(conn.buffered) == [], Command.Ehlo(domain)), Continue)
    {
      ResetMailTxn();
      heloDomain := Some(domain);
      var extensions := {SmtpEhlo.EIGHTBITMIME, SmtpEhlo.SMTPUTF8, SmtpEhlo.CHUNKING};
      if cfg.tlsConfigured && !conn.tls {
        extensions := extensions + {SmtpEhlo.STARTTLS};
      }
      var response := SmtpEhlo.Response(cfg.hostname, extensions, None, SmtpEhlo.AllAuth);
      assert response == EhloResponse(cfg, conn.tls);
      var text := SmtpEhlo.FmtResponse(response);
      conn.Write(text);
    }

    /** `starttls`. */
    method Starttls() returns (next: Next)
      requires Valid()
      modifies this, conn
      ensures Valid() && greeted == old(greeted)
      ensures Performed(HandleSpec(cfg, old(State()), old(conn.tls), old(conn.buffered) == [], Command.Starttls), next)
    {
      if conn.tls {
        conn.Write(ALREADY_TLS);
        return Continue;
      }
      if !cfg.tlsConfigured {
        conn.Write(NO_TLS);
        return Continue;
      }
      conn.Write(TLS_GO_AHEAD);
      var up := conn.Upgrade();
      if up.Err? {
        return Halt(StarttlsRefused);
      }
      heloDomain := None;
      identity := None;
      ResetMailTxn();
      next := Continue;
    }

    /** One command of the loop of `next_message`. */
    method Execute(cmd: Command) returns (next: Next)
      requires Valid()
      modifies this, conn
      ensures Valid() && greeted == old(greeted)
      ensures Performed(HandleSpec(cfg, old(State()), old(conn.tls), old(conn.buffered) == [], cmd), next)
    {
      match cmd {
        case Helo(domain) =>
          ResetMailTxn();
          heloDomain := Some(domain);
          conn.Write(HELLO);
          next := Continue;
        case Ehlo(domain) =>
          Ehlo(domain);
          next := Continue;
        case Mail(from) =>
          if heloDomain.None? {
            conn.Write(SAY_HELO_FIRST);
          } else if envelope.Some? {
            conn.Write(TRANSACTION_STARTED);
          } else {
            envelope := Some(Envelope(from, {}));
            conn.Write(OK);
          }
          next := Continue;
        case Rcpt(to) =>
          match envelope {
            case None =>
              conn.Write(NEED_MAIL);
            case Some(env) =>
              envelope := Some(env.(recipients := env.recipients + {to}));
              conn.Write(OK);
          }
          next := Continue;
        case Data =>
          var taken := TakeEnvelope();
          next := Continue;
          if taken.Some? {
            conn.Write(GO_AHEAD);
            next := Deliver(Incoming(taken.value, DataBody));
          }
        case Rset =>
          ResetMailTxn();
          conn.Write(OK);
          next := Continue;
        case Bdat(size, last) =>
          var taken := TakeEnvelope();
          next := Continue;
          if taken.Some? {
            next := Deliver(Incoming(taken.value, BdatBody(size, last)));
          }
        case Quit =>
          SmtpIo.Bye(conn);
          next := Continue;
        case Noop =>
          conn.Write(OK);
          next := Continue;
        case Starttls =>
          next := Starttls();
        case Auth(_, _) =>
          if envelope.Some? {
            conn.Write(AUTH_IN_TRANSACTION);
          } else if identity.Some? {
            conn.Write(ALREADY_AUTHENTICATED);
          } else {
            conn.Write(WELCOME);
          }
          next := Continue;
      }
    }

    /** `next_message`: greet once, then read and carry out commands until
        one hands over a message, the input ends, or STARTTLS fails. */
    method NextMessage() returns (r: Result<Option<Incoming>, SessionError>)
      requires Valid()
      modifies this, conn
      ensures Valid() && greeted
      ensures old(conn.output) + (if old(greeted) then "" else Greeting(cfg)) <= conn.output
      ensures InTransactionAfterHelo(old(State())) ==> InTransactionAfterHelo(State())
      ensures old(identity).None? ==> identity.None?
      ensures r == Ok(None) ==> conn.Remaining() == []
      ensures r.Ok? && r.value.Some? ==> r.value.value.envelope.recipients != {} && envelope.None?
      ensures r.Err? ==> conn.buffered != []
    {
      if !greeted {
        Greet();
        greeted := true;
      }
      ghost var out1 := conn.output;
      ghost var f0 := State();
      while true
        invariant Valid() && greeted
        invariant out1 <= conn.output
        invariant InTransactionAfterHelo(f0) ==> InTransactionAfterHelo(State())
        invariant f0.identity.None? ==> identity.None?
        decreases |conn.Remaining()|
      {
        ghost var before := conn.Remaining();
        ghost var outBefore := conn.output;
        var cmd := ReadCmd(conn, LINE_LIMIT, Parser(isAddress));
        if cmd.None? {
          ReadCmdEnds(LINE_LIMIT, Parser(isAddress), before);
          return Ok(None);
        }
        ghost var f := State();
        ghost var tls := conn.tls;
        ghost var bufferEmpty := conn.buffered == [];
        ghost var outRead := conn.output;
        var next := Execute(cmd.value);
        HandleKeeps(cfg, f, tls, bufferEmpty, cmd.value);
        Extended(out1, outBefore, outRead, conn.output);
        match next {
          case Continue =>
          case Deliver(m) =>
            return Ok(Some(m));
          case Halt(e) =>
            return Err(e);
        }
      }
    }
  }

  lemma Extended(a: string, b: string, c: string, d: string)
    requires a <= b && b <= c && c <= d
    ensures a <= d
  {
  }

  /** What every command keeps: a transaction still follows HELO or EHLO,
      no identity is ever set, a message handed over has a recipient and
      the session keeps no envelope then, and a halt is a refused upgrade
      with bytes in the read buffer. */
  lemma HandleKeeps(cfg: Config, f: Fields, tls: bool, bufferEmpty: bool, cmd: Command)
    ensures var e := HandleSpec(cfg, f, tls, bufferEmpty, cmd);
      (InTransactionAfterHelo(f) ==> InTransactionAfterHelo(e.fields)) &&
      (e.fields.identity.Some? ==> e.fields.identity == f.identity) &&
      (e.next.Deliver? ==>
        (e.next.incoming.envelope.recipients != {} && e.fields.envelope.None? &&
         Some(e.next.incoming.envelope) == f.envelope)) &&
      (e.next.Halt? ==> !bufferEmpty)
  {
  }
}
