/** What the SMTP session promises, stated over `SmtpSession.HandleSpec`,
    the effect `Session.Execute` is proved to have, and over `Run`, the
    effect of a sequence of commands. */
module SmtpSessionProps {
  import opened Wrappers
  import opened Text
  import opened SmtpCommand
  import opened SmtpSession
  import SmtpEhlo
  import SmtpIo
  import Utf8
  import FlagSet
  import Sasl

  /** A fresh session: nothing known about the client. */
  const Fresh := Fields(None, None, None)

  /** The effect of several commands, each read while the read buffer is
      empty, up to the first that hands over a message or halts. */
  datatype Outcome = Outcome(fields: Fields, tls: bool, written: string, closes: bool, next: Next)

  function Run(cfg: Config, f: Fields, tls: bool, cmds: seq<Command>): (o: Outcome)
    ensures cmds == [] ==> o == Outcome(f, tls, "", false, Continue)
    decreases |cmds|
  {
    if cmds == [] then Outcome(f, tls, "", false, Continue)
    else
      var e := HandleSpec(cfg, f, tls, true, cmds[0]);
      if e.next.Continue? then
        var o := Run(cfg, e.fields, e.tls, cmds[1..]);
        Outcome(o.fields, o.tls, e.written + o.written, e.closes || o.closes, o.next)
      else Outcome(e.fields, e.tls, e.written, e.closes, e.next)
  }

  /** HELO and EHLO drop the transaction and record the client's domain;
      HELO answers 250 hello. */
  lemma HeloResets(cfg: Config, f: Fields, tls: bool, b: bool, domain: string)
    ensures var e := HandleSpec(cfg, f, tls, b, Helo(domain));
      e == Effect(Fields(None, Some(domain), f.identity), tls, HELLO, false, Continue)
    ensures var e := HandleSpec(cfg, f, tls, b, Ehlo(domain));
      e.fields == Fields(None, Some(domain), f.identity) && e.tls == tls && !e.closes && e.next == Continue
  {
  }

  /** The EHLO reply reads back as the server's host name, 8BITMIME,
      SMTPUTF8 and CHUNKING, STARTTLS exactly when TLS is configured and the
      connection is plaintext, no SIZE, and both AUTH mechanisms. */
  lemma EhloAdvertises(cfg: Config, f: Fields, tls: bool, b: bool, domain: string, rest: seq<byte>)
    requires SmtpEhlo.Readable(cfg.hostname)
    ensures var e := HandleSpec(cfg, f, tls, b, Ehlo(domain));
      var read := SmtpEhlo.ReadFrom(SmtpEhlo.Start, Utf8.Encode(e.written) + rest);
      read.rest == rest && read.result.Ok? &&
      var r := read.result.value;
      r.domain == cfg.hostname && r.size.None? && r.auth == {SmtpEhlo.LOGIN, SmtpEhlo.PLAIN} &&
      {SmtpEhlo.EIGHTBITMIME, SmtpEhlo.SMTPUTF8, SmtpEhlo.CHUNKING} <= r.extensions &&
      (SmtpEhlo.STARTTLS in r.extensions <==> cfg.tlsConfigured && !tls) &&
      SmtpEhlo.ENHANCEDSTATUSCODES !in r.extensions
  {
    var response := EhloResponse(cfg, tls);
    EhloResponseValid(cfg, tls);
    SmtpEhlo.RoundTrip(response, rest);
    EhloResponseFields(cfg, tls);
  }

  lemma EhloResponseValid(cfg: Config, tls: bool)
    ensures FlagSet.Valid(SmtpEhlo.ExtDecl, EhloResponse(cfg, tls).extensions)
    ensures FlagSet.Valid(SmtpEhlo.AuthDecl, EhloResponse(cfg, tls).auth)
  {
  }

  lemma EhloResponseFields(cfg: Config, tls: bool)
    ensures var r := EhloResponse(cfg, tls);
      r.domain == cfg.hostname && r.size.None? && r.auth == {SmtpEhlo.LOGIN, SmtpEhlo.PLAIN} &&
      {SmtpEhlo.EIGHTBITMIME, SmtpEhlo.SMTPUTF8, SmtpEhlo.CHUNKING} <= r.extensions &&
      (SmtpEhlo.STARTTLS in r.extensions <==> cfg.tlsConfigured && !tls) &&
      SmtpEhlo.ENHANCEDSTATUSCODES !in r.extensions
  {
  }

  /** MAIL: 503 before HELO, 501 inside a transaction, otherwise a new
      envelope with no recipients and 250. */
  lemma MailOpens(cfg: Config, f: Fields, tls: bool, b: bool, from: Address)
    ensures var e := HandleSpec(cfg, f, tls, b, Mail(from));
      e.tls == tls && !e.closes && e.next == Continue &&
      (if f.heloDomain.None? then e.fields == f && e.written == SAY_HELO_FIRST
       else if f.envelope.Some? then e.fields == f && e.written == TRANSACTION_STARTED
       else e.fields == f.(envelope := Some(Envelope(from, {}))) && e.written == OK)
  {
  }

  /** RCPT: 503 without a transaction; otherwise the recipient joins the
      set and 250 is sent. */
  lemma RcptAdds(cfg: Config, f: Fields, tls: bool, b: bool, to: Address)
    ensures var e := HandleSpec(cfg, f, tls, b, Rcpt(to));
      e.tls == tls && !e.closes && e.next == Continue &&
      (if f.envelope.None? then e.fields == f && e.written == NEED_MAIL
       else (e.written == OK && e.fields.envelope.Some? &&
             e.fields.envelope.value.from == f.envelope.value.from &&
             e.fields.envelope.value.recipients == f.envelope.value.recipients + {to} &&
             e.fields.heloDomain == f.heloDomain && e.fields.identity == f.identity))
  {
  }

  /** Naming a recipient twice changes nothing more than naming it once. */
  lemma RcptIdempotent(cfg: Config, f: Fields, tls: bool, b: bool, to: Address)
    ensures var e := HandleSpec(cfg, f, tls, b, Rcpt(to));
      HandleSpec(cfg, e.fields, tls, b, Rcpt(to)).fields == e.fields
  {
    var e := HandleSpec(cfg, f, tls, b, Rcpt(to));
    if f.envelope.Some? {
      var rs := f.envelope.value.recipients + {to};
      assert rs + {to} == rs;
    }
  }

  /** DATA and BDAT: 503 and nothing changes without a transaction; 554
      and the envelope is kept when nobody was named; otherwise the
      envelope is handed over and the session keeps none, DATA answering
      354 first. */
  lemma BodyHandsOver(cfg: Config, f: Fields, tls: bool, b: bool, size: nat, last: bool)
    ensures var d := HandleSpec(cfg, f, tls, b, Data);
      var e := HandleSpec(cfg, f, tls, b, Bdat(size, last));
      d.tls == tls && e.tls == tls && !d.closes && !e.closes &&
      (if f.envelope.None? then
         d == Effect(f, tls, NEED_MAIL, false, Continue) && e == Effect(f, tls, NEED_MAIL, false, Continue)
       else if f.envelope.value.recipients == {} then
         d == Effect(f, tls, NO_RECIPIENTS, false, Continue) && e == Effect(f, tls, NO_RECIPIENTS, false, Continue)
       else
         d == Effect(f.(envelope := None), tls, GO_AHEAD, false, Deliver(Incoming(f.envelope.value, DataBody))) &&
         e == Effect(f.(envelope := None), tls, "", false, Deliver(Incoming(f.envelope.value, BdatBody(size, last)))))
  {
  }

  /** RSET drops only the envelope; NOOP changes nothing; both answer 250. */
  lemma RsetNoop(cfg: Config, f: Fields, tls: bool, b: bool)
    ensures HandleSpec(cfg, f, tls, b, Rset) == Effect(f.(envelope := None), tls, OK, false, Continue)
    ensures HandleSpec(cfg, f, tls, b, Noop) == Effect(f, tls, OK, false, Continue)
  {
  }

  /** QUIT says goodbye, shuts the connection, and the loop goes on
      reading. */
  lemma QuitCloses(cfg: Config, f: Fields, tls: bool, b: bool)
    ensures HandleSpec(cfg, f, tls, b, Quit) == Effect(f, tls, SmtpIo.BYE, true, Continue)
  {
  }

  /** AUTH never changes a field: 503 inside a transaction (RFC 4954
      section 4), 503 once authenticated, otherwise 235. */
  lemma AuthAnswers(cfg: Config, f: Fields, tls: bool, b: bool, m: Sasl.MechanismKind, initial: Option<string>)
    ensures var e := HandleSpec(cfg, f, tls, b, Auth(m, initial));
      e.fields == f && e.tls == tls && !e.closes && e.next == Continue &&
      e.written == (if f.envelope.Some? then AUTH_IN_TRANSACTION
                    else if f.identity.Some? then ALREADY_AUTHENTICATED
                    else WELCOME)
  {
  }

  /** STARTTLS: 454 when TLS is on or not configured; otherwise 220 and
      then, when nothing was sent after the command, TLS and a session
      that forgets the domain, the identity and the transaction (RFC 3207
      section 4.2), or else an error. */
  lemma StarttlsResets(cfg: Config, f: Fields, tls: bool, b: bool)
    ensures var e := HandleSpec(cfg, f, tls, b, Starttls);
      !e.closes &&
      (if tls then e == Effect(f, tls, ALREADY_TLS, false, Continue)
       else if !cfg.tlsConfigured then e == Effect(f, tls, NO_TLS, false, Continue)
       else (e.written == TLS_GO_AHEAD &&
             (if b then e.fields == Fresh && e.tls && e.next == Continue
              else e.next == Halt(StarttlsRefused))))
  {
  }

  /** Across any run: a transaction only ever follows HELO or EHLO, no
      command sets an identity, nothing halts while the read buffer is
      empty, and a message handed over has a recipient while the session
      keeps no envelope. */
  lemma {:induction false} RunKeeps(cfg: Config, f: Fields, tls: bool, cmds: seq<Command>)
    requires InTransactionAfterHelo(f) && f.identity.None?
    ensures var o := Run(cfg, f, tls, cmds);
      InTransactionAfterHelo(o.fields) && o.fields.identity.None? &&
      (o.next.Deliver? ==> o.next.incoming.envelope.recipients != {} && o.fields.envelope.None?) &&
      !o.next.Halt?
    decreases |cmds|
  {
    if cmds != [] {
      HandleKeeps(cfg, f, tls, true, cmds[0]);
      var e := HandleSpec(cfg, f, tls, true, cmds[0]);
      if e.next.Continue? {
        RunKeeps(cfg, e.fields, e.tls, cmds[1..]);
      }
    }
  }

  /** The commands after a fresh greeting in a whole transaction: a
      recipient named twice is delivered to once. */
  lemma Transaction(cfg: Config)
    ensures Run(cfg, Fresh, false,
      [Helo("world"), Mail(Address("a@example.org")), Rcpt(Address("b@example.org")),
       Rcpt(Address("b@example.org")), Data]) ==
      Outcome(Fields(None, Some("world"), None), false,
        HELLO + OK + OK + OK + GO_AHEAD, false,
        Deliver(Incoming(Envelope(Address("a@example.org"), {Address("b@example.org")}), DataBody)))
  {
    var a := Address("a@example.org");
    var c := Address("b@example.org");
    var helo := Fields(None, Some("world"), None);
    var open := helo.(envelope := Some(Envelope(a, {})));
    var named := helo.(envelope := Some(Envelope(a, {c})));
    var delivered := Deliver(Incoming(Envelope(a, {c}), DataBody));
    var o4 := Outcome(helo, false, GO_AHEAD, false, delivered);
    assert Run(cfg, named, false, [Data]) == o4;
    assert {c} + {c} == {c} && {} + {c} == {c};
    RunStep(cfg, named, false, Rcpt(c), [Data], named);
    RunStep(cfg, open, false, Rcpt(c), [Rcpt(c), Data], named);
    RunStep(cfg, helo, false, Mail(a), [Rcpt(c), Rcpt(c), Data], open);
    RunStep(cfg, Fresh, false, Helo("world"), [Mail(a), Rcpt(c), Rcpt(c), Data], helo);
    Appended4(HELLO, OK, OK, OK, GO_AHEAD);
  }

  /** One command that lets the session go on, then the others. */
  lemma RunStep(cfg: Config, f: Fields, tls: bool, cmd: Command, cmds: seq<Command>, g: Fields)
    requires var e := HandleSpec(cfg, f, tls, true, cmd); e.next.Continue? && e.fields == g && e.tls == tls
    ensures var e := HandleSpec(cfg, f, tls, true, cmd); var o := Run(cfg, g, tls, cmds);
      Run(cfg, f, tls, [cmd] + cmds) == Outcome(o.fields, o.tls, e.written + o.written, e.closes || o.closes, o.next)
  {
    assert ([cmd] + cmds)[0] == cmd && ([cmd] + cmds)[1..] == cmds;
  }

  lemma Appended4(a: string, b: string, c: string, d: string, e: string)
    ensures a + (b + (c + (d + e))) == a + b + c + d + e
  {
  }
}
