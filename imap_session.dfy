/** The IMAP session (crates/imap/src/server/session.rs): the connection
    state of RFC 9051 section 3 (not authenticated, authenticated,
    selected, logout), the greeting, and what each command writes and does
    to the state. */
module ImapSession {
  import opened Wrappers
  import opened Text
  import opened Auth
  import opened Line
  import opened ImapProto
  import opened ImapCommand
  import ImapResponse
  import ImapServer
  import ImapAuthenticate
  import ImapCapability
  import ImapSelect
  import ImapList
  import ImapFlags
  import ImapSequence
  import ImapFetch
  import Sasl
  import SaslPlain
  import FlagSet

  /** `SelectedState`. */
  datatype SelectedState = SelectedState(mailbox: string, readOnly: bool, identity: Identity)

  /** `State`; a session starts in `NotAuthenticated`. */
  datatype State = NotAuthenticated | Authenticated(identity: Identity) | Selected(selected: SelectedState) | Logout

  /** `Context`: whether a TLS configuration is present, the credential
      validator, and the base64 engine the AUTHENTICATE exchange uses. */
  datatype Context = Context(tlsConfigured: bool, validate: Validator, b64: ImapAuthenticate.Base64)

  /** The work `next_op` hands to its caller, with the command's tag. */
  datatype Operation =
    | ExamineOp(tag: Tag, mailbox: string)
    | ListOp(tag: Tag, reference: string, mailbox: string)
    | FetchOp(tag: Tag, isUid: bool, sequenceSet: ImapSequence.SequenceSet, items: ImapFetch.Items, selected: SelectedState)

  /** Why `next_op` stops without an operation: the input ended, a command
      whose arm is `todo!()`, or the read buffer still held bytes when TLS
      was to start (the assertion in `Connection::upgrade`). */
  datatype Halt = UnexpectedEof | Todo(command: CommandName) | StarttlsRefused

  // ---- what is written ----

  /** `write_untagged`: `* <data>` and CRLF. */
  function Untagged(data: string): string
  {
    "* " + data + "\r\n"
  }

  /** `respond`: the tagged status line. */
  function Respond(r: ImapResponse.TaggedStatusResponse): string
  {
    ImapResponse.TaggedText(r)
  }

  /** `tag.into()`: a request that carries only its tag. */
  function Req(tag: Tag): Request<()>
  {
    Request(tag, ())
  }

  /** `Session::capabilities`: always IMAP4rev1, IMAP4rev2, AUTH=PLAIN and
      SASL-IR; on a plaintext connection also LOGINDISABLED, and STARTTLS
      when TLS is configured. */
  function CapabilitySet(tls: bool, tlsConfigured: bool): (caps: set<nat>)
    ensures FlagSet.Valid(ImapCapability.Decl, caps)
  {
    var base := {ImapCapability.IMAP4rev1, ImapCapability.IMAP4rev2, ImapCapability.AUTH_PLAIN, ImapCapability.SASL_IR};
    if tls then base
    else if tlsConfigured then base + {ImapCapability.LOGINDISABLED, ImapCapability.STARTTLS}
    else base + {ImapCapability.LOGINDISABLED}
  }

  /** `greet`: `* OK [CAPABILITY …] Server ready`. */
  function Greeting(caps: set<nat>): string
  {
    "* OK [" + ImapCapability.CapabilityText(caps) + "] Server ready\r\n"
  }

  /** The reply that starts TLS, as written in `handle_starttls`: tagged
      BAD. */
  function StarttlsReplyAsWritten(tag: Tag): (r: ImapResponse.TaggedStatusResponse)
  {
    RequestBad(Req(tag), "Begin TLS negotiation")
  }

  /** The reply that starts TLS as RFC 9051 section 6.2.1 has it: tagged
      OK, after which the client begins the TLS handshake. */
  function StarttlsReply(tag: Tag): (r: ImapResponse.TaggedStatusResponse)
    ensures r == ImapResponse.Tagged(tag, ImapResponse.Ok, "Begin TLS negotiation")
  {
    RequestOk(Req(tag), "Begin TLS negotiation")
  }

  // ---- one command ----

  /** How a state may change within `next_op`: logging in from
      `NotAuthenticated`, logging out from anywhere, or not at all. */
  predicate Advances(a: State, b: State)
  {
    a == b || b == State.Logout || (a == NotAuthenticated && b.Authenticated?)
  }

  /** What every command keeps: the state only advances, a command that
      logs out lets `next_op` go on (to return nothing), a FETCH operation
      carries the selected state, and only the end of the input stops
      `next_op` with `UnexpectedEof`. */
  predicate Keeps(st: State, e: Effect)
  {
    Advances(st, e.state) &&
    (e.state == State.Logout ==> e.step == Continue) &&
    (e.step.Yield? && e.step.op.FetchOp? ==> e.state.Selected? && e.step.op.selected == e.state.selected) &&
    (e.step == Stop(UnexpectedEof) ==> e.rest == [])
  }

  /** What one command does: whether `next_op` goes on with the next
      command, returns an operation or stops; the new state and TLS flag;
      what is written; the input left; whether the connection is shut. */
  datatype Step = Continue | Yield(op: Operation) | Stop(halt: Halt)
  datatype Effect = Effect(step: Step, state: State, tls: bool, written: string, rest: seq<byte>, closes: bool)

  /** A command that answers and changes nothing else. */
  function Reply(st: State, tls: bool, w: string, s: seq<byte>): Effect
  {
    Effect(Continue, st, tls, w, s, false)
  }

  /** `auth_success`: OK "Logged in", then the state holds the identity. */
  function AuthSuccess(tag: Tag, id: Identity, tls: bool, w: string, s: seq<byte>): Effect
  {
    Effect(Continue, Authenticated(id), tls, w + Respond(RequestOk(Req(tag), "Logged in")), s, false)
  }

  /** `handle_starttls`; `bufferEmpty` says whether the read buffer holds
      nothing beyond the command line. */
  function StarttlsSpec(ctx: Context, st: State, tls: bool, bufferEmpty: bool, tag: Tag, s: seq<byte>): (e: Effect)
    requires st != State.Logout
    ensures Keeps(st, e)
    ensures e.state == st && !e.closes && (e.tls != tls ==> !tls && ctx.tlsConfigured && bufferEmpty)
  {
    if tls then Reply(st, tls, Respond(IntoRes(Req(tag), ImapResponse.Bad, "Already using TLS")), s)
    else if !ctx.tlsConfigured then Reply(st, tls, Respond(RequestBad(Req(tag), "TLS not available")), s)
    else if !bufferEmpty then Effect(Stop(StarttlsRefused), st, tls, Respond(StarttlsReply(tag)), s, false)
    else Reply(st, true, Respond(StarttlsReply(tag)), s)
  }

  /** `handle_authenticate`. */
  function AuthenticateSpec(ctx: Context, st: State, tls: bool, tag: Tag, mechanism: Sasl.MechanismKind,
                            initial: Option<string>, s: seq<byte>): (e: Effect)
    requires st != State.Logout
    ensures |e.rest| <= |s|
    ensures Keeps(st, e)
    ensures e.state != State.Logout && !e.closes && e.tls == tls
  {
    if st != NotAuthenticated then Reply(st, tls, Respond(RequestBad(Req(tag), "Already authenticated")), s)
    else
      ImapAuthenticate.ExchangeEof(mechanism, ctx.validate, ctx.b64, initial, SaslPlain.InitialChallenge, s);
      var o := ImapAuthenticate.Exchange(mechanism, ctx.validate, ctx.b64, initial, SaslPlain.InitialChallenge, s);
      match o.result
      case Ok(id) => AuthSuccess(tag, id, tls, o.written, o.rest)
      case Err(UnexpectedEof) => Effect(Stop(UnexpectedEof), st, tls, o.written, o.rest, false)
      case Err(Mechanism(m)) => Reply(st, tls, o.written + Respond(ImapResponse.WithTag(ImapResponse.FromMechanism(m), tag)), o.rest)
  }

  /** `handle_login`. */
  function LoginSpec(ctx: Context, st: State, tls: bool, tag: Tag, username: string, password: string, s: seq<byte>): (e: Effect)
    requires st != State.Logout
    ensures Keeps(st, e)
    ensures e.state != State.Logout && !e.closes && e.tls == tls
  {
    if st != NotAuthenticated then Reply(st, tls, Respond(RequestBad(Req(tag), "Already authenticated")), s)
    else
      match ctx.validate(Credentials(username, password))
      case Ok(id) => AuthSuccess(tag, id, tls, "", s)
      case Err(e) => Reply(st, tls, Respond(ImapResponse.WithTag(ImapResponse.FromValidation(e), tag)), s)
  }

  /** `handle_capability`: the CAPABILITY line, then OK. */
  function CapabilitySpec(ctx: Context, st: State, tls: bool, tag: Tag, s: seq<byte>): Effect
  {
    Reply(st, tls, Untagged(ImapCapability.CapabilityText(CapabilitySet(tls, ctx.tlsConfigured)))
      + Respond(RequestOk(Req(tag), "CAPABILITY completed")), s)
  }

  /** `handle_logout`: BYE and OK, the state is `Logout`, the connection
      is shut. */
  function LogoutSpec(tls: bool, tag: Tag, s: seq<byte>): Effect
  {
    Effect(Continue, State.Logout, tls, Untagged("BYE") + Respond(RequestOk(Req(tag), "Logged out")), s, true)
  }

  /** `handle_enable`. */
  function EnableSpec(st: State, tls: bool, tag: Tag, caps: set<nat>, s: seq<byte>): Effect
  {
    if caps == {} then Reply(st, tls, Respond(RequestBad(Req(tag), "No capabilities specified")), s)
    else Reply(st, tls, Respond(RequestBad(Req(tag), "ENABLE not supported")), s)
  }

  /** The SELECT arm of `next_op`. */
  function SelectSpec(st: State, tls: bool, tag: Tag, s: seq<byte>): (e: Effect)
    requires st != State.Logout
    ensures Keeps(st, e)
    ensures e.state == st && !e.closes && e.tls == tls
  {
    if st.NotAuthenticated? then Reply(st, tls, Respond(RequestBad(Req(tag), "not authenticated")), s)
    else if st.Authenticated? then Effect(Stop(Todo(CommandName.Select)), st, tls, "", s, false)
    else Reply(st, tls, "", s)
  }

  /** The FETCH arm of `next_op`. */
  function FetchSpec(st: State, tls: bool, tag: Tag, isUid: bool, seqSet: ImapSequence.SequenceSet,
                     items: ImapFetch.Items, s: seq<byte>): (e: Effect)
    requires st != State.Logout
    ensures Keeps(st, e)
    ensures e.state == st && !e.closes && e.tls == tls
  {
    if st.Selected? then Effect(Yield(FetchOp(tag, isUid, seqSet, items, st.selected)), st, tls, "", s, false)
    else Reply(st, tls, Respond(RequestBad(Req(tag), "not in selected state")), s)
  }

  /** The `match command` of `next_op`, for a state other than `Logout`
      (`next_op` returns before it reads a command in that state). */
  function DispatchSpec(ctx: Context, st: State, tls: bool, bufferEmpty: bool, tc: TaggedCommand, s: seq<byte>): (e: Effect)
    requires st != State.Logout
    ensures |e.rest| <= |s|
    ensures Keeps(st, e)
    ensures (e.state == State.Logout <==> tc.command.Logout?) && (e.closes <==> tc.command.Logout?)
    ensures e.tls != tls ==> tc.command.Starttls? && !tls && ctx.tlsConfigured && bufferEmpty
  {
    var tag := tc.tag;
    match tc.command
    case Capability => CapabilitySpec(ctx, st, tls, tag, s)
    case Noop => Reply(st, tls, Respond(RequestOk(Req(tag), "NOOP completed")), s)
    case Logout => LogoutSpec(tls, tag, s)
    case Starttls => StarttlsSpec(ctx, st, tls, bufferEmpty, tag, s)
    case Authenticate(m, initial) => AuthenticateSpec(ctx, st, tls, tag, m, initial, s)
    case Login(u, p) => LoginSpec(ctx, st, tls, tag, u, p, s)
    case Enable(caps) => EnableSpec(st, tls, tag, caps, s)
    case Select(_) => SelectSpec(st, tls, tag, s)
    case Examine(m) => Effect(Yield(ExamineOp(tag, m)), st, tls, "", s, false)
    case List(ref, m) => Effect(Yield(ListOp(tag, ref, m)), st, tls, "", s, false)
    case Fetch(isUid, seqSet, items) => FetchSpec(st, tls, tag, isUid, seqSet, items, s)
    case _ => Effect(Stop(Todo(Name(tc.command))), st, tls, "", s, false)
  }

  /** One pass of the loop of `next_op` over the bytes `s` still to be
      read: `read_cmd`, then the command read, if any, as `DispatchSpec`
      says, its output after what `read_cmd` wrote. `bufferEmpty` is whether
      the read buffer is empty once the command has been read, which
      depends on how the input arrived. */
  function TurnSpec(ctx: Context, st: State, tls: bool, bufferEmpty: bool, s: seq<byte>): (e: Effect)
    requires st != State.Logout
    ensures Keeps(st, e)
    ensures |e.rest| < |s| || e.step.Stop?
  {
    var o := ImapServer.ReadCmdSpec(TryFromBytes, s);
    ImapServer.ReadCmdEnds(TryFromBytes, s);
    if o.command.None? then Effect(Stop(UnexpectedEof), st, tls, o.written, o.rest, false)
    else
      var d := DispatchSpec(ctx, st, tls, bufferEmpty, o.command.value, o.rest);
      Effect(d.step, d.state, d.tls, o.written + d.written, d.rest, d.closes)
  }

  /** The AUTHENTICATE arm of `DispatchSpec`. */
  lemma DispatchAuthenticate(ctx: Context, st: State, tls: bool, bufferEmpty: bool, tc: TaggedCommand, s: seq<byte>)
    requires st == NotAuthenticated && tc.command.Authenticate?
    ensures var o := ImapAuthenticate.Exchange(tc.command.mechanism, ctx.validate, ctx.b64, tc.command.initialResponse,
        SaslPlain.InitialChallenge, s);
      DispatchSpec(ctx, st, tls, bufferEmpty, tc, s) ==
        match o.result
        case Ok(id) => AuthSuccess(tc.tag, id, tls, o.written, o.rest)
        case Err(UnexpectedEof) => Effect(Stop(UnexpectedEof), st, tls, o.written, o.rest, false)
        case Err(Mechanism(m)) => Reply(st, tls, o.written + Respond(ImapResponse.WithTag(ImapResponse.FromMechanism(m), tc.tag)), o.rest)
  {
  }

  // ---- a completed operation ----

  /** `ops::select::Response`: a SELECT result before it is tagged. */
  datatype SelectResult = SelectResult(flags: seq<ImapFlags.Flag>, existing: ImapSelect.U32, uidValidity: ImapSelect.U32,
                                       nextUid: Uid, mailbox: ImapList.ListItem, readOnly: bool)

  /** `ops::select::Response::with_tag`. */
  function SelectWithTag(r: SelectResult, tag: Tag): (t: ImapSelect.SelectResponse)
    ensures t.tag == tag && t.readOnly == r.readOnly && t.mailbox == r.mailbox
  {
    ImapSelect.SelectResponse(r.flags, r.existing, r.uidValidity, r.nextUid, r.mailbox, tag, r.readOnly)
  }

  /** `ops::Response`. The LIST, FETCH and CREATE results are given as the
      text they are written as, which is not part of this model. */
  datatype OpResponse = SelectDone(result: SelectResult) | ListDone(text: string) | FetchDone(text: string) | CreateDone(text: string)

  /** `queue::Payload`: a tag and what the operation produced. */
  datatype Payload = Payload(tag: Tag, result: Result<OpResponse, ImapResponse.StatusResponse>)

  /** A SELECT result arrived while the state holds no identity: the
      `unreachable!()` in `consume_ready`. */
  datatype ConsumeError = NoIdentity

  /** `consume_ready`: the new state and what is written. */
  function ConsumeSpec(st: State, p: Payload): (r: (Result<(), ConsumeError>, State, string))
  {
    match p.result
    case Ok(SelectDone(res)) =>
      if st.Authenticated? then
        (Ok(()), Selected(SelectedState(res.mailbox.name, res.readOnly, st.identity)),
         ImapSelect.SelectText(SelectWithTag(res, p.tag)))
      else (Err(NoIdentity), st, "")
    case Ok(ListDone(t)) => (Ok(()), st, t)
    case Ok(FetchDone(t)) => (Ok(()), st, t)
    case Ok(CreateDone(t)) => (Ok(()), st, t)
    case Err(e) => (Ok(()), st, Respond(ImapResponse.WithTag(e, p.tag)))
  }

  // ---- the session ----

  /** `Session`: the connection, the state, whether the greeting has been
      sent, and the server's context. The queue of running operations is
      not part of this model. */
  class Session {
    const conn: Connection
    const ctx: Context
    var state: State
    var greeted: bool

    ghost predicate Valid()
      reads this, conn
    {
      conn.Valid()
    }

    /** `Server::accept` and `Session::new`: a new connection over the
        client's bytes, not authenticated, not yet greeted. */
    constructor (input: seq<seq<byte>>, isTls: bool, context: Context)
      requires forall i :: 0 <= i < |input| ==> input[i] != []
      ensures Valid() && fresh(conn)
      ensures state == NotAuthenticated && !greeted && ctx == context
      ensures conn.Remaining() == Flatten(input) && conn.output == "" && conn.tls == isTls && conn.open
    {
      conn := new Connection(input, isTls);
      ctx := context;
      state := NotAuthenticated;
      greeted := false;
    }

    function Capabilities(): set<nat>
      reads this, conn
    {
      CapabilitySet(conn.tls, ctx.tlsConfigured)
    }

    /** `greet`. */
    method Greet()
      requires Valid()
      modifies conn
      ensures Valid()
      ensures conn.output == old(conn.output) + Greeting(old(Capabilities()))
      ensures conn.buffered == old(conn.buffered) && conn.arrivals == old(conn.arrivals)
      ensures conn.tls == old(conn.tls) && conn.open == old(conn.open)
    {
      conn.Write(Greeting(Capabilities()));
    }

    /** The command's effect has been carried out: the step, the new
        state and TLS flag, what was written, the input left, and whether
        the connection was shut. */
    twostate predicate Performed(e: Effect, step: Step)
      reads this, conn
    {
      step == e.step && state == e.state && conn.tls == e.tls &&
      conn.output == old(conn.output) + e.written && conn.Remaining() == e.rest &&
      conn.open == (old(conn.open) && !e.closes)
    }

    /** The `match command` of `next_op`: one command, as `DispatchSpec`
        says; the read buffer is looked at as it is once the command has
        been read. */
    method Execute(tc: TaggedCommand) returns (step: Step)
      requires Valid() && state != State.Logout
      modifies this, conn
      ensures Valid() && greeted == old(greeted)
      ensures Performed(DispatchSpec(ctx, old(state), old(conn.tls), old(conn.buffered) == [], tc, old(conn.Remaining())), step)
    {
      match tc.command {
        case Capability => step := HandleCapability(tc);
        case Noop => step := HandleNoop(tc);
        case Logout => step := HandleLogout(tc);
        case Starttls => step := HandleStarttls(tc);
        case Authenticate(_, _) => step := HandleAuthenticate(tc);
        case Login(_, _) => step := HandleLogin(tc);
        case Enable(_) => step := HandleEnable(tc);
        case Select(_) => step := HandleSelect(tc);
        case Fetch(_, _, _) => step := HandleFetch(tc);
        case _ => step := HandleOther(tc);
      }
    }

    /** `handle_capability`: the CAPABILITY line, then OK. */
    method HandleCapability(tc: TaggedCommand) returns (step: Step)
      requires Valid() && state != State.Logout && tc.command.Capability?
      modifies conn
      ensures Valid()
      ensures Performed(DispatchSpec(ctx, old(state), old(conn.tls), old(conn.buffered) == [], tc, old(conn.Remaining())), step)
    {
      var line := Untagged(ImapCapability.CapabilityText(Capabilities()));
      var reply := Respond(RequestOk(Req(tc.tag), "CAPABILITY completed"));
      AppendAssoc(conn.output, line, reply);
      conn.Write(line);
      conn.Write(reply);
      step := Continue;
    }

    /** `handle_noop`. */
    method HandleNoop(tc: TaggedCommand) returns (step: Step)
      requires Valid() && state != State.Logout && tc.command.Noop?
      modifies conn
      ensures Valid()
      ensures Performed(DispatchSpec(ctx, old(state), old(conn.tls), old(conn.buffered) == [], tc, old(conn.Remaining())), step)
    {
      conn.Write(Respond(RequestOk(Req(tc.tag), "NOOP completed")));
      step := Continue;
    }

    /** `handle_logout`: the state becomes `Logout`, `* BYE` and OK are
        written and the connection is shut. */
    method HandleLogout(tc: TaggedCommand) returns (step: Step)
      requires Valid() && state != State.Logout && tc.command.Logout?
      modifies this, conn
      ensures Valid() && greeted == old(greeted)
      ensures Performed(DispatchSpec(ctx, old(state), old(conn.tls), old(conn.buffered) == [], tc, old(conn.Remaining())), step)
    {
      state := State.Logout;
      var bye := Untagged("BYE");
      var reply := Respond(RequestOk(Req(tc.tag), "Logged out"));
      AppendAssoc(conn.output, bye, reply);
      conn.Write(bye);
      conn.Write(reply);
      conn.Shutdown();
      step := Continue;
    }

    /** `handle_starttls`. */
    method HandleStarttls(tc: TaggedCommand) returns (step: Step)
      requires Valid() && state != State.Logout && tc.command.Starttls?
      modifies conn
      ensures Valid()
      ensures Performed(DispatchSpec(ctx, old(state), old(conn.tls), old(conn.buffered) == [], tc, old(conn.Remaining())), step)
    {
      if conn.tls {
        conn.Write(Respond(IntoRes(Req(tc.tag), ImapResponse.Bad, "Already using TLS")));
        return Continue;
      }
      if !ctx.tlsConfigured {
        conn.Write(Respond(RequestBad(Req(tc.tag), "TLS not available")));
        return Continue;
      }
      conn.Write(Respond(StarttlsReply(tc.tag)));
      var up := conn.Upgrade();
      if up.Err? {
        return Stop(StarttlsRefused);
      }
      step := Continue;
    }

    /** `handle_authenticate`. */
    method HandleAuthenticate(tc: TaggedCommand) returns (step: Step)
      requires Valid() && state != State.Logout && tc.command.Authenticate?
      modifies this, conn
      ensures Valid() && greeted == old(greeted)
      ensures Performed(DispatchSpec(ctx, old(state), old(conn.tls), old(conn.buffered) == [], tc, old(conn.Remaining())), step)
    {
      var tag := tc.tag;
      if state != NotAuthenticated {
        conn.Write(Respond(RequestBad(Req(tag), "Already authenticated")));
        return Continue;
      }
      ghost var out0 := conn.output;
      ghost var o := ImapAuthenticate.Exchange(tc.command.mechanism, ctx.validate, ctx.b64, tc.command.initialResponse,
        SaslPlain.InitialChallenge, conn.Remaining());
      DispatchAuthenticate(ctx, state, conn.tls, conn.buffered == [], tc, conn.Remaining());
      var r := ImapAuthenticate.Authenticate(conn, tc.command.mechanism, tc.command.initialResponse, ctx.validate, ctx.b64);
      match r {
        case Ok(id) =>
          var reply := Respond(RequestOk(Req(tag), "Logged in"));
          AppendAssoc(out0, o.written, reply);
          conn.Write(reply);
          state := Authenticated(id);
          step := Continue;
        case Err(UnexpectedEof) =>
          step := Stop(UnexpectedEof);
        case Err(Mechanism(m)) =>
          var reply := Respond(ImapResponse.WithTag(ImapResponse.FromMechanism(m), tag));
          AppendAssoc(out0, o.written, reply);
          conn.Write(reply);
          step := Continue;
      }
    }

    /** `handle_login`. */
    method HandleLogin(tc: TaggedCommand) returns (step: Step)
      requires Valid() && state != State.Logout && tc.command.Login?
      modifies this, conn
      ensures Valid() && greeted == old(greeted)
      ensures Performed(DispatchSpec(ctx, old(state), old(conn.tls), old(conn.buffered) == [], tc, old(conn.Remaining())), step)
    {
      var tag := tc.tag;
      step := Continue;
      if state != NotAuthenticated {
        conn.Write(Respond(RequestBad(Req(tag), "Already authenticated")));
        return;
      }
      match ctx.validate(Credentials(tc.command.username, tc.command.password)) {
        case Ok(id) =>
          conn.Write(Respond(RequestOk(Req(tag), "Logged in")));
          state := Authenticated(id);
        case Err(e) =>
          conn.Write(Respond(ImapResponse.WithTag(ImapResponse.FromValidation(e), tag)));
      }
    }

    /** `handle_enable`: always BAD. */
    method HandleEnable(tc: TaggedCommand) returns (step: Step)
      requires Valid() && state != State.Logout && tc.command.Enable?
      modifies conn
      ensures Valid()
      ensures Performed(DispatchSpec(ctx, old(state), old(conn.tls), old(conn.buffered) == [], tc, old(conn.Remaining())), step)
    {
      if tc.command.capabilities == {} {
        conn.Write(Respond(RequestBad(Req(tc.tag), "No capabilities specified")));
      } else {
        conn.Write(Respond(RequestBad(Req(tc.tag), "ENABLE not supported")));
      }
      step := Continue;
    }

    /** The SELECT arm of `next_op`. */
    method HandleSelect(tc: TaggedCommand) returns (step: Step)
      requires Valid() && state != State.Logout && tc.command.Select?
      modifies conn
      ensures Valid()
      ensures Performed(DispatchSpec(ctx, old(state), old(conn.tls), old(conn.buffered) == [], tc, old(conn.Remaining())), step)
    {
      if state.NotAuthenticated? {
        conn.Write(Respond(RequestBad(Req(tc.tag), "not authenticated")));
        step := Continue;
      } else if state.Authenticated? {
        step := Stop(Todo(CommandName.Select));
      } else {
        // the identity of the selected state is bound and nothing is written
        step := Continue;
      }
    }

    /** The EXAMINE and LIST arms of `next_op`, which hand the command on,
        and the arms that are `todo!()`. */
    method HandleOther(tc: TaggedCommand) returns (step: Step)
      requires Valid() && state != State.Logout
      requires !(tc.command.Capability? || tc.command.Noop? || tc.command.Logout? || tc.command.Starttls? ||
        tc.command.Authenticate? || tc.command.Login? || tc.command.Enable? || tc.command.Select? || tc.command.Fetch?)
      modifies conn
      ensures Valid()
      ensures Performed(DispatchSpec(ctx, old(state), old(conn.tls), old(conn.buffered) == [], tc, old(conn.Remaining())), step)
    {
      match tc.command {
        case Examine(m) => step := Yield(ExamineOp(tc.tag, m));
        case List(ref, m) => step := Yield(ListOp(tc.tag, ref, m));
        case _ => step := Stop(Todo(Name(tc.command)));
      }
    }

    /** The FETCH arm of `next_op`. */
    method HandleFetch(tc: TaggedCommand) returns (step: Step)
      requires Valid() && state != State.Logout && tc.command.Fetch?
      modifies conn
      ensures Valid()
      ensures Performed(DispatchSpec(ctx, old(state), old(conn.tls), old(conn.buffered) == [], tc, old(conn.Remaining())), step)
    {
      if state.Selected? {
        step := Yield(FetchOp(tc.tag, tc.command.isUid, tc.command.sequenceSet, tc.command.fetchItems, state.selected));
      } else {
        conn.Write(Respond(RequestBad(Req(tc.tag), "not in selected state")));
        step := Continue;
      }
    }

    /** `consume_ready`. */
    method ConsumeReady(p: Payload) returns (r: Result<(), ConsumeError>)
      requires Valid()
      modifies this, conn
      ensures Valid()
      ensures greeted == old(greeted)
      ensures var (res, st, w) := ConsumeSpec(old(state), p);
        r == res && state == st && conn.output == old(conn.output) + w
      ensures conn.buffered == old(conn.buffered) && conn.arrivals == old(conn.arrivals)
      ensures conn.tls == old(conn.tls) && conn.open == old(conn.open)
    {
      match p.result {
        case Ok(SelectDone(res)) =>
          if !state.Authenticated? {
            return Err(NoIdentity);
          }
          state := Selected(SelectedState(res.mailbox.name, res.readOnly, state.identity));
          conn.Write(ImapSelect.SelectText(SelectWithTag(res, p.tag)));
        case Ok(ListDone(t)) =>
          conn.Write(t);
        case Ok(FetchDone(t)) =>
          conn.Write(t);
        case Ok(CreateDone(t)) =>
          conn.Write(t);
        case Err(e) =>
          conn.Write(Respond(ImapResponse.WithTag(e, p.tag)));
      }
      r := Ok(());
    }

    /** `next_cmd`: the next command, or `UnexpectedEof` once the input has
        ended. The queue it drains first is not part of this model. */
    method NextCmd() returns (r: Result<TaggedCommand, Halt>)
      requires Valid()
      modifies conn
      ensures Valid()
      ensures var o := ImapServer.ReadCmdSpec(TryFromBytes, old(conn.Remaining()));
        (r.Ok? <==> o.command.Some?) && (r.Ok? ==> r.value == o.command.value) &&
        (r.Err? ==> r.error == UnexpectedEof && conn.Remaining() == []) &&
        conn.output == old(conn.output) + o.written && conn.Remaining() == o.rest
      ensures conn.tls == old(conn.tls) && conn.open == old(conn.open)
    {
      ghost var before := conn.Remaining();
      var tc := ImapServer.ReadCmd(conn);
      ImapServer.ReadCmdEnds(TryFromBytes, before);
      if tc.None? {
        return Err(UnexpectedEof);
      }
      r := Ok(tc.value);
    }

    /** One pass of the loop of `next_op`: read a command and carry it
        out. */
    method Turn() returns (step: Step)
      requires Valid() && state != State.Logout
      modifies this, conn
      ensures Valid() && greeted == old(greeted)
      ensures old(conn.output) <= conn.output
      ensures |conn.Remaining()| < |old(conn.Remaining())| || step.Stop?
      ensures Advances(old(state), state)
      ensures state == State.Logout ==> step == Continue
      ensures step.Yield? && step.op.FetchOp? ==> state.Selected? && step.op.selected == state.selected
      ensures step == Stop(UnexpectedEof) ==> conn.Remaining() == []
      ensures exists bufferEmpty: bool :: Performed(TurnSpec(ctx, old(state), old(conn.tls), bufferEmpty, old(conn.Remaining())), step)
    {
      ghost var outBefore := conn.output;
      ghost var s0 := conn.Remaining();
      var tc := NextCmd();
      if tc.Err? {
        step := Stop(tc.error);
        assert Performed(TurnSpec(ctx, old(state), old(conn.tls), true, s0), step);
        return;
      }
      ghost var outRead := conn.output;
      ghost var bufferEmpty := conn.buffered == [];
      ghost var o := ImapServer.ReadCmdSpec(TryFromBytes, s0);
      step := Execute(tc.value);
      Prefixed(outBefore, outRead, conn.output);
      ghost var d := DispatchSpec(ctx, old(state), old(conn.tls), bufferEmpty, tc.value, o.rest);
      AppendAssoc(outBefore, o.written, d.written);
      assert Performed(TurnSpec(ctx, old(state), old(conn.tls), bufferEmpty, s0), step);
    }

    /** `next_op`: greet once, then read and carry out commands until one
        is an operation, the session has logged out, or it stops. */
    method NextOp() returns (r: Result<Option<Operation>, Halt>)
      requires Valid()
      modifies this, conn
      ensures Valid() && greeted
      ensures !old(greeted) ==> old(conn.output) + Greeting(old(Capabilities())) <= conn.output
      ensures old(conn.output) <= conn.output
      ensures Advances(old(state), state)
      ensures r == Ok(None) <==> state == State.Logout
      ensures old(state) == State.Logout ==>
        r == Ok(None) && conn.Remaining() == old(conn.Remaining()) &&
        conn.output == old(conn.output) + (if old(greeted) then "" else Greeting(old(Capabilities())))
      ensures r.Ok? && r.value.Some? && r.value.value.FetchOp? ==> state.Selected? && r.value.value.selected == state.selected
      ensures r == Err(UnexpectedEof) ==> conn.Remaining() == []
    {
      ghost var out0 := conn.output;
      if !greeted {
        Greet();
        greeted := true;
      }
      ghost var out1 := conn.output;
      ghost var st0 := state;
      while true
        invariant Valid() && greeted
        invariant out1 <= conn.output
        invariant Advances(st0, state)
        invariant st0 == State.Logout ==> conn.output == out1 && conn.Remaining() == old(conn.Remaining())
        decreases |conn.Remaining()|
      {
        if state == State.Logout {
          return Ok(None);
        }
        ghost var outBefore := conn.output;
        var step := Turn();
        Prefixed(out1, outBefore, conn.output);
        match step {
          case Continue =>
          case Yield(op) =>
            return Ok(Some(op));
          case Stop(h) =>
            return Err(h);
        }
      }
    }
  }

  lemma Prefixed(a: string, b: string, c: string)
    requires a <= b && b <= c
    ensures a <= c
  {
  }
}
