/** What the IMAP session promises, stated over `DispatchSpec`: which
    commands each state refuses, what a login does, how LOGOUT and STARTTLS
    end, and which capabilities each kind of connection advertises. */
module ImapSessionProps {
  import opened Wrappers
  import opened Text
  import opened Auth
  import opened ImapProto
  import opened ImapCommand
  import opened ImapSession
  import ImapResponse
  import ImapCapability
  import ImapSelect
  import FlagSet

  /** The one tagged line `Respond` writes, seen as a response. */
  function Line(tag: Tag, status: ImapResponse.Status, message: string): string
  {
    ImapResponse.TaggedText(ImapResponse.Tagged(tag, status, message))
  }

  // ---- refused in the wrong state ----

  /** LOGIN once authenticated (or with a mailbox selected) is answered
      BAD "Already authenticated"; the credentials are not looked at and
      the state stays as it was. */
  lemma LoginRefusedOnceAuthenticated(ctx: Context, st: State, tls: bool, bufferEmpty: bool, tc: TaggedCommand, s: seq<byte>)
    requires st.Authenticated? || st.Selected?
    requires tc.command.Login?
    ensures DispatchSpec(ctx, st, tls, bufferEmpty, tc, s) ==
      Effect(Continue, st, tls, Line(tc.tag, ImapResponse.Bad, "Already authenticated"), s, false)
  {
  }

  /** AUTHENTICATE once authenticated is refused the same way, and no
      challenge is sent and no input read. */
  lemma AuthenticateRefusedOnceAuthenticated(ctx: Context, st: State, tls: bool, bufferEmpty: bool, tc: TaggedCommand, s: seq<byte>)
    requires st.Authenticated? || st.Selected?
    requires tc.command.Authenticate?
    ensures DispatchSpec(ctx, st, tls, bufferEmpty, tc, s) ==
      Effect(Continue, st, tls, Line(tc.tag, ImapResponse.Bad, "Already authenticated"), s, false)
  {
  }

  /** SELECT before logging in is answered BAD "not authenticated". */
  lemma SelectNeedsLogin(ctx: Context, tls: bool, bufferEmpty: bool, tc: TaggedCommand, s: seq<byte>)
    requires tc.command.Select?
    ensures DispatchSpec(ctx, NotAuthenticated, tls, bufferEmpty, tc, s) ==
      Effect(Continue, NotAuthenticated, tls, Line(tc.tag, ImapResponse.Bad, "not authenticated"), s, false)
  {
  }

  /** FETCH is handed on exactly when a mailbox is selected, with that
      selection; in every other state it is answered BAD "not in selected
      state" and the state stays. */
  lemma FetchNeedsSelection(ctx: Context, st: State, tls: bool, bufferEmpty: bool, tc: TaggedCommand, s: seq<byte>)
    requires st != State.Logout && tc.command.Fetch?
    ensures var e := DispatchSpec(ctx, st, tls, bufferEmpty, tc, s);
      e.state == st && e.rest == s && !e.closes &&
      (e.step.Yield? <==> st.Selected?) &&
      (st.Selected? ==> e.step == Yield(FetchOp(tc.tag, tc.command.isUid, tc.command.sequenceSet, tc.command.fetchItems, st.selected)) && e.written == "") &&
      (!st.Selected? ==> e.step == Continue && e.written == Line(tc.tag, ImapResponse.Bad, "not in selected state"))
  {
  }

  /** EXAMINE and LIST are handed on in every state, before anything is
      written. */
  lemma ExamineAndListAnyState(ctx: Context, st: State, tls: bool, bufferEmpty: bool, tc: TaggedCommand, s: seq<byte>)
    requires st != State.Logout && (tc.command.Examine? || tc.command.List?)
    ensures var e := DispatchSpec(ctx, st, tls, bufferEmpty, tc, s);
      e.step.Yield? && e.state == st && e.written == "" && e.rest == s &&
      (tc.command.Examine? ==> e.step.op == ExamineOp(tc.tag, tc.command.mailbox)) &&
      (tc.command.List? ==> e.step.op == ListOp(tc.tag, tc.command.reference, tc.command.mailbox))
  {
  }

  // ---- logging in ----

  /** LOGIN from `NotAuthenticated`: accepted credentials give OK "Logged
      in" and the validator's identity; rejected ones are answered with the
      mapped status (NO for wrong credentials, BAD for an unknown identity)
      and the state stays. The connection being plaintext, and so
      advertising LOGINDISABLED, does not matter. */
  lemma LoginOutcome(ctx: Context, tls: bool, bufferEmpty: bool, tc: TaggedCommand, s: seq<byte>)
    requires tc.command.Login?
    ensures var e := DispatchSpec(ctx, NotAuthenticated, tls, bufferEmpty, tc, s);
      var v := ctx.validate(Credentials(tc.command.username, tc.command.password));
      e.step == Continue && e.rest == s && e.tls == tls && !e.closes &&
      (v.Ok? ==> e.state == Authenticated(v.value) && e.written == Line(tc.tag, ImapResponse.Ok, "Logged in")) &&
      (v == Err(InvalidCredentials) ==> e.state == NotAuthenticated && e.written == Line(tc.tag, ImapResponse.No, "invalid credentials")) &&
      (v == Err(Unknown) ==> e.state == NotAuthenticated && e.written == Line(tc.tag, ImapResponse.Bad, "invalid identity"))
  {
  }

  /** A session is authenticated after a command exactly when that command
      was a LOGIN the validator accepted or an AUTHENTICATE exchange that
      succeeded, from `NotAuthenticated`. */
  lemma LoggedInOnlyByLogin(ctx: Context, st: State, tls: bool, bufferEmpty: bool, tc: TaggedCommand, s: seq<byte>)
    requires st != State.Logout
    requires !st.Authenticated?
    ensures var e := DispatchSpec(ctx, st, tls, bufferEmpty, tc, s);
      e.state.Authenticated? ==> st == NotAuthenticated && (tc.command.Login? || tc.command.Authenticate?)
  {
  }

  // ---- logging out ----

  /** LOGOUT in any state: `* BYE`, then OK "Logged out", the state
      `Logout` and the connection shut; `next_op` then returns nothing. */
  lemma LogoutAnyState(ctx: Context, st: State, tls: bool, bufferEmpty: bool, tc: TaggedCommand, s: seq<byte>)
    requires st != State.Logout && tc.command.Logout?
    ensures DispatchSpec(ctx, st, tls, bufferEmpty, tc, s) ==
      Effect(Continue, State.Logout, tls, "* BYE\r\n" + Line(tc.tag, ImapResponse.Ok, "Logged out"), s, true)
  {
  }

  // ---- STARTTLS ----

  /** STARTTLS over TLS is BAD "Already using TLS"; without a TLS
      configuration it is BAD "TLS not available"; otherwise the reply is
      written and TLS starts when the read buffer is empty, and the session
      stops when it is not. The state is kept in every case. */
  lemma StarttlsOutcome(ctx: Context, st: State, tls: bool, bufferEmpty: bool, tc: TaggedCommand, s: seq<byte>)
    requires st != State.Logout && tc.command.Starttls?
    ensures var e := DispatchSpec(ctx, st, tls, bufferEmpty, tc, s);
      e.state == st && e.rest == s && !e.closes &&
      (tls ==> e == Reply(st, tls, Line(tc.tag, ImapResponse.Bad, "Already using TLS"), s)) &&
      (!tls && !ctx.tlsConfigured ==> e == Reply(st, tls, Line(tc.tag, ImapResponse.Bad, "TLS not available"), s)) &&
      (!tls && ctx.tlsConfigured ==>
        e.written == Line(tc.tag, ImapResponse.Ok, "Begin TLS negotiation") &&
        e.tls == bufferEmpty && (e.step == Continue <==> bufferEmpty) &&
        (!bufferEmpty ==> e.step == Stop(StarttlsRefused)))
  {
  }

  /** The STARTTLS reply as written in `handle_starttls` is tagged BAD,
      telling the client the command failed just as the server starts
      TLS; the corrected reply is tagged OK. */
  lemma StarttlsReplyStatus(tag: Tag)
    ensures StarttlsReplyAsWritten(tag).status == ImapResponse.Bad
    ensures StarttlsReply(tag).status == ImapResponse.Ok
    ensures StarttlsReplyAsWritten(tag).message == StarttlsReply(tag).message
  {
  }

  // ---- ENABLE ----

  /** ENABLE is always answered BAD and changes nothing. */
  lemma EnableAlwaysBad(ctx: Context, st: State, tls: bool, bufferEmpty: bool, tc: TaggedCommand, s: seq<byte>)
    requires st != State.Logout && tc.command.Enable?
    ensures DispatchSpec(ctx, st, tls, bufferEmpty, tc, s) == Reply(st, tls,
      Line(tc.tag, ImapResponse.Bad, if tc.command.capabilities == {} then "No capabilities specified" else "ENABLE not supported"), s)
  {
  }

  // ---- capabilities ----

  /** The capabilities held by every connection, and those a plaintext
      one adds: LOGINDISABLED always, STARTTLS exactly when TLS is
      configured. A TLS connection advertises neither. */
  lemma CapabilitiesByConnection(tls: bool, tlsConfigured: bool)
    ensures var c := CapabilitySet(tls, tlsConfigured);
      ImapCapability.IMAP4rev1 in c && ImapCapability.IMAP4rev2 in c &&
      ImapCapability.AUTH_PLAIN in c && ImapCapability.SASL_IR in c && ImapCapability.IMAP4 !in c &&
      (ImapCapability.LOGINDISABLED in c <==> !tls) &&
      (ImapCapability.STARTTLS in c <==> !tls && tlsConfigured)
  {
  }

  /** The CAPABILITY command writes the untagged capability line, then OK;
      a client that splits that line at spaces gets back exactly the
      capabilities of the connection. */
  lemma CapabilityReply(ctx: Context, st: State, tls: bool, bufferEmpty: bool, tc: TaggedCommand, s: seq<byte>)
    requires st != State.Logout && tc.command.Capability?
    ensures var caps := CapabilitySet(tls, ctx.tlsConfigured);
      var text := ImapCapability.CapabilityText(caps);
      DispatchSpec(ctx, st, tls, bufferEmpty, tc, s) ==
        Reply(st, tls, "* " + text + "\r\n" + Line(tc.tag, ImapResponse.Ok, "CAPABILITY completed"), s) &&
      FlagSet.FromNames(ImapCapability.Decl, Split(text, ' ')) == caps
  {
    ImapCapability.CapabilityTextRoundTrip(CapabilitySet(tls, ctx.tlsConfigured));
  }

  // ---- a completed operation ----

  /** A SELECT result arriving in `Authenticated(id)` selects that mailbox
      with its read-only flag for the same identity, and writes the SELECT
      response under the operation's tag; in any other state it is the
      `unreachable!()` and nothing changes. */
  lemma SelectResultSelects(st: State, p: Payload)
    requires p.result.Ok? && p.result.value.SelectDone?
    ensures var (r, st2, w) := ConsumeSpec(st, p);
      var res := p.result.value.result;
      (st.Authenticated? ==>
        r.Ok? && st2 == Selected(SelectedState(res.mailbox.name, res.readOnly, st.identity)) &&
        w == ImapSelect.SelectText(SelectWithTag(res, p.tag)) && SelectWithTag(res, p.tag).tag == p.tag) &&
      (!st.Authenticated? ==> r == Err(NoIdentity) && st2 == st && w == "")
  {
  }

  /** Every other result leaves the state as it is; a failed operation is
      answered with its status under the operation's tag. */
  lemma OtherResultsKeepState(st: State, p: Payload)
    requires !(p.result.Ok? && p.result.value.SelectDone?)
    ensures var (r, st2, w) := ConsumeSpec(st, p);
      r.Ok? && st2 == st &&
      (p.result.Err? ==> w == Line(p.tag, p.result.error.status, p.result.error.message))
  {
  }
}
