/** IMAP status responses (RFC 9051 section 7.1): a status, a
    human-readable text and, once tagged, the tag of the command they
    complete. */
module ImapResponse {
  import opened Text
  import opened Wrappers
  import opened ImapProto
  import Auth
  import Sasl

  datatype Status = Ok | No | Bad

  function StatusText(s: Status): string
  {
    match s
    case Ok => "OK"
    case No => "NO"
    case Bad => "BAD"
  }

  datatype StatusResponse = StatusResponse(status: Status, message: string)

  datatype TaggedStatusResponse = Tagged(tag: Tag, status: Status, message: string)

  /** `with_tag`: keeps status and text, adds the tag. */
  function WithTag(r: StatusResponse, tag: Tag): (t: TaggedStatusResponse)
    ensures t.tag == tag && t.status == r.status && t.message == r.message
  {
    Tagged(tag, r.status, r.message)
  }

  /** The line a tagged response is written as: `tag STATUS text` and CRLF. */
  function TaggedText(r: TaggedStatusResponse): string
  {
    r.tag + " " + StatusText(r.status) + " " + r.message + "\r\n"
  }

  /** A reader of status lines, independent of the printer: tag up to the
      first space, status up to the next, text up to the CRLF. */
  function ParseTaggedText(line: string): Option<TaggedStatusResponse>
  {
    if |line| < 2 || line[|line| - 2..] != "\r\n" then None
    else
      var (tag, rest) := SplitOnceOr(line[..|line| - 2], ' ');
      var (st, msg) := SplitOnceOr(rest, ' ');
      var status :=
        if st == "OK" then Some(Status.Ok) else if st == "NO" then Some(No)
        else if st == "BAD" then Some(Bad) else None;
      if status.None? then None else Some(Tagged(tag, status.value, msg))
  }

  /** Every response whose tag holds no space is read back from its line. */
  lemma ParseTaggedTextRoundTrip(r: TaggedStatusResponse)
    requires ' ' !in r.tag
    ensures ParseTaggedText(TaggedText(r)) == Some(r)
  {
    var line := TaggedText(r);
    var st := StatusText(r.status);
    var rest := st + [' '] + r.message;
    TaggedTextParts(r);
    assert ' ' !in st;
    SplitOnceOrJoined(st, ' ', r.message);
    match r.status
    case Ok =>
    case No =>
    case Bad =>
  }

  lemma TaggedTextParts(r: TaggedStatusResponse)
    requires ' ' !in r.tag
    ensures var line := TaggedText(r);
      |line| >= 2 && line[|line| - 2..] == "\r\n" &&
      SplitOnceOr(line[..|line| - 2], ' ') == (r.tag, StatusText(r.status) + [' '] + r.message)
  {
    var line := TaggedText(r);
    var rest := StatusText(r.status) + [' '] + r.message;
    var body := r.tag + [' '] + rest;
    assert line == body + "\r\n";
    assert line[..|line| - 2] == body && line[|line| - 2..] == "\r\n";
    SplitOnceOrJoined(r.tag, ' ', rest);
  }

  /** `From<ValidationError>`. */
  function FromValidation(e: Auth.ValidationError): StatusResponse
  {
    match e
    case InvalidCredentials => StatusResponse(No, "invalid credentials")
    case Unknown => StatusResponse(Bad, "invalid identity")
  }

  /** `From<MechanismError>`. */
  function FromMechanism(e: Sasl.MechanismError): StatusResponse
  {
    match e
    case Decode => StatusResponse(Bad, "failed to decode response")
    case Validation(v) => FromValidation(v)
  }

  /** Only rejected credentials are answered NO; every other failure of an
      authentication is BAD, and none is OK. */
  lemma FromMechanismStatus(e: Sasl.MechanismError)
    ensures FromMechanism(e).status == No <==> e == Sasl.Validation(Auth.InvalidCredentials)
    ensures FromMechanism(e).status != Status.Ok
  {
  }

  /** The example response `A0001 OK Nice`. */
  lemma NiceExample()
    ensures TaggedText(Tagged("A0001", Status.Ok, "Nice")) == "A0001 OK Nice\r\n"
  {
  }
}
