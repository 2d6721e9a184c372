/** The IMAP AUTHENTICATE exchange (crates/imap/src/authenticate.rs): the
    server sends base64 challenges as `+ <challenge>` lines and reads base64
    answers until the mechanism succeeds or fails; an initial response sent
    with the command answers the first challenge without it being sent. */
module ImapAuthenticate {
  import opened Wrappers
  import opened Text
  import opened Auth
  import opened Line
  import Utf8
  import Sasl
  import SaslPlain

  /** The base64 engine (standard alphabet, padded): the `base64` crate is
      not part of this model, so its encoder and decoder are given. */
  datatype Base64 = Base64(encode: seq<byte> -> string, decode: seq<byte> -> Option<seq<byte>>)

  /** `Error`: the input ended (`UnexpectedEof`, from `ReadLineError::Eof`)
      or the mechanism failed. */
  datatype Error = UnexpectedEof | Mechanism(error: Sasl.MechanismError)

  const EQUALS: byte := 0x3D

  /** The client's answer without its trailing CR and LF, decoded: a lone
      `=` is the empty answer, anything else is base64. */
  function DecodeAnswer(decode: seq<byte> -> Option<seq<byte>>, line: seq<byte>): (r: Option<seq<byte>>)
    ensures TrimNewlines(line) == [EQUALS] ==> r == Some([])
    ensures TrimNewlines(line) != [EQUALS] ==> r == decode(TrimNewlines(line))
  {
    var b := TrimNewlines(line);
    if b == [EQUALS] then Some([]) else decode(b)
  }

  /** `Authenticator::eat`: decode the answer, then give it to the
      mechanism; an answer that is not base64 is a `Decode` error. */
  function Eat(kind: Sasl.MechanismKind, validate: Validator, decode: seq<byte> -> Option<seq<byte>>, line: seq<byte>)
    : (r: Result<Sasl.Response, Sasl.MechanismError>)
    ensures DecodeAnswer(decode, line).None? ==> r == Err(Sasl.Decode)
    ensures DecodeAnswer(decode, line).Some? ==> r == SaslPlain.Eat(validate, DecodeAnswer(decode, line).value)
  {
    match DecodeAnswer(decode, line)
    case None => Err(Sasl.Decode)
    case Some(bytes) =>
      match kind
      case Plain => SaslPlain.Eat(validate, bytes)
  }

  /** The line that sends a challenge. */
  function ChallengeText(b64: Base64, challenge: seq<byte>): string
  {
    "+ " + b64.encode(challenge) + "\r\n"
  }

  /** The result of an exchange, what it wrote and the input it left. */
  datatype Outcome = Outcome(result: Result<Identity, Error>, written: string, rest: seq<byte>)

  /** The loop of `authenticate`, with the response still to use (if any),
      the challenge to send next and the bytes still to be read. */
  function Exchange(kind: Sasl.MechanismKind, validate: Validator, b64: Base64,
                    initial: Option<string>, challenge: seq<byte>, s: seq<byte>): (o: Outcome)
    ensures |o.rest| <= |s|
    decreases |s|, if initial.Some? then 1 else 0
  {
    if initial.Some? then
      match Eat(kind, validate, b64.decode, Utf8.Encode(initial.value))
      case Err(e) => Outcome(Err(Mechanism(e)), "", s)
      case Ok(Success(id)) => Outcome(Ok(id), "", s)
      case Ok(Proceed(next)) => Exchange(kind, validate, b64, None, next, s)
    else
      var prompt := ChallengeText(b64, challenge);
      if s == [] then Outcome(Err(UnexpectedEof), prompt, [])
      else
        NextLineShape(s);
        var raw := NextLine(s);
        var rest := s[|raw|..];
        match Eat(kind, validate, b64.decode, TrimNewlines(raw))
        case Err(e) => Outcome(Err(Mechanism(e)), prompt, rest)
        case Ok(Success(id)) => Outcome(Ok(id), prompt, rest)
        case Ok(Proceed(next)) =>
          var o := Exchange(kind, validate, b64, None, next, rest);
          Outcome(o.result, prompt + o.written, o.rest)
  }

  /** `authenticate`: start the mechanism, then answer challenges until it
      succeeds or fails. */
  method Authenticate(conn: Connection, mechanism: Sasl.MechanismKind, initialResponse: Option<string>,
                      validate: Validator, b64: Base64) returns (r: Result<Identity, Error>)
    requires conn.Valid()
    modifies conn
    ensures conn.Valid()
    ensures var o := Exchange(mechanism, validate, b64, initialResponse, SaslPlain.InitialChallenge, old(conn.Remaining()));
      r == o.result && conn.output == old(conn.output) + o.written && conn.Remaining() == o.rest
    ensures conn.tls == old(conn.tls) && conn.open == old(conn.open)
  {
    var initial := initialResponse;
    var challenge := SaslPlain.InitialChallenge;
    while true
      invariant conn.Valid()
      invariant var o0 := Exchange(mechanism, validate, b64, initialResponse, SaslPlain.InitialChallenge, old(conn.Remaining()));
        var o := Exchange(mechanism, validate, b64, initial, challenge, conn.Remaining());
        o0.result == o.result && o0.rest == o.rest && old(conn.output) + o0.written == conn.output + o.written
      invariant conn.tls == old(conn.tls) && conn.open == old(conn.open)
      decreases |conn.Remaining()|, if initial.Some? then 1 else 0
    {
      ghost var before := conn.Remaining();
      ghost var beforeOut := conn.output;
      var line;
      if initial.Some? {
        line := Utf8.Encode(initial.value);
        initial := None;
        var eaten := Eat(mechanism, validate, b64.decode, line);
        if eaten.Err? {
          return Err(Mechanism(eaten.error));
        }
        if eaten.value.Success? {
          return Ok(eaten.value.identity);
        }
        challenge := eaten.value.challenge;
      } else {
        // the three writes of `+ `, the encoded challenge and CRLF
        var prompt := ChallengeText(b64, challenge);
        conn.Write(prompt);
        var res;
        res, line := conn.ReadLine([]);
        if res.Err? {
          return Err(UnexpectedEof);
        }
        var eaten := Eat(mechanism, validate, b64.decode, line);
        ChallengeStep(mechanism, validate, b64, challenge, before, line, conn.Remaining());
        if eaten.Err? {
          return Err(Mechanism(eaten.error));
        }
        if eaten.value.Success? {
          return Ok(eaten.value.identity);
        }
        AppendAssoc(beforeOut, prompt, Exchange(mechanism, validate, b64, None, eaten.value.challenge, conn.Remaining()).written);
        challenge := eaten.value.challenge;
      }
    }
  }

  /** One challenge and its answer: what `Exchange` does with them. */
  lemma ChallengeStep(kind: Sasl.MechanismKind, validate: Validator, b64: Base64, challenge: seq<byte>,
                      s: seq<byte>, line: seq<byte>, rest: seq<byte>)
    requires s != [] && line == TrimNewlines(NextLine(s)) && rest == s[|NextLine(s)|..]
    ensures |rest| < |s|
    ensures var e := Eat(kind, validate, b64.decode, line);
      var o := Exchange(kind, validate, b64, None, challenge, s);
      var p := ChallengeText(b64, challenge);
      (e.Err? ==> o == Outcome(Err(Mechanism(e.error)), p, rest)) &&
      (e.Ok? && e.value.Success? ==> o == Outcome(Ok(e.value.identity), p, rest)) &&
      (e.Ok? && e.value.Proceed? ==>
        o == Outcome(Exchange(kind, validate, b64, None, e.value.challenge, rest).result,
          p + Exchange(kind, validate, b64, None, e.value.challenge, rest).written,
          Exchange(kind, validate, b64, None, e.value.challenge, rest).rest))
  {
    NextLineShape(s);
  }

  // ---- properties ----

  /** The exchange fails with `UnexpectedEof` only when it has read all of
      the input. */
  lemma {:induction false} ExchangeEof(kind: Sasl.MechanismKind, validate: Validator, b64: Base64,
                                       initial: Option<string>, challenge: seq<byte>, s: seq<byte>)
    ensures var o := Exchange(kind, validate, b64, initial, challenge, s);
      o.result == Err(UnexpectedEof) ==> o.rest == []
    decreases |s|, if initial.Some? then 1 else 0
  {
    // PLAIN answers in one round (`SaslPlain.Eat` never asks to proceed),
    // so the exchange ends after the first answer it reads.
    if initial.None? && s != [] {
      NextLineShape(s);
    }
  }

  /** A lone `=` is the empty answer, and PLAIN cannot get credentials out
      of it: the exchange fails with a decode error. */
  lemma EqualsIsEmpty(validate: Validator, decode: seq<byte> -> Option<seq<byte>>, line: seq<byte>)
    requires TrimNewlines(line) == [EQUALS]
    ensures DecodeAnswer(decode, line) == Some([])
    ensures Eat(Sasl.Plain, validate, decode, line) == Err(Sasl.Decode)
  {
    assert Utf8.Decode([]) == Some([]);
  }

  /** Trailing CR and LF bytes are not part of the answer. */
  lemma EatTrims(validate: Validator, decode: seq<byte> -> Option<seq<byte>>, l: seq<byte>)
    requires l == [] || !IsNewline(l[|l| - 1])
    ensures Eat(Sasl.Plain, validate, decode, l + [CR, LF]) == Eat(Sasl.Plain, validate, decode, l)
    ensures Eat(Sasl.Plain, validate, decode, l + [LF]) == Eat(Sasl.Plain, validate, decode, l)
  {
    TrimTerminators(l);
  }

  /** An answer that is not base64 fails the exchange, and the failure is
      answered BAD "failed to decode response". */
  lemma NotBase64(validate: Validator, decode: seq<byte> -> Option<seq<byte>>, line: seq<byte>)
    requires TrimNewlines(line) != [EQUALS] && decode(TrimNewlines(line)).None?
    ensures Eat(Sasl.Plain, validate, decode, line) == Err(Sasl.Decode)
  {
  }

  /** PLAIN never asks for a second round: every step succeeds or fails. */
  lemma PlainNeverProceeds(validate: Validator, decode: seq<byte> -> Option<seq<byte>>, line: seq<byte>)
    ensures var e := Eat(Sasl.Plain, validate, decode, line); e.Ok? ==> e.value.Success?
  {
  }

  /** With an initial response no challenge is sent and no input is read. */
  lemma InitialResponseSilent(validate: Validator, b64: Base64, text: string, challenge: seq<byte>, s: seq<byte>)
    ensures var o := Exchange(Sasl.Plain, validate, b64, Some(text), challenge, s);
      o.written == "" && o.rest == s
    ensures var o := Exchange(Sasl.Plain, validate, b64, Some(text), challenge, s);
      var e := Eat(Sasl.Plain, validate, b64.decode, Utf8.Encode(text));
      (e.Err? ==> o.result == Err(Mechanism(e.error))) && (e.Ok? ==> o.result == Ok(e.value.identity))
  {
  }

  /** Without one, the first challenge (empty for PLAIN) is sent, and when
      the input has ended the exchange fails with `UnexpectedEof`. */
  lemma EofAfterChallenge(validate: Validator, b64: Base64, challenge: seq<byte>)
    ensures Exchange(Sasl.Plain, validate, b64, None, challenge, []) ==
      Outcome(Err(UnexpectedEof), "+ " + b64.encode(challenge) + "\r\n", [])
  {
  }

  /** A base64 PLAIN message is decoded and its credentials validated. */
  lemma EatPlainMessage(validate: Validator, decode: seq<byte> -> Option<seq<byte>>, l: seq<byte>,
                        authzid: string, user: string, pass: string)
    requires l == [] || !IsNewline(l[|l| - 1])
    requires l != [EQUALS]
    requires decode(l) == Some(Utf8.Encode(SaslPlain.Message(authzid, user, pass)))
    requires '\0' !in authzid && '\0' !in user
    ensures Eat(Sasl.Plain, validate, decode, l) == match validate(Credentials(user, pass))
      case Ok(id) => Ok(Sasl.Success(id))
      case Err(e) => Err(Sasl.Validation(e))
  {
    TrimTerminators(l);
    SaslPlain.DecodeMessage(authzid, user, pass);
  }

  /** A client that answers the empty challenge with a PLAIN message in
      base64 is authenticated as the validator decides, after exactly one
      challenge line; the input after its answer is left unread. */
  lemma PlainLogin(validate: Validator, b64: Base64, l: seq<byte>, rest: seq<byte>,
                   authzid: string, user: string, pass: string)
    requires LF !in l && (l == [] || !IsNewline(l[|l| - 1])) && l != [EQUALS]
    requires b64.decode(l) == Some(Utf8.Encode(SaslPlain.Message(authzid, user, pass)))
    requires '\0' !in authzid && '\0' !in user
    ensures var o := Exchange(Sasl.Plain, validate, b64, None, SaslPlain.InitialChallenge, l + [CR, LF] + rest);
      o.written == ChallengeText(b64, []) && o.rest == rest &&
      o.result == match validate(Credentials(user, pass))
        case Ok(id) => Ok(id)
        case Err(e) => Err(Mechanism(Sasl.Validation(e)))
  {
    LineThenRest(l, rest);
    EatPlainMessage(validate, b64.decode, l, authzid, user, pass);
    ChallengeStep(Sasl.Plain, validate, b64, [], l + [CR, LF] + rest, l, rest);
  }
}
