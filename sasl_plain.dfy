/** The PLAIN mechanism (RFC 4616): one message
    `authzid NUL authcid NUL passwd`, validated in one step. */
module SaslPlain {
  import opened Wrappers
  import opened Text
  import opened Auth
  import Utf8
  import Sasl

  datatype DecodeError = Utf8Error | MissingParts

  /** `decode`: UTF-8, then `splitn(3, '\0')` with the first part (the
      authorization identity) skipped; the password is everything after the
      second NUL, further NULs included. */
  function Decode(data: seq<byte>): Result<Credentials, DecodeError>
  {
    match Utf8.Decode(data)
    case None => Err(Utf8Error)
    case Some(s) =>
      if '\0' !in s then Err(MissingParts)
      else
        var (_, rest) := SplitOnceOr(s, '\0');
        if '\0' !in rest then Err(MissingParts)
        else
          var (user, pass) := SplitOnceOr(rest, '\0');
          Ok(Credentials(user, pass))
  }

  /** The message a client sends for these parts. */
  function Message(authzid: string, user: string, pass: string): string
  {
    authzid + "\0" + user + "\0" + pass
  }

  /** Decoding a well-formed message gives back its user name and password,
      whatever the authorization identity. */
  lemma DecodeMessage(authzid: string, user: string, pass: string)
    requires '\0' !in authzid && '\0' !in user
    ensures Decode(Utf8.Encode(Message(authzid, user, pass))) == Ok(Credentials(user, pass))
  {
    var s := Message(authzid, user, pass);
    Utf8.DecodeEncode(s);
    assert s == authzid + ['\0'] + (user + "\0" + pass);
    SplitOnceOrJoined(authzid, '\0', user + "\0" + pass);
    assert user + "\0" + pass == user + ['\0'] + pass;
    SplitOnceOrJoined(user, '\0', pass);
  }

  /** Well-formed UTF-8 with fewer than two NULs is missing a part, and every
      text with two NULs decodes. */
  lemma DecodeMissingParts(s: string)
    ensures Decode(Utf8.Encode(s)) == Err(MissingParts) <==>
      ('\0' !in s || '\0' !in SplitOnceOr(s, '\0').1)
    ensures Decode(Utf8.Encode(s)).Ok? <==>
      ('\0' in s && '\0' in SplitOnceOr(s, '\0').1)
  {
    Utf8.DecodeEncode(s);
  }

  /** `Plain::eat`: decode the credentials, validate them, succeed with the
      identity. Every decode failure is a `Decode` mechanism error. */
  function Eat(validate: Validator, data: seq<byte>): (r: Result<Sasl.Response, Sasl.MechanismError>)
    ensures r.Ok? ==> r.value.Success?
    ensures Decode(data).Err? ==> r == Err(Sasl.Decode)
    ensures Decode(data).Ok? ==>
      match validate(Decode(data).value)
      case Ok(id) => r == Ok(Sasl.Success(id))
      case Err(e) => r == Err(Sasl.Validation(e))
  {
    match Decode(data)
    case Err(_) => Err(Sasl.Decode)
    case Ok(creds) =>
      match validate(creds)
      case Ok(id) => Ok(Sasl.Success(id))
      case Err(e) => Err(Sasl.Validation(e))
  }

  /** `Plain::init`: the first challenge is empty. */
  const InitialChallenge: seq<byte> := []
}
