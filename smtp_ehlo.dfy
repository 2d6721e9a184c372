/** The reply to EHLO (RFC 5321 section 4.1.1.1): the server's domain on the
    first line, then one line per service extension, every line a `250`
    reply line, and only the last one marked with a space after the code
    instead of a hyphen (crates/smtp/src/ehlo.rs). */
module SmtpEhlo {
  import opened Wrappers
  import opened Text
  import opened FlagSet
  import Utf8
  import Line
  import SmtpCommand

  // ---- the two flag sets ----

  /** `Auth`: the SASL mechanisms advertised on the AUTH line. */
  const AuthDecl: seq<string> := ["LOGIN", "PLAIN"]

  const LOGIN: nat := 0
  const PLAIN: nat := 1

  /** `Extensions`: the keywords advertised one per line. */
  const ExtDecl: seq<string> := ["8BITMIME", "SMTPUTF8", "CHUNKING", "STARTTLS", "ENHANCEDSTATUSCODES"]

  const EIGHTBITMIME: nat := 0
  const SMTPUTF8: nat := 1
  const CHUNKING: nat := 2
  const STARTTLS: nat := 3
  const ENHANCEDSTATUSCODES: nat := 4

  const AllAuth: set<nat> := {LOGIN, PLAIN}
  const AllExt: set<nat> := {0, 1, 2, 3, 4}

  /** Names are declared once, hold no space and are none of the keywords
      the reader treats on their own. */
  lemma DeclsWellFormed()
    ensures Distinct(AuthDecl) && Distinct(ExtDecl)
    ensures forall i :: 0 <= i < |AuthDecl| ==> ' ' !in AuthDecl[i]
    ensures forall i :: 0 <= i < |ExtDecl| ==> ' ' !in ExtDecl[i] && ExtDecl[i] != "SIZE" && ExtDecl[i] != "AUTH"
  {
  }

  /** `Response`: the domain, the extensions, the largest message size
      (RFC 1870) when there is one, and the AUTH mechanisms. */
  datatype Response = Response(domain: string, extensions: set<nat>, size: Option<nat>, auth: set<nat>)

  // ---- Display ----

  /** `Display for Auth`: `AUTH`, then a space and the name of each
      mechanism held, in declaration order. */
  function AuthText(auth: set<nat>): string
  {
    Join(["AUTH"] + Names(AuthDecl, auth), " ")
  }

  method FmtAuth(auth: set<nat>) returns (out: string)
    ensures out == AuthText(auth)
  {
    var names := Names(AuthDecl, auth);
    out := "AUTH";
    var i := 0;
    while i < |names|
      invariant 0 <= i <= |names|
      invariant out == Join(["AUTH"] + names[..i], " ")
    {
      JoinSnoc(["AUTH"] + names[..i], names[i], " ");
      assert ["AUTH"] + names[..i + 1] == (["AUTH"] + names[..i]) + [names[i]];
      out := out + " " + names[i];
      i := i + 1;
    }
    assert names[..i] == names;
  }

  /** The SIZE line, present only when a size is given. */
  function SizeLines(size: Option<nat>): seq<string>
  {
    match size
    case None => []
    case Some(n) => ["SIZE " + NatToString(n)]
  }

  /** The text of the lines after the domain: the extension keywords in
      declaration order, then SIZE, then the AUTH line, which is always
      there and always last. */
  function ExtensionLines(r: Response): (ls: seq<string>)
    ensures |ls| >= 1 && ls[|ls| - 1] == AuthText(r.auth)
    ensures ls[..|ls| - 1] == Names(ExtDecl, r.extensions) + SizeLines(r.size)
  {
    Names(ExtDecl, r.extensions) + SizeLines(r.size) + [AuthText(r.auth)]
  }

  /** One reply line: code 250, a hyphen when more lines follow or a space
      on the last one, the text and CRLF. */
  function ReplyLine(last: bool, text: string): string
  {
    (if last then "250 " else "250-") + text + "\r\n"
  }

  /** The texts as reply lines: every one is marked as followed by more
      except the last. */
  function Prefixed(ls: seq<string>): (ps: seq<string>)
    ensures |ps| == |ls|
    ensures forall k :: 0 <= k < |ls| ==> ps[k] == ReplyLine(k == |ls| - 1, ls[k])
  {
    if ls == [] then [] else [ReplyLine(|ls| == 1, ls[0])] + Prefixed(ls[1..])
  }

  /** The text of every line of the reply, the domain first. */
  function AllLines(r: Response): (ls: seq<string>)
    ensures |ls| >= 2 && ls[0] == r.domain && ls[1..] == ExtensionLines(r)
  {
    [r.domain] + ExtensionLines(r)
  }

  /** What `Display for Response` writes. */
  function ResponseText(r: Response): string
  {
    Concat(Prefixed(AllLines(r)))
  }

  /** `Display for Response`: the domain line, then the extension
      keywords, the SIZE line and the AUTH line. */
  method FmtResponse(r: Response) returns (out: string)
    ensures out == ResponseText(r)
  {
    var auth := FmtAuth(r.auth);
    var lines := Names(ExtDecl, r.extensions);
    match r.size {
      case None =>
      case Some(n) => lines := lines + ["SIZE " + NatToString(n)];
    }
    lines := lines + [auth];
    assert [r.domain] + lines == AllLines(r);
    out := FmtLines(r.domain, lines);
  }

  /** The peekable walk over the lines after the domain line: `250-` while
      another line follows, `250 ` on the last. */
  method FmtLines(domain: string, lines: seq<string>) returns (out: string)
    requires |lines| >= 1
    ensures out == Concat(Prefixed([domain] + lines))
  {
    ghost var all := [domain] + lines;
    out := "250-" + domain + "\r\n";
    assert Prefixed(all)[..1] == [Prefixed(all)[0]];
    var i := 0;
    while i < |lines|
      invariant 0 <= i <= |lines|
      invariant out == Concat(Prefixed(all)[..i + 1])
    {
      PrefixedStep(all, i);
      assert all[i + 1] == lines[i];
      var more := i + 1 < |lines|;
      out := out + ReplyLine(!more, lines[i]);
      i := i + 1;
    }
    assert Prefixed(all)[..i + 1] == Prefixed(all);
  }

  lemma PrefixedStep(all: seq<string>, i: nat)
    requires i + 1 < |all|
    ensures Concat(Prefixed(all)[..i + 2]) == Concat(Prefixed(all)[..i + 1]) + ReplyLine(i + 2 == |all|, all[i + 1])
  {
    var ps := Prefixed(all);
    ConcatPrefix(ps, i + 1);
    assert ps[i + 1] == ReplyLine(i + 2 == |all|, all[i + 1]);
  }

  lemma ConcatPrefix(ps: seq<string>, n: nat)
    requires n < |ps|
    ensures Concat(ps[..n + 1]) == Concat(ps[..n]) + ps[n]
  {
    assert ps[..n + 1][..n] == ps[..n];
  }

  /** Every reply line ends in CRLF; the first is `250-` and the domain,
      the last is the AUTH line after `250 `, and all others start `250-`. */
  lemma ResponseLines(r: Response)
    ensures var ps := Prefixed(AllLines(r));
      ResponseText(r) == Concat(ps) && |ps| >= 2 &&
      ps[0] == "250-" + r.domain + "\r\n" &&
      ps[|ps| - 1] == "250 " + AuthText(r.auth) + "\r\n" &&
      forall k :: 0 <= k < |ps| - 1 ==> ps[k][..4] == "250-"
  {
  }

  // ---- reading ----

  /** `ParseError::Syntax`; I/O errors are not part of this model. */
  datatype ReadError = Syntax

  const DASH: byte := 45
  const SPACE: byte := 32

  /** The locals `read` keeps across lines. */
  datatype Acc = Acc(domain: Option<string>, extensions: set<nat>, size: Option<nat>, auth: set<nat>)

  const Start: Acc := Acc(None, {}, None, {})

  /** The effect of one line's text: the first gives the domain; after it,
      the line's first word picks what it sets. SIZE takes a `u64` or is a
      syntax error, AUTH replaces the mechanisms by those named (unknown
      names ignored), an extension keyword adds its flag, and any other
      keyword changes nothing. */
  function Absorb(acc: Acc, text: string): (r: Result<Acc, ReadError>)
    ensures r.Ok? ==> r.value.domain.Some?
    ensures r.Err? ==> acc.domain.Some? && SplitOnceOr(text, ' ').0 == "SIZE"
  {
    if acc.domain.None? then Ok(acc.(domain := Some(text)))
    else
      var (keyword, args) := SplitOnceOr(text, ' ');
      if keyword == "SIZE" then
        match ParseUnsigned(args, U64_MAX)
        case None => Err(Syntax)
        case Some(n) => Ok(acc.(size := Some(n)))
      else if keyword == "AUTH" then Ok(acc.(auth := FromNames(AuthDecl, Split(args, ' '))))
      else Ok(acc.(extensions := acc.extensions + Lookup(ExtDecl, keyword)))
  }

  /** Once the last line is in: a domain is needed. */
  function Finish(acc: Acc): (r: Result<Response, ReadError>)
    ensures r.Ok? <==> acc.domain.Some?
    ensures r.Ok? ==> r.value == Response(acc.domain.value, acc.extensions, acc.size, acc.auth)
  {
    match acc.domain
    case None => Err(Syntax)
    case Some(d) => Ok(Response(d, acc.extensions, acc.size, acc.auth))
  }

  datatype Reading = Reading(result: Result<Response, ReadError>, rest: seq<byte>)

  /** `Response::read` on the bytes the reader still holds: each line is
      read through `take(LINE_LIMIT)` up to LF; a line under 5 bytes (the
      end of the input included), a fourth byte other than `-` or ` `, or
      text after the code that is not UTF-8 is a syntax error; the text is
      trimmed at its end and absorbed; a space after the code ends the
      reply. */
  function ReadFrom(acc: Acc, s: seq<byte>): (r: Reading)
    ensures |r.rest| <= |s|
    decreases |s|
  {
    var raw := Line.NextLine(Line.Take(s, SmtpCommand.LINE_LIMIT));
    var rest := s[|raw|..];
    if |raw| < 5 || (raw[3] != DASH && raw[3] != SPACE) then Reading(Err(Syntax), rest)
    else
      match Utf8.Decode(raw[4..])
      case None => Reading(Err(Syntax), rest)
      case Some(t) =>
        match Absorb(acc, TrimEnd(t))
        case Err(e) => Reading(Err(e), rest)
        case Ok(next) => if raw[3] == SPACE then Reading(Finish(next), rest) else ReadFrom(next, rest)
  }

  /** `Response::read`. */
  method Read(conn: Line.Connection) returns (r: Result<Response, ReadError>)
    requires conn.Valid()
    modifies conn
    ensures conn.Valid()
    ensures r == ReadFrom(Start, old(conn.Remaining())).result
    ensures conn.Remaining() == ReadFrom(Start, old(conn.Remaining())).rest
    ensures conn.output == old(conn.output) && conn.tls == old(conn.tls) && conn.open == old(conn.open)
  {
    var domain: Option<string> := None;
    var size: Option<nat> := None;
    var eol := false;
    var extensions: set<nat> := {};
    var auth: set<nat> := {};
    ghost var whole := ReadFrom(Start, conn.Remaining());
    while true
      invariant conn.Valid()
      invariant whole == if eol then Reading(Finish(Acc(domain, extensions, size, auth)), conn.Remaining())
        else ReadFrom(Acc(domain, extensions, size, auth), conn.Remaining())
      invariant conn.output == old(conn.output) && conn.tls == old(conn.tls) && conn.open == old(conn.open)
      decreases |conn.Remaining()|
    {
      if eol {
        if domain.None? {
          return Err(Syntax);
        }
        return Ok(Response(domain.value, extensions, size, auth));
      }
      ghost var acc := Acc(domain, extensions, size, auth);
      ghost var s := conn.Remaining();
      var line := conn.ReadUntilLimit(SmtpCommand.LINE_LIMIT);
      if |line| < 5 {
        return Err(Syntax);
      }
      if line[3] == DASH {
      } else if line[3] == SPACE {
        eol := true;
      } else {
        return Err(Syntax);
      }
      var decoded := Utf8.Decode(line[4..]);
      if decoded.None? {
        return Err(Syntax);
      }
      var text := TrimEnd(decoded.value);
      if domain.None? {
        domain := Some(text);
      } else {
        var (keyword, args) := SplitOnceOr(text, ' ');
        if keyword == "SIZE" {
          var n := ParseUnsigned(args, U64_MAX);
          if n.None? {
            return Err(Syntax);
          }
          size := Some(n.value);
        } else if keyword == "AUTH" {
          auth := FromNames(AuthDecl, Split(args, ' '));
        } else {
          extensions := extensions + Lookup(ExtDecl, keyword);
        }
      }
      assert Absorb(acc, text) == Ok(Acc(domain, extensions, size, auth));
    }
  }

  // ---- what reading rejects and ignores ----

  /** A reply is accepted only when its first line is at least 5 bytes,
      has `-` or ` ` after the code and UTF-8 text; in particular the end of
      the input is a syntax error. */
  lemma FirstLineChecked(acc: Acc, s: seq<byte>)
    ensures var raw := Line.NextLine(Line.Take(s, SmtpCommand.LINE_LIMIT));
      ReadFrom(acc, s).result.Ok? ==>
        |raw| >= 5 && (raw[3] == DASH || raw[3] == SPACE) && Utf8.Decode(raw[4..]).Some?
    ensures ReadFrom(acc, []).result == Err(Syntax)
  {
  }

  /** After the domain, a keyword that is neither an extension, SIZE nor
      AUTH leaves everything read so far as it was. */
  lemma UnknownKeywordIgnored(acc: Acc, text: string)
    requires acc.domain.Some?
    requires var kw := SplitOnceOr(text, ' ').0; kw !in ExtDecl && kw != "SIZE" && kw != "AUTH"
    ensures Absorb(acc, text) == Ok(acc)
  {
    var kw := SplitOnceOr(text, ' ').0;
    assert Lookup(ExtDecl, kw) == {};
    assert acc.extensions + {} == acc.extensions;
  }

  /** A SIZE line is a syntax error exactly when its argument is not a
      `u64`; otherwise it sets the size and nothing else. */
  lemma SizeMustFit(acc: Acc, args: string)
    requires acc.domain.Some?
    ensures Absorb(acc, "SIZE " + args).Err? <==> ParseUnsigned(args, U64_MAX).None?
    ensures ParseUnsigned(args, U64_MAX).Some? ==>
      Absorb(acc, "SIZE " + args) == Ok(acc.(size := ParseUnsigned(args, U64_MAX)))
  {
    assert "SIZE " + args == "SIZE" + [' '] + args;
    SplitOnceOrJoined("SIZE", ' ', args);
  }

  // ---- reading what was written ----

  /** A line text read back as written: no LF inside (so the line ends at
      its own CRLF), nothing at its end that `trim_end` would drop, and the
      whole line within `LINE_LIMIT` bytes. */
  predicate Readable(l: string)
  {
    '\n' !in l && (l == [] || !IsWhitespace(l[|l| - 1])) && |Utf8.Encode(l)| + 6 <= SmtpCommand.LINE_LIMIT
  }

  predicate AllReadable(ls: seq<string>)
  {
    forall i :: 0 <= i < |ls| ==> Readable(ls[i])
  }

  lemma AsciiReadable(l: string)
    requires Utf8.IsAscii(l) && '\n' !in l && (l == [] || !IsWhitespace(l[|l| - 1]))
    requires |l| + 6 <= SmtpCommand.LINE_LIMIT
    ensures Readable(l)
  {
    Utf8.EncodeAscii(l);
  }

  /** The texts absorbed one after another, stopping at the first error. */
  function AbsorbAll(acc: Acc, ls: seq<string>): Result<Acc, ReadError>
    decreases |ls|
  {
    if ls == [] then Ok(acc)
    else
      var a := Absorb(acc, ls[0]);
      if a.Err? then Err(a.error) else AbsorbAll(a.value, ls[1..])
  }

  lemma TrimCrLf(l: string)
    requires l == [] || !IsWhitespace(l[|l| - 1])
    ensures TrimEnd(l + "\r\n") == l
  {
    assert (l + "\r\n")[..|l| + 1] == l + "\r";
    assert (l + "\r")[..|l|] == l;
  }

  lemma EncodeCode(last: bool)
    ensures Utf8.Encode(if last then "250 " else "250-") == [50, 53, 48, if last then SPACE else DASH]
  {
    var code := if last then "250 " else "250-";
    Utf8.EncodeAscii(code);
  }

  lemma EncodeLine(last: bool, l: string)
    ensures Utf8.Encode(ReplyLine(last, l)) ==
      [50, 53, 48, if last then SPACE else DASH] + Utf8.Encode(l + "\r\n")
  {
    var code := if last then "250 " else "250-";
    assert ReplyLine(last, l) == code + (l + "\r\n");
    Utf8.EncodeAppend(code, l + "\r\n");
    EncodeCode(last);
  }

  /** `read_until(b'\n', …)` through `take(LINE_LIMIT)` stops at the
      first LF. */
  lemma NextLineOf(w: seq<byte>, more: seq<byte>)
    requires |w| >= 1 && w[|w| - 1] == LF && LF !in w[..|w| - 1] && |w| <= SmtpCommand.LINE_LIMIT
    ensures Line.NextLine(Line.Take(w + more, SmtpCommand.LINE_LIMIT)) == w
  {
    var t := Line.Take(w + more, SmtpCommand.LINE_LIMIT);
    assert t[..|w|] == w;
    assert t[..|w| - 1] == w[..|w| - 1];
    Line.FindByteAt(t, LF, |w| - 1);
  }

  /** The first line read from a written reply line is that line. */
  lemma FirstLineRead(last: bool, l: string, more: seq<byte>)
    requires Readable(l)
    ensures var w := Utf8.Encode(ReplyLine(last, l));
      |w| >= 6 && Line.NextLine(Line.Take(w + more, SmtpCommand.LINE_LIMIT)) == w &&
      w[3] == (if last then SPACE else DASH) &&
      w[4..] == Utf8.Encode(l + "\r\n")
  {
    var w := Utf8.Encode(ReplyLine(last, l));
    FirstLineBytes(last, l);
    NextLineOf(w, more);
  }

  lemma FirstLineBytes(last: bool, l: string)
    requires Readable(l)
    ensures var w := Utf8.Encode(ReplyLine(last, l));
      var code: seq<byte> := [50, 53, 48, if last then SPACE else DASH];
      w == code + Utf8.Encode(l + "\r\n") && Utf8.Encode(l) + [CR, LF] == Utf8.Encode(l + "\r\n") &&
      |w| <= SmtpCommand.LINE_LIMIT && LF !in w[..|w| - 1]
  {
    var w := Utf8.Encode(ReplyLine(last, l));
    var e := Utf8.Encode(l);
    var code: seq<byte> := [50, 53, 48, if last then SPACE else DASH];
    assert w == code + e + [CR, LF] && Utf8.Encode(l + "\r\n") == e + [CR, LF] by {
      EncodeLine(last, l);
      Utf8.EncodeAppend(l, "\r\n");
      assert Utf8.Encode("\r\n") == [CR, LF];
      BytesAssoc(code, e, [CR, LF]);
    }
    Utf8.AsciiByteInEncode(l, '\n');
    NoLfBefore(code, e, w);
  }

  lemma NoLfBefore(code: seq<byte>, e: seq<byte>, w: seq<byte>)
    requires w == code + e + [CR, LF] && LF !in code && LF !in e
    ensures LF !in w[..|w| - 1]
  {
    assert w[..|w| - 1] == code + e + [CR];
  }

  /** One written line read back: its text is absorbed, and a line marked
      last ends the reply. */
  lemma LineReadBack(acc: Acc, last: bool, l: string, more: seq<byte>)
    requires Readable(l)
    ensures var w := Utf8.Encode(ReplyLine(last, l));
      var a := Absorb(acc, l);
      ReadFrom(acc, w + more) ==
        if a.Err? then Reading(Err(a.error), more)
        else if last then Reading(Finish(a.value), more)
        else ReadFrom(a.value, more)
  {
    var w := Utf8.Encode(ReplyLine(last, l));
    FirstLineRead(last, l, more);
    Utf8.DecodeEncode(l + "\r\n");
    TrimCrLf(l);
    assert (w + more)[|w|..] == more;
  }

  lemma ConcatCons(x: string, xs: seq<string>)
    ensures Concat([x] + xs) == x + Concat(xs)
  {
    ConcatAppend([x], xs);
    assert [x][..0] == [];
  }

  lemma WrittenSplit(ls: seq<string>, rest: seq<byte>)
    requires |ls| >= 1
    ensures Utf8.Encode(Concat(Prefixed(ls))) + rest ==
      Utf8.Encode(ReplyLine(|ls| == 1, ls[0])) + (Utf8.Encode(Concat(Prefixed(ls[1..]))) + rest)
    ensures |ls| == 1 ==> Utf8.Encode(Concat(Prefixed(ls[1..]))) + rest == rest
  {
    var x := ReplyLine(|ls| == 1, ls[0]);
    var t := Concat(Prefixed(ls[1..]));
    ConcatCons(x, Prefixed(ls[1..]));
    Utf8.EncodeAppend(x, t);
    BytesAssoc(Utf8.Encode(x), Utf8.Encode(t), rest);
    if |ls| == 1 {
      assert Prefixed(ls[1..]) == [];
    }
  }

  lemma BytesAssoc(a: seq<byte>, b: seq<byte>, c: seq<byte>)
    ensures a + b + c == a + (b + c)
  {
  }

  lemma TailReadable(ls: seq<string>)
    requires |ls| >= 1 && AllReadable(ls)
    ensures AllReadable(ls[1..])
  {
    forall i | 0 <= i < |ls| - 1
      ensures Readable(ls[1..][i])
    {
      assert ls[1..][i] == ls[i + 1];
    }
  }

  /** Reading written lines absorbs their texts in order and stops after
      the last. */
  lemma {:induction false} ReadWritten(acc: Acc, ls: seq<string>, rest: seq<byte>)
    requires |ls| >= 1 && AllReadable(ls)
    ensures var r := ReadFrom(acc, Utf8.Encode(Concat(Prefixed(ls))) + rest);
      var a := AbsorbAll(acc, ls);
      (a.Ok? ==> r == Reading(Finish(a.value), rest)) &&
      (a.Err? ==> r.result == Err(a.error))
    decreases |ls|
  {
    var more := Utf8.Encode(Concat(Prefixed(ls[1..]))) + rest;
    WrittenSplit(ls, rest);
    LineReadBack(acc, |ls| == 1, ls[0], more);
    var a := Absorb(acc, ls[0]);
    if |ls| > 1 && a.Ok? {
      TailReadable(ls);
      ReadWritten(a.value, ls[1..], rest);
    }
  }

  lemma {:induction false} AbsorbAllAppend(acc: Acc, a: seq<string>, b: seq<string>)
    ensures var x := AbsorbAll(acc, a);
      AbsorbAll(acc, a + b) == if x.Err? then x else AbsorbAll(x.value, b)
    decreases |a|
  {
    if a == [] {
      assert a + b == b;
    } else {
      assert (a + b)[0] == a[0] && (a + b)[1..] == a[1..] + b;
      var x := Absorb(acc, a[0]);
      if x.Ok? {
        AbsorbAllAppend(x.value, a[1..], b);
      }
    }
  }

  lemma AbsorbKeyword(acc: Acc, x: string)
    requires acc.domain.Some? && x in ExtDecl
    ensures AbsorbAll(acc, [x]) == Ok(acc.(extensions := acc.extensions + Lookup(ExtDecl, x)))
  {
    DeclsWellFormed();
    assert SplitOnceOr(x, ' ') == (x, "");
    assert x != "SIZE" && x != "AUTH";
    assert [x][1..] == [];
  }

  /** Extension keywords add exactly their flags. */
  lemma {:induction false} AbsorbNames(acc: Acc, names: seq<string>)
    requires acc.domain.Some?
    requires forall i :: 0 <= i < |names| ==> names[i] in ExtDecl
    ensures AbsorbAll(acc, names) == Ok(acc.(extensions := acc.extensions + FromNames(ExtDecl, names)))
    decreases |names|
  {
    if names == [] {
      assert acc.extensions + {} == acc.extensions;
    } else {
      var init := names[..|names| - 1];
      var x := names[|names| - 1];
      assert names == init + [x];
      AbsorbNames(acc, init);
      var mid := acc.(extensions := acc.extensions + FromNames(ExtDecl, init));
      AbsorbAllAppend(acc, init, [x]);
      AbsorbKeyword(mid, x);
      assert mid.extensions + Lookup(ExtDecl, x) == acc.extensions + FromNames(ExtDecl, names);
    }
  }

  /** The keywords a set of extensions prints set exactly that set. */
  lemma NamesAbsorbed(acc: Acc, f: set<nat>)
    requires acc.domain.Some? && acc.extensions == {} && Valid(ExtDecl, f)
    ensures AbsorbAll(acc, Names(ExtDecl, f)) == Ok(acc.(extensions := f))
  {
    var names := Names(ExtDecl, f);
    forall i | 0 <= i < |names|
      ensures names[i] in ExtDecl
    {
      assert names[i] in names;
      NamesDeclared(ExtDecl, f, names[i]);
    }
    AbsorbNames(acc, names);
    DeclsWellFormed();
    FromNamesNames(ExtDecl, f);
    assert {} + f == f;
  }

  /** The AUTH line a set of mechanisms prints sets exactly that set. */
  lemma AbsorbAuth(acc: Acc, auth: set<nat>)
    requires acc.domain.Some? && Valid(AuthDecl, auth)
    ensures Absorb(acc, AuthText(auth)) == Ok(acc.(auth := auth))
  {
    DeclsWellFormed();
    var names := Names(AuthDecl, auth);
    FromNamesNames(AuthDecl, auth);
    if names == [] {
      assert AuthText(auth) == "AUTH";
      assert SplitOnceOr("AUTH", ' ') == ("AUTH", "");
      assert Split("", ' ') == [""];
      assert FromNames(AuthDecl, [""]) == {} == FromNames(AuthDecl, names);
    } else {
      JoinCons("AUTH", names, " ");
      SplitOnceOrJoined("AUTH", ' ', Join(names, " "));
      forall i | 0 <= i < |names|
        ensures ' ' !in names[i]
      {
        assert names[i] in names;
        NamesDeclared(AuthDecl, auth, names[i]);
      }
      SplitJoin(names, ' ');
    }
  }

  /** The SIZE line of a `u64` sets exactly that size. */
  lemma AbsorbSize(acc: Acc, size: Option<nat>)
    requires acc.domain.Some? && (size.Some? ==> size.value <= U64_MAX)
    ensures AbsorbAll(acc, SizeLines(size)) == Ok(acc.(size := if size.Some? then size else acc.size))
  {
    if size.Some? {
      SizeMustFit(acc, NatToString(size.value));
      ParseNatToString(size.value, U64_MAX);
    }
  }

  /** Absorbing the texts of a response's lines rebuilds the response. */
  lemma AbsorbLines(r: Response)
    requires Valid(ExtDecl, r.extensions) && Valid(AuthDecl, r.auth)
    requires r.size.Some? ==> r.size.value <= U64_MAX
    ensures AbsorbAll(Start, AllLines(r)) == Ok(Acc(Some(r.domain), r.extensions, r.size, r.auth))
  {
    var names := Names(ExtDecl, r.extensions);
    var tail := SizeLines(r.size) + [AuthText(r.auth)];
    var a1 := Acc(Some(r.domain), {}, None, {});
    var a2 := a1.(extensions := r.extensions);
    var a3 := a2.(size := r.size);
    assert AllLines(r) == [r.domain] + (names + tail);
    assert AbsorbAll(Start, AllLines(r)) == AbsorbAll(a1, names + tail);
    assert AbsorbAll(a1, names) == Ok(a2) by {
      NamesAbsorbed(a1, r.extensions);
    }
    AbsorbAllAppend(a1, names, tail);
    assert AbsorbAll(a2, SizeLines(r.size)) == Ok(a3) by {
      AbsorbSize(a2, r.size);
    }
    AbsorbAllAppend(a2, SizeLines(r.size), [AuthText(r.auth)]);
    assert AbsorbAll(a3, [AuthText(r.auth)]) == Ok(Acc(Some(r.domain), r.extensions, r.size, r.auth)) by {
      AbsorbAuth(a3, r.auth);
      assert [AuthText(r.auth)][1..] == [];
    }
  }

  /** The four AUTH lines there can be. */
  lemma AuthTexts(auth: set<nat>)
    requires Valid(AuthDecl, auth)
    ensures AuthText(auth) in ["AUTH", "AUTH LOGIN", "AUTH PLAIN", "AUTH LOGIN PLAIN"]
  {
    assert NamesBelow(AuthDecl, auth, 0) == [];
    if LOGIN in auth && PLAIN in auth {
      assert NamesBelow(AuthDecl, auth, 1) == ["LOGIN"];
      assert Names(AuthDecl, auth) == ["LOGIN", "PLAIN"];
      JoinCons("LOGIN", ["PLAIN"], " ");
      assert ["LOGIN"] + ["PLAIN"] == ["LOGIN", "PLAIN"];
      assert Join(["LOGIN", "PLAIN"], " ") == "LOGIN PLAIN";
      JoinCons("AUTH", ["LOGIN", "PLAIN"], " ");
      assert AuthText(auth) == "AUTH LOGIN PLAIN";
    } else if LOGIN in auth {
      assert NamesBelow(AuthDecl, auth, 1) == ["LOGIN"];
      assert Names(AuthDecl, auth) == ["LOGIN"];
      JoinCons("AUTH", ["LOGIN"], " ");
      assert AuthText(auth) == "AUTH LOGIN";
    } else if PLAIN in auth {
      assert NamesBelow(AuthDecl, auth, 1) == [];
      assert Names(AuthDecl, auth) == ["PLAIN"];
      JoinCons("AUTH", ["PLAIN"], " ");
      assert AuthText(auth) == "AUTH PLAIN";
    } else {
      assert NamesBelow(AuthDecl, auth, 1) == [];
      assert Names(AuthDecl, auth) == [];
    }
  }

  lemma AuthReadable(auth: set<nat>)
    requires Valid(AuthDecl, auth)
    ensures Readable(AuthText(auth))
  {
    AuthTexts(auth);
    var t := AuthText(auth);
    assert Utf8.IsAscii(t) && '\n' !in t && !IsWhitespace(t[|t| - 1]) && |t| <= 16;
    AsciiReadable(t);
  }

  lemma ExtReadable(i: nat)
    requires i < |ExtDecl|
    ensures Readable(ExtDecl[i])
  {
    var t := ExtDecl[i];
    assert Utf8.IsAscii(t) && '\n' !in t && !IsWhitespace(t[|t| - 1]) && |t| <= 19;
    AsciiReadable(t);
  }

  /** A number of at most `k` digits. */
  lemma {:induction false} DigitsAscii(n: nat, k: nat, bound: nat)
    requires n < bound && bound == Pow10(k)
    ensures |NatToString(n)| <= k + 1 && Utf8.IsAscii(NatToString(n))
    decreases k
  {
    NatToStringDigits(n);
    if n >= 10 && k > 0 {
      DigitsAscii(n / 10, k - 1, Pow10(k - 1));
    }
  }

  function Pow10(k: nat): (p: nat)
    ensures p >= 1
  {
    if k == 0 then 1 else 10 * Pow10(k - 1)
  }

  /** Powers of ten multiply by adding exponents. */
  lemma {:induction false} Pow10Sum(a: nat, b: nat)
    ensures Pow10(a + b) == Pow10(a) * Pow10(b)
  {
    if a > 0 {
      Pow10Sum(a - 1, b);
      assert Pow10(a + b) == 10 * Pow10(a - 1 + b);
    }
  }

  /** Every `u64` has fewer than twenty-one digits. */
  lemma Pow10Twenty()
    ensures Pow10(20) == 100000000000000000000 && U64_MAX < Pow10(20)
  {
    Pow10Sum(5, 5);
    Pow10Sum(10, 10);
    assert Pow10(5) == 100000;
  }

  lemma SizeReadable(n: nat)
    requires n <= U64_MAX
    ensures Readable("SIZE " + NatToString(n))
  {
    Pow10Twenty();
    DigitsAscii(n, 20, Pow10(20));
    NatToStringDigits(n);
    SizeTextReadable(NatToString(n));
  }

  /** A SIZE line whose number is a short run of digits is readable. */
  lemma SizeTextReadable(d: string)
    requires 1 <= |d| <= 21 && AllDigits(d)
    ensures Readable("SIZE " + d)
  {
    var t := "SIZE " + d;
    assert t[|t| - 1] == d[|d| - 1];
    assert forall i :: 0 <= i < |t| ==> t[i] in "SIZE " || t[i] in d;
    AsciiReadable(t);
  }

  lemma LinesReadable(r: Response)
    requires Readable(r.domain) && Valid(AuthDecl, r.auth)
    requires r.size.Some? ==> r.size.value <= U64_MAX
    ensures AllReadable(AllLines(r))
  {
    var ls := AllLines(r);
    var names := Names(ExtDecl, r.extensions);
    forall i | 0 <= i < |ls|
      ensures Readable(ls[i])
    {
      if i == 0 {
      } else if i - 1 < |names| {
        assert ls[i] == names[i - 1];
        assert ls[i] in names;
        NamesDeclared(ExtDecl, r.extensions, ls[i]);
        var j :| 0 <= j < |ExtDecl| && ExtDecl[j] == ls[i];
        ExtReadable(j);
      } else if i == |ls| - 1 {
        AuthReadable(r.auth);
      } else {
        SizeReadable(r.size.value);
      }
    }
  }

  /** Reading back what `Display` writes gives the same response, and the
      bytes after it are left unread — for a domain that fits on a line
      and does not end in white space, and a size that is a `u64`. */
  lemma RoundTrip(r: Response, rest: seq<byte>)
    requires Readable(r.domain)
    requires Valid(ExtDecl, r.extensions) && Valid(AuthDecl, r.auth)
    requires r.size.Some? ==> r.size.value <= U64_MAX
    ensures ReadFrom(Start, Utf8.Encode(ResponseText(r)) + rest) == Reading(Ok(r), rest)
  {
    LinesReadable(r);
    AbsorbLines(r);
    ReadWritten(Start, AllLines(r), rest);
  }

  // ---- the documented example ----

  /** The example of the `Response` documentation: STARTTLS, a size of
      1024 and PLAIN. */
  lemma DocExample()
    ensures ResponseText(Response("mail.example.com", {STARTTLS}, Some(1024), {PLAIN}))
      == "250-mail.example.com\r\n250-STARTTLS\r\n250-SIZE 1024\r\n250 AUTH PLAIN\r\n"
  {
    OnlyStarttls();
    SizeOf1024();
    OnlyPlain();
    FourLines(Response("mail.example.com", {STARTTLS}, Some(1024), {PLAIN}), "STARTTLS", "SIZE 1024", "AUTH PLAIN");
    DocExampleText();
  }

  lemma OnlyStarttls()
    ensures Names(ExtDecl, {STARTTLS}) == ["STARTTLS"]
  {
    var f: set<nat> := {STARTTLS};
    assert NamesBelow(ExtDecl, f, 0) == [];
    assert NamesBelow(ExtDecl, f, 1) == [];
    assert NamesBelow(ExtDecl, f, 2) == [];
    assert NamesBelow(ExtDecl, f, 3) == [];
    assert NamesBelow(ExtDecl, f, 4) == ["STARTTLS"];
  }

  lemma SizeOf1024()
    ensures SizeLines(Some(1024)) == ["SIZE 1024"]
  {
    assert NatToString(1) == "1";
    assert NatToString(10) == "10";
    assert NatToString(102) == "102";
    assert NatToString(1024) == "1024";
    assert "SIZE " + "1024" == "SIZE 1024";
  }

  lemma OnlyPlain()
    ensures AuthText({PLAIN}) == "AUTH PLAIN"
  {
    var g: set<nat> := {PLAIN};
    assert NamesBelow(AuthDecl, g, 1) == [];
    assert Names(AuthDecl, g) == ["PLAIN"];
    JoinCons("AUTH", ["PLAIN"], " ");
  }

  /** A reply of four lines, written out. */
  lemma FourLines(r: Response, e: string, z: string, a: string)
    requires Names(ExtDecl, r.extensions) == [e] && SizeLines(r.size) == [z] && AuthText(r.auth) == a
    ensures ResponseText(r) == ReplyLine(false, r.domain) + ReplyLine(false, e) + ReplyLine(false, z) + ReplyLine(true, a)
  {
    var ls := AllLines(r);
    assert ls == [r.domain, e, z, a];
    var ps := Prefixed(ls);
    assert ps == [ReplyLine(false, r.domain), ReplyLine(false, e), ReplyLine(false, z), ReplyLine(true, a)];
    ConcatFour(ps);
  }

  lemma ConcatFour(ps: seq<string>)
    requires |ps| == 4
    ensures Concat(ps) == ps[0] + ps[1] + ps[2] + ps[3]
  {
    assert ps[..1][..0] == [];
    ConcatPrefix(ps, 1);
    ConcatPrefix(ps, 2);
    ConcatPrefix(ps, 3);
    assert ps[..4] == ps;
  }

  lemma DocExampleText()
    ensures ReplyLine(false, "mail.example.com") + ReplyLine(false, "STARTTLS") + ReplyLine(false, "SIZE 1024")
        + ReplyLine(true, "AUTH PLAIN")
      == "250-mail.example.com\r\n250-STARTTLS\r\n250-SIZE 1024\r\n250 AUTH PLAIN\r\n"
  {
    DocLineOne();
    DocLinesTwoThree();
  }

  lemma DocLineOne()
    ensures ReplyLine(false, "mail.example.com") == "250-mail.example.com\r\n"
  {
  }

  lemma DocLinesTwoThree()
    ensures "250-mail.example.com\r\n" + ReplyLine(false, "STARTTLS") + ReplyLine(false, "SIZE 1024") + ReplyLine(true, "AUTH PLAIN")
      == "250-mail.example.com\r\n250-STARTTLS\r\n250-SIZE 1024\r\n250 AUTH PLAIN\r\n"
  {
    DocReplyLines();
    assert "250-mail.example.com\r\n" + "250-STARTTLS\r\n" == "250-mail.example.com\r\n250-STARTTLS\r\n";
    assert "250-mail.example.com\r\n250-STARTTLS\r\n" + "250-SIZE 1024\r\n"
      == "250-mail.example.com\r\n250-STARTTLS\r\n250-SIZE 1024\r\n";
  }

  lemma DocReplyLines()
    ensures ReplyLine(false, "STARTTLS") == "250-STARTTLS\r\n"
    ensures ReplyLine(false, "SIZE 1024") == "250-SIZE 1024\r\n"
    ensures ReplyLine(true, "AUTH PLAIN") == "250 AUTH PLAIN\r\n"
  {
  }
}
