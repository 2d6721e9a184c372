/** `read_cmd` (crates/imap/src/server.rs): read lines until one is a
    tagged command, answering every line that fails to parse with its
    tagged BAD response and skipping lines that are not UTF-8. */
module ImapServer {
  import opened Wrappers
  import opened Text
  import opened Line
  import opened ImapCommand
  import ImapResponse

  /** The outcome of reading commands from some input: the command found,
      if any, what was written on the way, and the input left unread. */
  datatype ReadOutcome = ReadOutcome(command: Option<TaggedCommand>, written: string, rest: seq<byte>)

  /** The parser `read_cmd` applies to each line: `Request::try_from`. */
  type LineParser = seq<byte> -> Result<TaggedCommand, Error>

  /** What `read_cmd` does with the bytes still to be read, line by line,
      when each line is parsed by `parse`. */
  function ReadCmdSpec(parse: LineParser, s: seq<byte>): (o: ReadOutcome)
    ensures |o.rest| <= |s|
    ensures o.command.Some? ==> |o.rest| < |s|
    decreases |s|
  {
    if s == [] then ReadOutcome(None, "", [])
    else
      NextLineShape(s);
      var raw := NextLine(s);
      var rest := s[|raw|..];
      match parse(TrimNewlines(raw))
      case Ok(cmd) => ReadOutcome(Some(cmd), "", rest)
      case Err(BadRequest(res)) =>
        var o := ReadCmdSpec(parse, rest);
        ReadOutcome(o.command, ImapResponse.TaggedText(res) + o.written, o.rest)
      case Err(InvalidUtf8) => ReadCmdSpec(parse, rest)
  }

  /** `read_cmd`: one buffer, cleared before every read after the first,
      and every line parsed by `Request::try_from`. */
  method ReadCmd(conn: Connection) returns (r: Option<TaggedCommand>)
    requires conn.Valid()
    modifies conn
    ensures conn.Valid()
    ensures var o := ReadCmdSpec(TryFromBytes, old(conn.Remaining()));
      r == o.command && conn.output == old(conn.output) + o.written && conn.Remaining() == o.rest
    ensures conn.tls == old(conn.tls) && conn.open == old(conn.open)
  {
    var buf: seq<byte> := [];
    while true
      invariant conn.Valid()
      invariant buf == []
      invariant var o0 := ReadCmdSpec(TryFromBytes, old(conn.Remaining()));
        var o := ReadCmdSpec(TryFromBytes, conn.Remaining());
        o0.command == o.command && o0.rest == o.rest && old(conn.output) + o0.written == conn.output + o.written
      invariant conn.tls == old(conn.tls) && conn.open == old(conn.open)
      decreases |conn.Remaining()|
    {
      ghost var before := conn.Remaining();
      var res;
      res, buf := conn.ReadLine(buf);
      if res.Err? {
        return None;
      }
      var parsed := TryFromBytes(buf);
      SpecStep(TryFromBytes, before, buf, conn.Remaining());
      if parsed.Ok? {
        return Some(parsed.value);
      }
      if parsed.error.BadRequest? {
        var text := ImapResponse.TaggedText(parsed.error.response);
        AppendAssoc(conn.output, text, ReadCmdSpec(TryFromBytes, conn.Remaining()).written);
        conn.Write(text);
      }
      buf := [];
    }
  }

  /** One line of the input: what `ReadCmdSpec` does with it. */
  lemma SpecStep(parse: LineParser, s: seq<byte>, line: seq<byte>, rest: seq<byte>)
    requires s != [] && line == TrimNewlines(NextLine(s)) && rest == s[|NextLine(s)|..]
    ensures |rest| < |s|
    ensures parse(line).Ok? ==> ReadCmdSpec(parse, s) == ReadOutcome(Some(parse(line).value), "", rest)
    ensures parse(line).Err? && parse(line).error.BadRequest? ==>
      ReadCmdSpec(parse, s) == ReadOutcome(ReadCmdSpec(parse, rest).command,
        ImapResponse.TaggedText(parse(line).error.response) + ReadCmdSpec(parse, rest).written, ReadCmdSpec(parse, rest).rest)
    ensures parse(line).Err? && parse(line).error.InvalidUtf8? ==> ReadCmdSpec(parse, s) == ReadCmdSpec(parse, rest)
  {
    NextLineShape(s);
  }

  // ---- properties ----

  /** At the end of the input there is no command and nothing is written. */
  lemma ReadCmdEof(parse: LineParser)
    ensures ReadCmdSpec(parse, []) == ReadOutcome(None, "", [])
  {
  }

  /** A line that parses is returned at once; nothing is written for it and
      the input after it is left unread. */
  lemma ReadCmdGood(parse: LineParser, l: seq<byte>, rest: seq<byte>, cmd: TaggedCommand)
    requires LF !in l && (l == [] || !IsNewline(l[|l| - 1]))
    requires parse(l) == Ok(cmd)
    ensures ReadCmdSpec(parse, l + [CR, LF] + rest) == ReadOutcome(Some(cmd), "", rest)
  {
    LineThenRest(l, rest);
  }

  /** A line that fails to parse is answered with its tagged response, and
      reading goes on with the next line; the answer comes before anything
      written later. */
  lemma ReadCmdBad(parse: LineParser, l: seq<byte>, rest: seq<byte>, res: ImapResponse.TaggedStatusResponse)
    requires LF !in l && (l == [] || !IsNewline(l[|l| - 1]))
    requires parse(l) == Err(BadRequest(res))
    ensures var o := ReadCmdSpec(parse, rest);
      ReadCmdSpec(parse, l + [CR, LF] + rest) == ReadOutcome(o.command, ImapResponse.TaggedText(res) + o.written, o.rest)
  {
    LineThenRest(l, rest);
  }

  /** A line the parser rejects as not UTF-8 gets no answer and is
      skipped. */
  lemma ReadCmdInvalid(parse: LineParser, l: seq<byte>, rest: seq<byte>)
    requires LF !in l && (l == [] || !IsNewline(l[|l| - 1]))
    requires parse(l) == Err(InvalidUtf8)
    ensures ReadCmdSpec(parse, l + [CR, LF] + rest) == ReadCmdSpec(parse, rest)
  {
    LineThenRest(l, rest);
  }

  /** With `Request::try_from`: a line that is not UTF-8 is skipped. */
  lemma ReadCmdNotUtf8(l: seq<byte>, rest: seq<byte>)
    requires LF !in l && (l == [] || !IsNewline(l[|l| - 1]))
    requires Utf8.Decode(l).None?
    ensures ReadCmdSpec(TryFromBytes, l + [CR, LF] + rest) == ReadCmdSpec(TryFromBytes, rest)
  {
    InvalidUtf8Iff(l);
    ReadCmdInvalid(TryFromBytes, l, rest);
  }

  /** With `Request::try_from`: a tagged line that does not parse is
      answered BAD with its own tag. */
  lemma ReadCmdAnswer(l: seq<byte>, rest: seq<byte>)
    requires LF !in l && (l == [] || !IsNewline(l[|l| - 1]))
    requires TryFromBytes(l).Err? && TryFromBytes(l).error.BadRequest?
    ensures var o := ReadCmdSpec(TryFromBytes, rest);
      var res := TryFromBytes(l).error.response;
      res.status == ImapResponse.Bad &&
      ReadCmdSpec(TryFromBytes, l + [CR, LF] + rest) == ReadOutcome(o.command, ImapResponse.TaggedText(res) + o.written, o.rest)
  {
    InvalidUtf8Iff(l);
    ReadCmdBad(TryFromBytes, l, rest, TryFromBytes(l).error.response);
  }

  /** The result is a command, or the input ran out. */
  lemma {:induction false} ReadCmdEnds(parse: LineParser, s: seq<byte>)
    ensures var o := ReadCmdSpec(parse, s); o.command.None? ==> o.rest == []
    decreases |s|
  {
    if s != [] {
      NextLineShape(s);
      var raw := NextLine(s);
      ReadCmdEnds(parse, s[|raw|..]);
    }
  }

  /** Replies answer the bad lines and nothing else: input made only of
      lines that are not UTF-8 is read to its end in silence. */
  lemma {:induction false} ReadCmdSilent(ls: seq<seq<byte>>)
    requires forall i :: 0 <= i < |ls| ==>
      LF !in ls[i] && (ls[i] == [] || !IsNewline(ls[i][|ls[i]| - 1])) && Utf8.Decode(ls[i]).None?
    ensures ReadCmdSpec(TryFromBytes, Crlf(ls)) == ReadOutcome(None, "", [])
    decreases |ls|
  {
    if ls != [] {
      var tail := ls[1..];
      assert forall i :: 0 <= i < |tail| ==> tail[i] == ls[i + 1];
      ReadCmdNotUtf8(ls[0], Crlf(tail));
      ReadCmdSilent(tail);
    }
  }

  /** Lines, each followed by CRLF. */
  function Crlf(ls: seq<seq<byte>>): (s: seq<byte>)
    ensures ls != [] ==> s == ls[0] + [CR, LF] + Crlf(ls[1..])
  {
    if ls == [] then [] else ls[0] + [CR, LF] + Crlf(ls[1..])
  }
}
