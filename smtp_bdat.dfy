/** BDAT chunking (crates/smtp/src/message/bdat.rs): the message body
    arrives in chunks, each announced by a `BDAT <size> [LAST]` command.
    The reader delivers a chunk's bytes through `take(size)`; when a chunk
    that is not the last is complete it acknowledges it with `250 ok` and
    reads commands until the next BDAT. */
module SmtpBdat {
  import opened Wrappers
  import opened Text
  import opened SmtpCommand
  import opened SmtpIo
  import Line
  import Utf8

  /** The acknowledgement of a chunk, and the answer to NOOP. */
  const OK := "250 ok\r\n"

  /** The answer to any other command between chunks. */
  const EXPECTED_BDAT := "503 expected BDAT\r\n"

  /** `Inner`: reading a chunk through `take(limit)`, with whether it is
      the last; the `next_bdat` exchange, which has run to its end once
      `poll_read` returns from it; or nothing, after `take_stream`. */
  datatype Inner = Read(limit: nat, last: bool) | Write | Gone

  // ---- between chunks ----

  /** How the wait for the next BDAT ended: its size and flag or an
      error, what was written, whether QUIT shut the connection, and the
      input left. */
  datatype Exchange = Exchange(result: Result<(nat, bool), IoError>, written: string, bye: bool, rest: seq<byte>)

  /** The loop of `next_bdat` over the bytes still to be read: BDAT ends
      it; QUIT is answered with `221 Bye` and the connection shut; RSET or
      the end of the input end it with an error; NOOP is answered `250 ok`
      and anything else `503 expected BDAT`, and the wait goes on. */
  function AwaitBdat(parse: LineParser, s: seq<byte>): (e: Exchange)
    ensures |e.rest| <= |s|
    ensures e.result.Ok? ==> |e.rest| < |s| && !e.bye
    ensures e.bye ==> e.result.Err?
    decreases |s|
  {
    var o := ReadCmdSpec(LINE_LIMIT, parse, s);
    match o.command
    case None => Exchange(Err(UnexpectedEof), o.written, false, o.rest)
    case Some(cmd) =>
      if cmd.Bdat? then Exchange(Ok((cmd.size, cmd.last)), o.written, false, o.rest)
      else if cmd == Quit then Exchange(Err(UnexpectedEof), o.written + BYE, true, o.rest)
      else if cmd == Rset then Exchange(Err(UnexpectedEof), o.written, false, o.rest)
      else
        var e := AwaitBdat(parse, o.rest);
        e.(written := o.written + Answer(cmd) + e.written)
  }

  /** The answer to a command that does not end the wait. */
  function Answer(cmd: Command): string
  {
    if cmd == Noop then OK else EXPECTED_BDAT
  }

  /** `next_bdat`: the chunk is acknowledged first, then the wait. */
  function NextBdatSpec(parse: LineParser, s: seq<byte>): (e: Exchange)
    ensures |e.rest| <= |s|
    ensures e.result.Ok? ==> |e.rest| < |s| && !e.bye
    ensures e.bye ==> e.result.Err?
    ensures |e.written| >= |OK| && e.written[..|OK|] == OK
  {
    var a := AwaitBdat(parse, s);
    a.(written := OK + a.written)
  }

  lemma Appended(a: string, b: string, c: string, d: string)
    ensures a + (b + c + d) == (a + b + c) + d
  {
  }

  /** One command read while waiting: how the wait goes on from it. */
  lemma AwaitStep(parse: LineParser, s: seq<byte>)
    ensures var o := ReadCmdSpec(LINE_LIMIT, parse, s); var e := AwaitBdat(parse, s);
      (o.command.None? ==> e == Exchange(Err(UnexpectedEof), o.written, false, o.rest)) &&
      (o.command.Some? && o.command.value.Bdat? ==>
        e == Exchange(Ok((o.command.value.size, o.command.value.last)), o.written, false, o.rest)) &&
      (o.command == Some(Quit) ==> e == Exchange(Err(UnexpectedEof), o.written + BYE, true, o.rest)) &&
      (o.command == Some(Rset) ==> e == Exchange(Err(UnexpectedEof), o.written, false, o.rest)) &&
      (o.command.Some? && !o.command.value.Bdat? && o.command.value != Quit && o.command.value != Rset ==>
        var e2 := AwaitBdat(parse, o.rest);
        e == e2.(written := o.written + Answer(o.command.value) + e2.written))
  {
  }

  /** `next_bdat`. */
  method NextBdat(conn: Line.Connection, parse: LineParser) returns (r: Result<(nat, bool), IoError>)
    requires conn.Valid()
    modifies conn
    ensures conn.Valid()
    ensures var e := NextBdatSpec(parse, old(conn.Remaining()));
      r == e.result && conn.output == old(conn.output) + e.written && conn.Remaining() == e.rest &&
      conn.open == (old(conn.open) && !e.bye)
    ensures conn.tls == old(conn.tls)
  {
    conn.Write(OK);
    r := Await(conn, parse);
    AppendAssoc(old(conn.output), OK, AwaitBdat(parse, old(conn.Remaining())).written);
  }

  /** The loop of `next_bdat`. */
  method Await(conn: Line.Connection, parse: LineParser) returns (r: Result<(nat, bool), IoError>)
    requires conn.Valid()
    modifies conn
    ensures conn.Valid()
    ensures var e := AwaitBdat(parse, old(conn.Remaining()));
      r == e.result && conn.output == old(conn.output) + e.written && conn.Remaining() == e.rest &&
      conn.open == (old(conn.open) && !e.bye)
    ensures conn.tls == old(conn.tls)
  {
    while true
      invariant conn.Valid()
      invariant var e0 := AwaitBdat(parse, old(conn.Remaining())); var e := AwaitBdat(parse, conn.Remaining());
        e0.result == e.result && e0.bye == e.bye && e0.rest == e.rest && old(conn.output) + e0.written == conn.output + e.written
      invariant conn.open == old(conn.open) && conn.tls == old(conn.tls)
      decreases |conn.Remaining()|
    {
      ghost var out := conn.output;
      ghost var s := conn.Remaining();
      ghost var o := ReadCmdSpec(LINE_LIMIT, parse, s);
      AwaitStep(parse, s);
      var c := ReadCmd(conn, LINE_LIMIT, parse);
      if c.None? {
        return Err(UnexpectedEof);
      }
      var cmd := c.value;
      if cmd.Bdat? {
        return Ok((cmd.size, cmd.last));
      } else if cmd == Quit {
        Bye(conn);
        AppendAssoc(out, o.written, BYE);
        return Err(UnexpectedEof);
      } else if cmd == Rset {
        return Err(UnexpectedEof);
      }
      conn.Write(Answer(cmd));
      Appended(out, o.written, Answer(cmd), AwaitBdat(parse, conn.Remaining()).written);
    }
  }

  // ---- one poll ----

  function Min(a: nat, b: nat): nat { if a < b then a else b }

  /** What one `poll_read` returns (bytes, none at the end of the body, or
      an error), the state after it, what it wrote, whether QUIT shut the
      connection, and the input left. */
  datatype Polled = Polled(result: Result<seq<byte>, IoError>, inner: Inner, written: string, bye: bool, rest: seq<byte>)

  /** `poll_read` with room for `room` bytes, over the bytes still to be
      read: as many bytes of the chunk as fit and have arrived; at the end
      of the last chunk, nothing; at the end of any other chunk, the
      exchange and then reading from the next chunk; input that ends
      inside a chunk is an error. A chunk announced by `BDAT 0 LAST`
      leaves the reader at the end of its last chunk, as any other last
      chunk does. */
  function PollSpec(inner: Inner, room: nat, parse: LineParser, s: seq<byte>): (p: Polled)
    requires inner.Read?
    ensures |p.rest| <= |s|
    ensures p.result.Ok? ==> |p.result.value| <= room && p.inner.Read? && !p.bye
    ensures p.result.Ok? && p.result.value != [] ==> |p.rest| < |s|
    ensures p.result.Ok? && p.result.value == [] ==> p.inner == Read(0, true)
    ensures p.bye ==> p.result.Err?
    decreases |s|
  {
    var chunk := Line.Take(s, Min(room, inner.limit));
    if chunk != [] then Polled(Ok(chunk), Read(inner.limit - |chunk|, inner.last), "", false, s[|chunk|..])
    else if inner.limit != 0 then Polled(Err(UnexpectedEof), inner, "", false, s)
    else if inner.last then Polled(Ok([]), inner, "", false, s)
    else
      var e := NextBdatSpec(parse, s);
      match e.result
      case Err(err) => Polled(Err(err), Write, e.written, e.bye, e.rest)
      case Ok((size, last)) =>
        var p := PollSpec(Read(size, last), room, parse, e.rest);
        p.(written := e.written + p.written)
  }

  /** `poll_read` as written: after an exchange that returns `BDAT 0
      LAST` it reports the end of the body but leaves the state at the
      spent exchange. */
  function PollSpecAsWritten(inner: Inner, room: nat, parse: LineParser, s: seq<byte>): (p: Polled)
    requires inner.Read?
    ensures |p.rest| <= |s|
    decreases |s|
  {
    var chunk := Line.Take(s, Min(room, inner.limit));
    if chunk != [] then Polled(Ok(chunk), Read(inner.limit - |chunk|, inner.last), "", false, s[|chunk|..])
    else if inner.limit != 0 then Polled(Err(UnexpectedEof), inner, "", false, s)
    else if inner.last then Polled(Ok([]), inner, "", false, s)
    else
      var e := NextBdatSpec(parse, s);
      match e.result
      case Err(err) => Polled(Err(err), Write, e.written, e.bye, e.rest)
      case Ok((size, last)) =>
        if size == 0 && last then Polled(Ok([]), Write, e.written, false, e.rest)
        else
          var p := PollSpecAsWritten(Read(size, last), room, parse, e.rest);
          p.(written := e.written + p.written)
  }

  // ---- a whole body ----

  /** A body read to its end: the bytes, how it ended, and the rest as
      for one poll. */
  datatype Drained = Drained(body: seq<byte>, result: Result<(), IoError>, inner: Inner, written: string, bye: bool, rest: seq<byte>)

  /** What a consumer such as `read_to_end` gets by polling with the same
      room until a poll returns nothing or an error. */
  function DrainSpec(inner: Inner, room: nat, parse: LineParser, s: seq<byte>): (d: Drained)
    requires inner.Read?
    ensures |d.rest| <= |s|
    ensures d.result.Ok? ==> d.inner == Read(0, true) && !d.bye
    ensures d.bye ==> d.result.Err?
    decreases |s|
  {
    var p := PollSpec(inner, room, parse, s);
    match p.result
    case Err(e) => Drained([], Err(e), p.inner, p.written, p.bye, p.rest)
    case Ok(chunk) =>
      if chunk == [] then Drained([], Ok(()), p.inner, p.written, false, p.rest)
      else
        var d := DrainSpec(p.inner, room, parse, p.rest);
        Drained(chunk + d.body, d.result, d.inner, p.written + d.written, d.bye, d.rest)
  }

  /** `Bdat`: the state, over the connection it reads from. */
  class BdatReader {
    var inner: Inner
    var conn: Line.Connection

    /** `Bdat::new`: reading the first chunk, of `size` bytes. */
    constructor (c: Line.Connection, size: nat, last: bool)
      ensures inner == Read(size, last) && conn == c
    {
      inner := Read(size, last);
      conn := c;
    }

    /** `take_stream`: the connection, only while a chunk is being read;
        the state is left empty either way. */
    method TakeStream() returns (s: Option<Line.Connection>)
      modifies this
      ensures s == if old(inner).Read? then Some(old(conn)) else None
      ensures inner == Gone && conn == old(conn)
    {
      s := if inner.Read? then Some(conn) else None;
      inner := Gone;
    }

    /** `poll_read`. Polling the spent exchange or the empty state panics,
        so a chunk must be in progress. */
    method PollRead(room: nat, parse: LineParser) returns (r: Result<seq<byte>, IoError>)
      requires inner.Read? && conn.Valid()
      modifies this, conn
      ensures conn == old(conn) && conn.Valid()
      ensures var p := PollSpec(old(inner), room, parse, old(conn.Remaining()));
        r == p.result && inner == p.inner && conn.output == old(conn.output) + p.written &&
        conn.Remaining() == p.rest && conn.open == (old(conn.open) && !p.bye)
      ensures conn.tls == old(conn.tls)
    {
      while true
        invariant conn == old(conn) && conn.Valid() && inner.Read?
        invariant var p0 := PollSpec(old(inner), room, parse, old(conn.Remaining()));
          var p := PollSpec(inner, room, parse, conn.Remaining());
          p0.result == p.result && p0.inner == p.inner && p0.rest == p.rest && p0.bye == p.bye &&
          old(conn.output) + p0.written == conn.output + p.written
        invariant conn.open == old(conn.open) && conn.tls == old(conn.tls)
        decreases |conn.Remaining()|
      {
        var chunk := conn.ReadTake(Min(room, inner.limit));
        if chunk != [] {
          inner := Read(inner.limit - |chunk|, inner.last);
          return Ok(chunk);
        }
        if inner.limit != 0 {
          return Err(UnexpectedEof);
        }
        if inner.last {
          return Ok([]);
        }
        ghost var s := conn.Remaining();
        ghost var out := conn.output;
        var next := NextBdat(conn, parse);
        if next.Err? {
          inner := Write;
          return Err(next.error);
        }
        inner := Read(next.value.0, next.value.1);
        AppendAssoc(out, NextBdatSpec(parse, s).written, PollSpec(inner, room, parse, conn.Remaining()).written);
      }
    }

    /** Polling until a poll returns nothing or an error; the bytes the
        polls returned, in order. */
    method ReadToEnd(room: nat, parse: LineParser) returns (body: seq<byte>, r: Result<(), IoError>)
      requires inner.Read? && conn.Valid()
      modifies this, conn
      ensures conn == old(conn) && conn.Valid()
      ensures var d := DrainSpec(old(inner), room, parse, old(conn.Remaining()));
        body == d.body && r == d.result && inner == d.inner && conn.output == old(conn.output) + d.written &&
        conn.Remaining() == d.rest && conn.open == (old(conn.open) && !d.bye)
      ensures conn.tls == old(conn.tls)
    {
      body := [];
      while true
        invariant conn == old(conn) && conn.Valid() && inner.Read?
        invariant var d0 := DrainSpec(old(inner), room, parse, old(conn.Remaining()));
          var d := DrainSpec(inner, room, parse, conn.Remaining());
          d0.body == body + d.body && d0.result == d.result && d0.inner == d.inner && d0.rest == d.rest &&
          d0.bye == d.bye && old(conn.output) + d0.written == conn.output + d.written
        invariant conn.open == old(conn.open) && conn.tls == old(conn.tls)
        decreases |conn.Remaining()|
      {
        ghost var s := conn.Remaining();
        ghost var st := inner;
        ghost var out := conn.output;
        var p := PollRead(room, parse);
        if p.Err? {
          return body, Err(p.error);
        }
        if p.value == [] {
          return body, Ok(());
        }
        ghost var d := DrainSpec(inner, room, parse, conn.Remaining());
        assert body + (p.value + d.body) == (body + p.value) + d.body;
        AppendAssoc(out, PollSpec(st, room, parse, s).written, d.written);
        body := body + p.value;
      }
    }
  }

  // ---- what the chunks deliver ----

  /** The rest of a chunk of `|p|` bytes, whatever the room (but none):
      the body goes on with exactly those bytes, read in polls of at most
      `room` bytes, and nothing is written. */
  lemma {:induction false} PayloadThenRest(room: nat, parse: LineParser, p: seq<byte>, last: bool, s: seq<byte>)
    requires room > 0
    ensures var d := DrainSpec(Read(0, last), room, parse, s);
      DrainSpec(Read(|p|, last), room, parse, p + s) == d.(body := p + d.body)
    decreases |p|
  {
    if p == [] {
      assert p + s == s;
    } else {
      var k := Min(room, |p|);
      PayloadStep(room, parse, p, last, s);
      PayloadThenRest(room, parse, p[k..], last, s);
      Chain(p, k, DrainSpec(Read(0, last), room, parse, s), DrainSpec(Read(|p| - k, last), room, parse, p[k..] + s),
        DrainSpec(Read(|p|, last), room, parse, p + s));
    }
  }

  lemma Chain(p: seq<byte>, k: nat, d: Drained, d1: Drained, x: Drained)
    requires k <= |p| && x == d1.(body := p[..k] + d1.body) && d1 == d.(body := p[k..] + d.body)
    ensures x == d.(body := p + d.body)
  {
    assert p[..k] + p[k..] == p;
  }

  /** One poll inside a chunk: as many of its bytes as fit. */
  lemma PayloadStep(room: nat, parse: LineParser, p: seq<byte>, last: bool, s: seq<byte>)
    requires room > 0 && p != []
    ensures var k := Min(room, |p|); var d := DrainSpec(Read(|p| - k, last), room, parse, p[k..] + s);
      |p[k..]| == |p| - k &&
      DrainSpec(Read(|p|, last), room, parse, p + s) == d.(body := p[..k] + d.body)
  {
    var k := Min(room, |p|);
    assert PollSpec(Read(|p|, last), room, parse, p + s) == Polled(Ok(p[..k]), Read(|p| - k, last), "", false, p[k..] + s) by {
      assert Line.Take(p + s, k) == p[..k];
      assert (p + s)[k..] == p[k..] + s;
    }
  }

  /** At the end of the last chunk the body ends, with nothing read or
      written. */
  lemma LastChunkDone(room: nat, parse: LineParser, s: seq<byte>)
    ensures DrainSpec(Read(0, true), room, parse, s) == Drained([], Ok(()), Read(0, true), "", false, s)
  {
  }

  /** At the end of a chunk that is not the last, the body goes on with the
      chunk the exchange announced, after what the exchange wrote. */
  lemma NextChunk(room: nat, parse: LineParser, s: seq<byte>)
    requires NextBdatSpec(parse, s).result.Ok?
    ensures var e := NextBdatSpec(parse, s); var (size, last) := e.result.value;
      var d := DrainSpec(Read(size, last), room, parse, e.rest);
      DrainSpec(Read(0, false), room, parse, s) == d.(written := e.written + d.written)
  {
    var e := NextBdatSpec(parse, s);
    var (size, last) := e.result.value;
    var q := PollSpec(Read(size, last), room, parse, e.rest);
    assert Line.Take(s, 0) == [];
    assert PollSpec(Read(0, false), room, parse, s) == q.(written := e.written + q.written);
    if q.result.Ok? && q.result.value != [] {
      AppendAssoc(e.written, q.written, DrainSpec(q.inner, room, parse, q.rest).written);
    }
  }

  /** A chunk after the first: the command line announcing it, whose CRLF
      the client adds, and its bytes. */
  datatype Chunk = Chunk(line: seq<byte>, payload: seq<byte>)

  /** What the client sends for the chunks. */
  function Sent(cs: seq<Chunk>): seq<byte>
  {
    if cs == [] then [] else cs[0].line + [CR, LF] + cs[0].payload + Sent(cs[1..])
  }

  /** The chunks' bytes, in order. */
  function Payloads(cs: seq<Chunk>): seq<byte>
  {
    if cs == [] then [] else cs[0].payload + Payloads(cs[1..])
  }

  /** `n` acknowledgements. */
  function Acks(n: nat): string
  {
    if n == 0 then "" else OK + Acks(n - 1)
  }

  /** Every chunk is announced by a line within the line limit that parses
      to BDAT with its size, LAST on the final one only. */
  predicate Announced(parse: LineParser, cs: seq<Chunk>)
  {
    forall i :: 0 <= i < |cs| ==>
      |cs[i].line| + 2 <= LINE_LIMIT && CommandLine(parse, cs[i].line, Bdat(|cs[i].payload|, i == |cs| - 1))
  }

  /** One announced chunk: the exchange reads its command and
      acknowledges the chunk before. */
  lemma ChunkCommand(parse: LineParser, c: Chunk, last: bool, rest: seq<byte>)
    requires |c.line| + 2 <= LINE_LIMIT && CommandLine(parse, c.line, Bdat(|c.payload|, last))
    ensures NextBdatSpec(parse, c.line + [CR, LF] + (c.payload + rest)) ==
      Exchange(Ok((|c.payload|, last)), OK, false, c.payload + rest)
  {
    ReadCmdLine(LINE_LIMIT, parse, c.line, c.payload + rest);
  }

  lemma SentCons(cs: seq<Chunk>, rest: seq<byte>)
    requires cs != []
    ensures Sent(cs) + rest == cs[0].line + [CR, LF] + (cs[0].payload + (Sent(cs[1..]) + rest))
  {
  }

  /** A body sent as a first chunk (announced by the command that started
      the transfer) and further announced chunks: the reader delivers the
      chunks' bytes in order, acknowledges each chunk but the last with
      `250 ok`, and leaves the input after the last chunk unread. */
  lemma {:induction false} ChunkedBody(room: nat, parse: LineParser, first: seq<byte>, cs: seq<Chunk>, rest: seq<byte>)
    requires room > 0 && Announced(parse, cs)
    ensures DrainSpec(Read(|first|, cs == []), room, parse, first + Sent(cs) + rest) ==
      Drained(first + Payloads(cs), Ok(()), Read(0, true), Acks(|cs|), false, rest)
    decreases |cs|
  {
    if cs == [] {
      LastPayload(room, parse, first, rest);
      NoChunks(first, rest);
    } else {
      AnnouncedTail(parse, cs);
      ChunkStep(room, parse, first, cs, rest);
      ChunkedBody(room, parse, cs[0].payload, cs[1..], rest);
    }
  }

  lemma NoChunks(first: seq<byte>, rest: seq<byte>)
    ensures first + Sent([]) + rest == first + rest && first + Payloads([]) == first && Acks(0) == ""
  {
  }

  /** The last chunk's bytes, then the input after it. */
  lemma LastPayload(room: nat, parse: LineParser, first: seq<byte>, rest: seq<byte>)
    requires room > 0
    ensures DrainSpec(Read(|first|, true), room, parse, first + rest) == Drained(first, Ok(()), Read(0, true), "", false, rest)
  {
    PayloadThenRest(room, parse, first, true, rest);
    LastChunkDone(room, parse, rest);
    assert first + [] == first;
  }

  /** A chunk that is not the last, then the announced chunks after it. */
  lemma ChunkStep(room: nat, parse: LineParser, first: seq<byte>, cs: seq<Chunk>, rest: seq<byte>)
    requires room > 0 && Announced(parse, cs) && cs != []
    ensures (DrainSpec(Read(|cs[0].payload|, cs[1..] == []), room, parse, cs[0].payload + Sent(cs[1..]) + rest) ==
        Drained(cs[0].payload + Payloads(cs[1..]), Ok(()), Read(0, true), Acks(|cs[1..]|), false, rest)) ==>
      DrainSpec(Read(|first|, false), room, parse, first + Sent(cs) + rest) ==
        Drained(first + Payloads(cs), Ok(()), Read(0, true), Acks(|cs|), false, rest)
  {
    AfterChunk(room, parse, cs, rest);
    PayloadThenRest(room, parse, first, false, Sent(cs) + rest);
    ChunkSums(first, cs, rest);
  }

  lemma ChunkSums(first: seq<byte>, cs: seq<Chunk>, rest: seq<byte>)
    requires cs != []
    ensures first + Sent(cs) + rest == first + (Sent(cs) + rest)
    ensures first + (cs[0].payload + Payloads(cs[1..])) == first + Payloads(cs)
    ensures Acks(|cs|) == OK + Acks(|cs[1..]|)
  {
  }

  lemma AnnouncedTail(parse: LineParser, cs: seq<Chunk>)
    requires Announced(parse, cs) && cs != []
    ensures Announced(parse, cs[1..])
  {
    var tail := cs[1..];
    forall i | 0 <= i < |tail|
      ensures |tail[i].line| + 2 <= LINE_LIMIT && CommandLine(parse, tail[i].line, Bdat(|tail[i].payload|, i == |tail| - 1))
    {
      assert tail[i] == cs[i + 1];
    }
  }

  lemma AnnouncedHead(parse: LineParser, cs: seq<Chunk>)
    requires Announced(parse, cs) && cs != []
    ensures |cs[0].line| + 2 <= LINE_LIMIT && CommandLine(parse, cs[0].line, Bdat(|cs[0].payload|, cs[1..] == []))
  {
    assert (0 == |cs| - 1) == (cs[1..] == []);
  }

  /** At the end of a chunk that is not the last: the next chunk's command
      is read and acknowledged, and the body goes on with its bytes. */
  lemma AfterChunk(room: nat, parse: LineParser, cs: seq<Chunk>, rest: seq<byte>)
    requires Announced(parse, cs) && cs != []
    ensures var d2 := DrainSpec(Read(|cs[0].payload|, cs[1..] == []), room, parse, cs[0].payload + Sent(cs[1..]) + rest);
      DrainSpec(Read(0, false), room, parse, Sent(cs) + rest) == d2.(written := OK + d2.written)
  {
    ChunkExchange(parse, cs, rest);
    NextChunk(room, parse, Sent(cs) + rest);
  }

  /** The exchange after a chunk reads the next chunk's command. */
  lemma ChunkExchange(parse: LineParser, cs: seq<Chunk>, rest: seq<byte>)
    requires Announced(parse, cs) && cs != []
    ensures NextBdatSpec(parse, Sent(cs) + rest) ==
      Exchange(Ok((|cs[0].payload|, cs[1..] == [])), OK, false, cs[0].payload + Sent(cs[1..]) + rest)
  {
    AnnouncedHead(parse, cs);
    SentCons(cs, rest);
    ChunkCommand(parse, cs[0], cs[1..] == [], Sent(cs[1..]) + rest);
    AppendAssoc3(cs[0].payload, Sent(cs[1..]), rest);
  }

  lemma AppendAssoc3(a: seq<byte>, b: seq<byte>, c: seq<byte>)
    ensures a + (b + c) == a + b + c
  {
  }

  /** Input that ends inside a chunk: its bytes are delivered, then the
      reader fails with `UnexpectedEof`. */
  lemma {:induction false} ShortChunk(room: nat, parse: LineParser, n: nat, p: seq<byte>, last: bool)
    requires room > 0 && |p| < n
    ensures DrainSpec(Read(n, last), room, parse, p) == Drained(p, Err(UnexpectedEof), Read(n - |p|, last), "", false, [])
    decreases |p|
  {
    if p == [] {
      ShortEnd(room, parse, n, last);
    } else {
      var j := Min(Min(room, n), |p|);
      ShortStep(room, parse, n, p, last, j);
      ShortChunk(room, parse, n - j, p[j..], last);
    }
  }

  lemma ShortEnd(room: nat, parse: LineParser, n: nat, last: bool)
    requires 0 < n
    ensures DrainSpec(Read(n, last), room, parse, []) == Drained([], Err(UnexpectedEof), Read(n, last), "", false, [])
  {
    assert Line.Take([], Min(room, n)) == [];
  }

  /** One poll of a short chunk, and the rest of it. */
  lemma ShortStep(room: nat, parse: LineParser, n: nat, p: seq<byte>, last: bool, j: nat)
    requires room > 0 && |p| < n && p != [] && j == Min(Min(room, n), |p|)
    ensures 0 < j && |p[j..]| < n - j && n - j - |p[j..]| == n - |p|
    ensures DrainSpec(Read(n - j, last), room, parse, p[j..]) == Drained(p[j..], Err(UnexpectedEof), Read(n - |p|, last), "", false, []) ==>
      DrainSpec(Read(n, last), room, parse, p) == Drained(p, Err(UnexpectedEof), Read(n - |p|, last), "", false, [])
  {
    ShortPoll(room, parse, n, p, last, j);
    DrainStep(Read(n, last), room, parse, p);
    assert p[..j] + p[j..] == p;
  }

  lemma ShortPoll(room: nat, parse: LineParser, n: nat, p: seq<byte>, last: bool, j: nat)
    requires room > 0 && |p| < n && p != [] && j == Min(Min(room, n), |p|)
    ensures PollSpec(Read(n, last), room, parse, p) == Polled(Ok(p[..j]), Read(n - j, last), "", false, p[j..])
  {
    assert Line.Take(p, Min(room, n)) == p[..j];
  }

  /** A poll that delivers bytes and writes nothing: the body starts with
      them and goes on from where the poll left. */
  lemma DrainStep(inner: Inner, room: nat, parse: LineParser, s: seq<byte>)
    requires inner.Read?
    requires var p := PollSpec(inner, room, parse, s); p.result.Ok? && p.result.value != [] && p.written == ""
    ensures var p := PollSpec(inner, room, parse, s); var d := DrainSpec(p.inner, room, parse, p.rest);
      DrainSpec(inner, room, parse, s) == d.(body := p.result.value + d.body)
  {
    var p := PollSpec(inner, room, parse, s);
    assert "" + DrainSpec(p.inner, room, parse, p.rest).written == DrainSpec(p.inner, room, parse, p.rest).written;
  }

  // ---- between chunks, command by command ----

  /** The end of the input while waiting for BDAT is an error, with
      nothing written. */
  lemma AwaitAtEnd(parse: LineParser)
    ensures AwaitBdat(parse, []) == Exchange(Err(UnexpectedEof), "", false, [])
  {
    ReadCmdEof(LINE_LIMIT, parse);
    AwaitStep(parse, []);
  }

  /** One command line while waiting: BDAT ends the wait with its size and
      flag; QUIT with `221 Bye`, the connection shut and an error; RSET
      with an error; NOOP is answered `250 ok` and anything else `503
      expected BDAT`, and the wait goes on with the next line. */
  lemma BetweenChunks(parse: LineParser, l: seq<byte>, c: Command, s: seq<byte>)
    requires |l| + 2 <= LINE_LIMIT && CommandLine(parse, l, c)
    ensures var e := AwaitBdat(parse, l + [CR, LF] + s); var e2 := AwaitBdat(parse, s);
      (c.Bdat? ==> e == Exchange(Ok((c.size, c.last)), "", false, s)) &&
      (c == Quit ==> e == Exchange(Err(UnexpectedEof), BYE, true, s)) &&
      (c == Rset ==> e == Exchange(Err(UnexpectedEof), "", false, s)) &&
      (c == Noop ==> e == e2.(written := OK + e2.written)) &&
      (!c.Bdat? && c != Quit && c != Rset && c != Noop ==> e == e2.(written := EXPECTED_BDAT + e2.written))
  {
    var t := l + [CR, LF] + s;
    assert ReadCmdSpec(LINE_LIMIT, parse, t) == ReadOutcome(Some(c), "", s) by {
      ReadCmdLine(LINE_LIMIT, parse, l, s);
    }
    AwaitStep(parse, t);
    EmptyFirst(Answer(c), AwaitBdat(parse, s).written);
    EmptyFirst(BYE, "");
  }

  lemma EmptyFirst(a: string, b: string)
    ensures "" + a + b == a + b
  {
  }

  // ---- the client's BDAT command ----

  /** The command a client sends for a chunk of `n` bytes. */
  function BdatText(n: nat, last: bool): string
  {
    "BDAT " + NatToString(n) + (if last then " LAST" else "")
  }

  lemma BdatTextShape(n: nat, last: bool)
    ensures var t := BdatText(n, last);
      Utf8.IsAscii(t) && '\n' !in t && t != [] && t[|t| - 1] != '\n' && t[|t| - 1] != '\r'
  {
    var d := NatToString(n);
    NatToStringDigits(n);
    var t := BdatText(n, last);
    assert forall i :: 0 <= i < |d| ==> IsDigit(d[i]);
    assert forall i :: 0 <= i < |t| ==> t[i] == (if i < 5 then "BDAT "[i] else if i < 5 + |d| then d[i - 5] else " LAST"[i - 5 - |d|]);
  }

  /** `BDAT n` and `BDAT n LAST`, sent as UTF-8, parse to the chunk's size
      and flag whenever the size fits in 64 bits. */
  lemma BdatLine(n: nat, last: bool, isAddress: AddressCheck)
    requires n <= U64_MAX
    ensures var t := BdatText(n, last); var l := Utf8.Encode(t);
      CommandLine(Parser(isAddress), l, Bdat(n, last)) && |l| == |t|
  {
    var t := BdatText(n, last);
    BdatTextShape(n, last);
    AsciiLine(t);
    TryFromAscii(t, isAddress);
    if last {
      BdatLastParses(n, isAddress);
    } else {
      BdatSizeParses(n, isAddress);
    }
  }

  lemma BdatVerb()
    ensures VerbOf(Upper("BDAT")) == BDAT
  {
    VerbOfName(BDAT);
    assert Name(BDAT) == "BDAT";
  }

  lemma BdatSizeParses(n: nat, isAddress: AddressCheck)
    requires n <= U64_MAX
    ensures Parse(BdatText(n, false), isAddress) == Ok(Bdat(n, false))
  {
    var d := NatToString(n);
    assert BdatText(n, false) == "BDAT" + " " + d;
    ParseLine("BDAT", d, isAddress);
    BdatVerb();
    BdatArgsSize(n, isAddress);
  }

  lemma BdatLastParses(n: nat, isAddress: AddressCheck)
    requires n <= U64_MAX
    ensures Parse(BdatText(n, true), isAddress) == Ok(Bdat(n, true))
  {
    var d := NatToString(n);
    BdatLastText(n);
    ParseLine("BDAT", d + " " + "LAST", isAddress);
    BdatVerb();
    UpperLast();
    BdatArgsLast(n, "LAST", isAddress);
  }

  lemma BdatLastText(n: nat)
    ensures BdatText(n, true) == "BDAT" + " " + (NatToString(n) + " " + "LAST")
  {
  }

  lemma UpperLast()
    ensures Upper("LAST") == "LAST"
  {
    UpperSame("LAST");
  }

  /** The chunked body of the BDAT example: `Edel` after `BDAT 4`, then
      `BDAT 2` and `we`, then `BDAT 2 LAST` and `i` followed by the byte
      0xDF. The body is `Edelwei` and 0xDF, and the chunks before the last
      are each acknowledged once. */
  lemma EdelweissExample(room: nat, isAddress: AddressCheck)
    requires room > 0
    ensures var l1 := Utf8.Encode(BdatText(2, false)); var l2 := Utf8.Encode(BdatText(2, true));
      var input := [69, 100, 101, 108] + l1 + [CR, LF] + [119, 101] + l2 + [CR, LF] + [105, 0xDF];
      DrainSpec(Read(4, false), room, Parser(isAddress), input) ==
        Drained([69, 100, 101, 108, 119, 101, 105, 0xDF], Ok(()), Read(0, true), OK + OK, false, [])
  {
    BdatLine(2, false, isAddress);
    BdatLine(2, true, isAddress);
    BdatTextLength(2, false);
    BdatTextLength(2, true);
    Edelweiss(room, Parser(isAddress), Utf8.Encode(BdatText(2, false)), Utf8.Encode(BdatText(2, true)));
  }

  lemma BdatTextLength(n: nat, last: bool)
    requires n < 10
    ensures |BdatText(n, last)| <= 11
  {
  }

  /** The example over any two lines that announce its chunks. */
  lemma Edelweiss(room: nat, parse: LineParser, l1: seq<byte>, l2: seq<byte>)
    requires room > 0
    requires |l1| + 2 <= LINE_LIMIT && CommandLine(parse, l1, Bdat(2, false))
    requires |l2| + 2 <= LINE_LIMIT && CommandLine(parse, l2, Bdat(2, true))
    ensures var input := [69, 100, 101, 108] + l1 + [CR, LF] + [119, 101] + l2 + [CR, LF] + [105, 0xDF];
      DrainSpec(Read(4, false), room, parse, input) ==
        Drained([69, 100, 101, 108, 119, 101, 105, 0xDF], Ok(()), Read(0, true), OK + OK, false, [])
  {
    var cs := [Chunk(l1, [119, 101]), Chunk(l2, [105, 0xDF])];
    EdelweissAnnounced(parse, l1, l2);
    EdelweissBytes(l1, l2);
    ChunkedBody(room, parse, [69, 100, 101, 108], cs, []);
  }

  lemma EdelweissAnnounced(parse: LineParser, l1: seq<byte>, l2: seq<byte>)
    requires |l1| + 2 <= LINE_LIMIT && CommandLine(parse, l1, Bdat(2, false))
    requires |l2| + 2 <= LINE_LIMIT && CommandLine(parse, l2, Bdat(2, true))
    ensures Announced(parse, [Chunk(l1, [119, 101]), Chunk(l2, [105, 0xDF])])
  {
  }

  /** The example's input, body and acknowledgements, as chunks. */
  lemma EdelweissBytes(l1: seq<byte>, l2: seq<byte>)
    ensures var cs := [Chunk(l1, [119, 101]), Chunk(l2, [105, 0xDF])];
      [69, 100, 101, 108] + l1 + [CR, LF] + [119, 101] + l2 + [CR, LF] + [105, 0xDF] == [69, 100, 101, 108] + Sent(cs) + [] &&
      [69, 100, 101, 108] + Payloads(cs) == [69, 100, 101, 108, 119, 101, 105, 0xDF] &&
      |cs| == 2 && Acks(|cs|) == OK + OK
  {
    var cs := [Chunk(l1, [119, 101]), Chunk(l2, [105, 0xDF])];
    TwoChunks(cs[0], cs[1]);
    assert cs == [cs[0], cs[1]];
    Regroup([69, 100, 101, 108], l1, [CR, LF], [119, 101], l2, [CR, LF], [105, 0xDF]);
    assert [69, 100, 101, 108] + ([119, 101] + [105, 0xDF]) == [69, 100, 101, 108, 119, 101, 105, 0xDF];
  }

  lemma TwoChunks(c1: Chunk, c2: Chunk)
    ensures Sent([c1, c2]) == c1.line + [CR, LF] + c1.payload + (c2.line + [CR, LF] + c2.payload)
    ensures Payloads([c1, c2]) == c1.payload + c2.payload
  {
    assert [c1, c2][1..] == [c2];
    assert [c2][1..] == [];
    var x := c2.line + [CR, LF] + c2.payload;
    assert Sent([c2]) == x + [];
    assert x + [] == x;
    assert Payloads([c2]) == c2.payload + [];
    assert c2.payload + [] == c2.payload;
  }

  lemma Regroup(a: seq<byte>, b: seq<byte>, c: seq<byte>, d: seq<byte>, e: seq<byte>, f: seq<byte>, g: seq<byte>)
    ensures a + b + c + d + e + f + g == a + (b + c + d + (e + f + g)) + []
  {
  }

  // ---- BDAT 0 LAST after a chunk ----

  /** The poll as written and the corrected poll agree on what they
      return, write and leave unread; they differ only after an exchange
      returning `BDAT 0 LAST`, where the one as written leaves the spent
      exchange as its state. */
  lemma {:induction false} AsWrittenDiffersOnlyInState(inner: Inner, room: nat, parse: LineParser, s: seq<byte>)
    requires inner.Read?
    ensures var a := PollSpecAsWritten(inner, room, parse, s); var p := PollSpec(inner, room, parse, s);
      a.result == p.result && a.written == p.written && a.bye == p.bye && a.rest == p.rest &&
      (a.inner != p.inner ==> a.inner == Write && p.inner == Read(0, true))
    decreases |s|
  {
    var chunk := Line.Take(s, Min(room, inner.limit));
    if chunk == [] && inner.limit == 0 && !inner.last {
      var e := NextBdatSpec(parse, s);
      if e.result.Ok? {
        var (size, last) := e.result.value;
        if size == 0 && last {
          assert Line.Take(e.rest, 0) == [];
          assert e.written + "" == e.written;
        } else {
          AsWrittenDiffersOnlyInState(Read(size, last), room, parse, e.rest);
        }
      }
    }
  }

  /** Once a chunk that is not the last is complete, a following `BDAT 0
      LAST` ends the body as written, but in the spent-exchange state, from
      which `take_stream` returns nothing; `accept` and `reject` unwrap
      that nothing. Corrected, the reader is left at the end of a last
      chunk and keeps its connection. */
  lemma ZeroLastLosesStream(room: nat, isAddress: AddressCheck)
    ensures var s := Utf8.Encode(BdatText(0, true)) + [CR, LF];
      var a := PollSpecAsWritten(Read(0, false), room, Parser(isAddress), s);
      a == Polled(Ok([]), Write, OK, false, []) && !a.inner.Read? &&
      PollSpec(Read(0, false), room, Parser(isAddress), s) == Polled(Ok([]), Read(0, true), OK, false, [])
  {
    BdatLine(0, true, isAddress);
    BdatTextLength(0, true);
    ZeroLastPoll(room, Parser(isAddress), Utf8.Encode(BdatText(0, true)));
  }

  /** The same over any line announcing `BDAT 0 LAST`. */
  lemma ZeroLastPoll(room: nat, parse: LineParser, l: seq<byte>)
    requires |l| + 2 <= LINE_LIMIT && CommandLine(parse, l, Bdat(0, true))
    ensures PollSpecAsWritten(Read(0, false), room, parse, l + [CR, LF]) == Polled(Ok([]), Write, OK, false, [])
    ensures PollSpec(Read(0, false), room, parse, l + [CR, LF]) == Polled(Ok([]), Read(0, true), OK, false, [])
  {
    assert NextBdatSpec(parse, l + [CR, LF]) == Exchange(Ok((0, true)), OK, false, []) by {
      ChunkCommand(parse, Chunk(l, []), true, []);
      assert l + [CR, LF] + ([] + []) == l + [CR, LF];
    }
    assert Line.Take(l + [CR, LF], 0) == [];
    assert Line.Take([], 0) == [];
    assert OK + "" == OK;
  }
}
