/** A client connection seen as the servers see it: bytes arrive from the
    peer chunk by chunk into a read buffer, lines are read up to and
    including LF, and the connection can be switched to TLS once nothing is
    left in the read buffer (crates/line/src/lib.rs). */
module Line {
  import opened Wrappers
  import opened Text

  predicate IsNewline(b: byte) { b == CR || b == LF }

  /** `rposition(|&c| c != b'\r' && c != b'\n').map(|p| p + 1).unwrap_or(0)`:
      the length of `b` without its trailing run of CR and LF bytes. */
  function KeptLength(b: seq<byte>): (k: nat)
    ensures k <= |b|
    ensures k == 0 || !IsNewline(b[k - 1])
    ensures forall i :: k <= i < |b| ==> IsNewline(b[i])
  {
    if b != [] && IsNewline(b[|b| - 1]) then KeptLength(b[..|b| - 1]) else |b|
  }

  /** `buf.truncate(rpos)`: the bytes without their trailing CR and LF. */
  function TrimNewlines(b: seq<byte>): (r: seq<byte>)
    ensures r <= b
    ensures r == [] || !IsNewline(r[|r| - 1])
    ensures forall i :: |r| <= i < |b| ==> IsNewline(b[i])
  {
    b[..KeptLength(b)]
  }

  /** The first position of `x` in `b`. */
  function FindByte(b: seq<byte>, x: byte): (r: Option<nat>)
    ensures r.Some? ==> r.value < |b| && b[r.value] == x && x !in b[..r.value]
    ensures r.None? ==> x !in b
  {
    if b == [] then None
    else if b[0] == x then Some(0)
    else
      match FindByte(b[1..], x)
      case None => None
      case Some(i) =>
        assert b[..i + 1] == [b[0]] + b[1..][..i];
        Some(i + 1)
  }

  /** What `read_until(b'\n', …)` takes from the bytes still to be read:
      everything up to and including the first LF, or all of it when there
      is no LF. */
  function NextLine(s: seq<byte>): (raw: seq<byte>)
    ensures raw <= s
  {
    match FindByte(s, LF)
    case None => s
    case Some(i) => s[..i + 1]
  }

  /** Where `x` first occurs is the only place before which it does not. */
  lemma {:induction false} FindByteAt(b: seq<byte>, x: byte, i: nat)
    requires i < |b| && b[i] == x && x !in b[..i]
    ensures FindByte(b, x) == Some(i)
    decreases i
  {
    if i > 0 {
      assert b[0] in b[..i];
      assert b[1..][..i - 1] == b[1..i];
      assert forall y :: y in b[1..i] ==> y in b[..i];
      FindByteAt(b[1..], x, i - 1);
    }
  }

  /** The bytes of the chunks, in order. */
  function Flatten(xs: seq<seq<byte>>): seq<byte>
  {
    if xs == [] then [] else xs[0] + Flatten(xs[1..])
  }

  datatype ReadLineError = Eof

  /** `Connection::upgrade` asserts that the read buffer is empty; bytes
      the client sent after the command that asked for TLS are refused. */
  datatype UpgradeError = BufferNotEmpty

  /** `Connection`: the read buffer (`BufReader`), the chunks the peer has
      still to send, everything written so far, and whether TLS is in use. */
  class Connection {
    var buffered: seq<byte>
    var arrivals: seq<seq<byte>>
    var output: string
    var tls: bool
    var open: bool

    /** A read of zero bytes is the end of the input, so every chunk the
        peer sends holds at least one byte. */
    ghost predicate Valid()
      reads this
    {
      forall i :: 0 <= i < |arrivals| ==> arrivals[i] != []
    }

    /** Everything the program can still read, in order. */
    function Remaining(): seq<byte>
      reads this
    {
      buffered + Flatten(arrivals)
    }

    /** `Connection::new`: nothing buffered, nothing written. */
    constructor (input: seq<seq<byte>>, isTls: bool)
      requires forall i :: 0 <= i < |input| ==> input[i] != []
      ensures Valid()
      ensures buffered == [] && arrivals == input && output == [] && tls == isTls && open
      ensures Remaining() == Flatten(input)
    {
      buffered := [];
      arrivals := input;
      output := [];
      tls := isTls;
      open := true;
    }

    /** The read buffer ran dry: it is filled with the next chunk the peer
        sends. */
    method Refill()
      requires Valid() && buffered == [] && arrivals != []
      modifies this
      ensures Valid() && buffered != []
      ensures Remaining() == old(Remaining())
      ensures output == old(output) && tls == old(tls) && open == old(open)
    {
      FlattenCons(arrivals);
      buffered := arrivals[0];
      arrivals := arrivals[1..];
    }

    /** `read_until(b'\n', buf)`: refill the read buffer from the next chunk
        when it is empty, take up to the first LF, stop at LF or at the end
        of the input. */
    method ReadUntilNewline() returns (raw: seq<byte>)
      requires Valid()
      modifies this
      ensures Valid()
      ensures raw == NextLine(old(Remaining()))
      ensures Remaining() == old(Remaining())[|raw|..]
      ensures output == old(output) && tls == old(tls) && open == old(open)
    {
      raw := [];
      while true
        invariant Valid()
        invariant old(Remaining()) == raw + Remaining()
        invariant LF !in raw
        invariant output == old(output) && tls == old(tls) && open == old(open)
        decreases |Remaining()|
      {
        if buffered == [] {
          if arrivals == [] {
            EndOfInput(raw, old(Remaining()));
            return;
          }
          Refill();
        }
        var more := Flatten(arrivals);
        assert old(Remaining()) == raw + (buffered + more);
        match FindByte(buffered, LF)
        case Some(i) =>
          TakeLine(raw, buffered, i, more);
          raw := raw + buffered[..i + 1];
          buffered := buffered[i + 1..];
          return;
        case None =>
          TakeChunk(raw, buffered, more);
          raw := raw + buffered;
          buffered := [];
      }
    }

    /** `read_line`: one line, without its trailing CR and LF bytes; the end
        of the input when no byte at all is left. The caller's buffer
        must be empty. */
    method ReadLine(buf: seq<byte>) returns (r: Result<(), ReadLineError>, line: seq<byte>)
      requires buf == []
      requires Valid()
      modifies this
      ensures Valid()
      ensures r.Err? <==> old(Remaining()) == []
      ensures r.Err? ==> line == []
      ensures line == TrimNewlines(NextLine(old(Remaining())))
      ensures Remaining() == old(Remaining())[|NextLine(old(Remaining()))|..]
      ensures output == old(output) && tls == old(tls) && open == old(open)
    {
      var raw := ReadUntilNewline();
      line := buf + raw;
      assert line == raw;
      NextLineShape(old(Remaining()));
      if |raw| == 0 {
        return Err(Eof), line;
      }
      line := line[..KeptLength(line)];
      r := Ok(());
    }

    /** `read_until(b'\n', …)` through `take(limit)`: as `ReadUntilNewline`,
        but no more than `limit` bytes are taken, LF or not. */
    method ReadUntilLimit(limit: nat) returns (raw: seq<byte>)
      requires Valid()
      modifies this
      ensures Valid()
      ensures raw == NextLine(Take(old(Remaining()), limit))
      ensures Remaining() == old(Remaining())[|raw|..]
      ensures output == old(output) && tls == old(tls) && open == old(open)
    {
      ghost var r0 := Remaining();
      raw := [];
      while |raw| < limit
        invariant Valid()
        invariant |raw| <= limit && LF !in raw
        invariant r0 == raw + Remaining()
        invariant output == old(output) && tls == old(tls) && open == old(open)
        decreases limit - |raw|
      {
        if buffered == [] {
          if arrivals == [] {
            LineOfAll(r0, raw, limit);
            return;
          }
          Refill();
        }
        var k := limit - |raw|;
        var m := if |buffered| <= k then |buffered| else k;
        match FindByte(buffered[..m], LF)
        case Some(i) =>
          LineEndsIn(r0, raw, buffered, Flatten(arrivals), m, i, limit);
          raw := raw + buffered[..i + 1];
          buffered := buffered[i + 1..];
          return;
        case None =>
          LineGoesOn(raw, buffered, Flatten(arrivals), m);
          raw := raw + buffered[..m];
          buffered := buffered[m..];
      }
      LineOfAll(r0, raw, limit);
    }

    /** `read_line` through `take(limit)`: a line of at most `limit` bytes,
        without its trailing CR and LF bytes; the end of the input when no
        byte at all was taken. The caller's buffer must be empty. */
    method ReadLineLimit(buf: seq<byte>, limit: nat) returns (r: Result<(), ReadLineError>, line: seq<byte>)
      requires buf == []
      requires Valid()
      modifies this
      ensures Valid()
      ensures r.Err? <==> NextLine(Take(old(Remaining()), limit)) == []
      ensures limit > 0 ==> (r.Err? <==> old(Remaining()) == [])
      ensures line == TrimNewlines(NextLine(Take(old(Remaining()), limit)))
      ensures Remaining() == old(Remaining())[|NextLine(Take(old(Remaining()), limit))|..]
      ensures output == old(output) && tls == old(tls) && open == old(open)
    {
      var raw := ReadUntilLimit(limit);
      line := buf + raw;
      assert line == raw;
      NextLineShape(Take(old(Remaining()), limit));
      if |raw| == 0 {
        return Err(Eof), line;
      }
      line := line[..KeptLength(line)];
      r := Ok(());
    }

    /** `take(n)` read to its end: the next `n` bytes, or all that is left
        when fewer remain. */
    method ReadTake(n: nat) returns (chunk: seq<byte>)
      requires Valid()
      modifies this
      ensures Valid()
      ensures chunk == Take(old(Remaining()), n)
      ensures Remaining() == old(Remaining())[|chunk|..]
      ensures output == old(output) && tls == old(tls) && open == old(open)
    {
      ghost var r0 := Remaining();
      chunk := [];
      while |chunk| < n
        invariant Valid()
        invariant |chunk| <= n
        invariant r0 == chunk + Remaining()
        invariant output == old(output) && tls == old(tls) && open == old(open)
        decreases n - |chunk|
      {
        if buffered == [] {
          if arrivals == [] {
            break;
          }
          Refill();
        }
        var k := n - |chunk|;
        var m := if |buffered| <= k then |buffered| else k;
        Shift(chunk, buffered, m, Flatten(arrivals));
        chunk := chunk + buffered[..m];
        buffered := buffered[m..];
      }
      TakeOfAll(r0, chunk, n);
    }

    /** `read_u8`: the next byte, or nothing at the end of the input. */
    method ReadByte() returns (b: Option<byte>)
      requires Valid()
      modifies this
      ensures Valid()
      ensures old(Remaining()) == [] ==> b == None && Remaining() == []
      ensures old(Remaining()) != [] ==> b == Some(old(Remaining())[0]) && Remaining() == old(Remaining())[1..]
      ensures output == old(output) && tls == old(tls) && open == old(open)
    {
      var c := ReadTake(1);
      if c == [] {
        return None;
      }
      b := Some(c[0]);
    }

    /** `write` and `write_flush`: the text is appended to what the peer
        receives. */
    method Write(s: string)
      modifies this
      ensures output == old(output) + s
      ensures buffered == old(buffered) && arrivals == old(arrivals)
      ensures tls == old(tls) && open == old(open)
    {
      output := output + s;
    }

    /** `Connection::upgrade`: refused while the read buffer holds bytes;
        otherwise the connection goes on over TLS. */
    method Upgrade() returns (r: Result<(), UpgradeError>)
      modifies this
      ensures r.Ok? <==> old(buffered) == []
      ensures tls == (old(tls) || r.Ok?)
      ensures buffered == old(buffered) && arrivals == old(arrivals)
      ensures output == old(output) && open == old(open)
    {
      if buffered != [] {
        return Err(BufferNotEmpty);
      }
      tls := true;
      r := Ok(());
    }

    /** `shutdown`. */
    method Shutdown()
      modifies this
      ensures !open
      ensures buffered == old(buffered) && arrivals == old(arrivals)
      ensures output == old(output) && tls == old(tls)
    {
      open := false;
    }
  }

  /** What `take(n)` lets a reader see of `s`: its first `n` bytes. */
  function Take(s: seq<byte>, n: nat): (t: seq<byte>)
    ensures |t| <= n && |t| <= |s|
  {
    if n < |s| then s[..n] else s
  }

  /** What was read is all of `take(n)`: either the limit was reached or
      nothing is left. */
  lemma TakeOfAll(r0: seq<byte>, chunk: seq<byte>, n: nat)
    requires chunk <= r0 && |chunk| <= n
    requires |chunk| == n || chunk == r0
    ensures Take(r0, n) == chunk
  {
  }

  /** No LF in all that `take(limit)` lets through: it is the line. */
  lemma LineOfAll(r0: seq<byte>, raw: seq<byte>, limit: nat)
    requires raw <= r0 && |raw| <= limit && LF !in raw
    requires |raw| == limit || raw == r0
    ensures NextLine(Take(r0, limit)) == raw
  {
    TakeOfAll(r0, raw, limit);
    NoNewline(raw);
  }

  /** The first LF within the limit ends the line. */
  lemma LineEnded(r0: seq<byte>, raw: seq<byte>, limit: nat)
    requires raw <= r0 && 0 < |raw| <= limit && raw[|raw| - 1] == LF && LF !in raw[..|raw| - 1]
    ensures NextLine(Take(r0, limit)) == raw
  {
    var t := Take(r0, limit);
    assert t[..|raw| - 1] == raw[..|raw| - 1];
    FindByteAt(t, LF, |raw| - 1);
    assert t[..|raw|] == raw;
  }

  /** Moving the first `m` buffered bytes to what was read keeps the
      bytes in order. */
  lemma Shift(read: seq<byte>, b: seq<byte>, m: nat, more: seq<byte>)
    requires m <= |b|
    ensures read + (b + more) == (read + b[..m]) + (b[m..] + more)
  {
    assert b == b[..m] + b[m..];
  }

  /** An LF among the `m` bytes the limit still allows ends the line. */
  lemma LineEndsIn(r0: seq<byte>, raw: seq<byte>, b: seq<byte>, more: seq<byte>, m: nat, i: nat, limit: nat)
    requires r0 == raw + (b + more) && m <= |b| && |raw| + m <= limit && LF !in raw
    requires FindByte(b[..m], LF) == Some(i)
    ensures NextLine(Take(r0, limit)) == raw + b[..i + 1]
    ensures r0 == (raw + b[..i + 1]) + (b[i + 1..] + more)
  {
    Shift(raw, b, i + 1, more);
    var line := raw + b[..i + 1];
    assert line[..|line| - 1] == raw + b[..m][..i];
    LineEnded(r0, line, limit);
  }

  /** No LF among them: they join the line and reading goes on. */
  lemma LineGoesOn(raw: seq<byte>, b: seq<byte>, more: seq<byte>, m: nat)
    requires m <= |b| && LF !in raw && LF !in b[..m]
    ensures LF !in raw + b[..m]
    ensures raw + (b + more) == (raw + b[..m]) + (b[m..] + more)
  {
    Shift(raw, b, m, more);
  }

  lemma FlattenCons(xs: seq<seq<byte>>)
    requires xs != []
    ensures Flatten(xs) == xs[0] + Flatten(xs[1..])
  {
  }

  /** The input ended: what was taken is the whole line. */
  lemma EndOfInput(raw: seq<byte>, s: seq<byte>)
    requires s == raw + ([] + Flatten([])) && LF !in raw
    ensures raw == NextLine(s) && [] + Flatten([]) == s[|raw|..]
  {
    assert s == raw;
    NoNewline(raw);
  }

  /** A chunk with an LF ends the line after its first LF. */
  lemma TakeLine(raw: seq<byte>, b: seq<byte>, i: nat, more: seq<byte>)
    requires LF !in raw && FindByte(b, LF) == Some(i)
    ensures NextLine(raw + (b + more)) == raw + b[..i + 1]
    ensures (raw + (b + more))[|raw + b[..i + 1]|..] == b[i + 1..] + more
  {
    var s := raw + (b + more);
    var j := |raw| + i;
    assert s[..j] == raw + b[..i];
    assert s[j] == LF;
    FindByteAt(s, LF, j);
    assert s[..j + 1] == raw + b[..i + 1];
  }

  /** A chunk without LF is taken whole. */
  lemma TakeChunk(raw: seq<byte>, b: seq<byte>, more: seq<byte>)
    requires LF !in b && LF !in raw
    ensures LF !in raw + b
    ensures raw + (b + more) == (raw + b) + ([] + more)
  {
  }

  /** The line of bytes that hold no LF is all of them. */
  lemma NoNewline(s: seq<byte>)
    requires LF !in s
    ensures NextLine(s) == s
  {
  }

  /** Bytes without LF, an LF, then anything: the line ends at that LF. */
  lemma LineAt(a: seq<byte>, rest: seq<byte>)
    requires LF !in a
    ensures NextLine(a + [LF] + rest) == a + [LF]
  {
    var s := a + [LF] + rest;
    assert s[..|a|] == a;
    FindByteAt(s, LF, |a|);
    assert s[..|a| + 1] == a + [LF];
  }

  /** The facts `read_line` is built on: the line is a prefix of the input,
      nonempty when the input is, ends at the first LF when there is one and
      is all of the input otherwise. */
  lemma NextLineShape(s: seq<byte>)
    ensures var raw := NextLine(s);
      raw <= s && (s != [] ==> raw != []) &&
      (LF in s ==> raw != [] && raw[|raw| - 1] == LF && LF !in raw[..|raw| - 1]) &&
      (LF !in s ==> raw == s)
  {
    match FindByte(s, LF)
    case None =>
    case Some(i) =>
      assert NextLine(s)[..i] == s[..i];
  }

  // ---- properties ----

  /** Trimming removes only CR and LF bytes, all of the trailing ones, and
      a second trim changes nothing. */
  lemma TrimNewlinesFacts(b: seq<byte>)
    ensures var r := TrimNewlines(b);
      b == r + b[|r|..] && (forall i :: 0 <= i < |b| - |r| ==> IsNewline(b[|r|..][i]))
      && TrimNewlines(r) == r
  {
  }

  /** A line sent with CRLF, LF or nothing at its end reads as the same
      line, provided the line itself ends in neither. */
  lemma TrimTerminators(l: seq<byte>)
    requires l == [] || !IsNewline(l[|l| - 1])
    ensures TrimNewlines(l) == l
    ensures TrimNewlines(l + [LF]) == l
    ensures TrimNewlines(l + [CR, LF]) == l
  {
    assert (l + [LF])[..|l|] == l;
    assert (l + [CR, LF])[..|l| + 1] == l + [CR];
    assert (l + [CR])[..|l|] == l;
  }

  /** A bare CRLF is an empty line, not the end of the input. */
  lemma EmptyLine(rest: seq<byte>)
    ensures NextLine([CR, LF] + rest) == [CR, LF]
    ensures TrimNewlines(NextLine([CR, LF] + rest)) == []
  {
    LineAt([CR], rest);
    assert [CR] + [LF] + rest == [CR, LF] + rest;
    assert [CR] + [LF] == [CR, LF];
  }

  /** A line ended by CRLF and followed by more input reads as that line,
      and the rest is left to be read. */
  lemma LineThenRest(l: seq<byte>, rest: seq<byte>)
    requires LF !in l && (l == [] || !IsNewline(l[|l| - 1]))
    ensures NextLine(l + [CR, LF] + rest) == l + [CR, LF]
    ensures TrimNewlines(l + [CR, LF]) == l
    ensures (l + [CR, LF] + rest)[|l| + 2..] == rest
  {
    LineAt(l + [CR], rest);
    assert l + [CR] + [LF] == l + [CR, LF];
    TrimTerminators(l);
  }
}
