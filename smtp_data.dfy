/** The DATA reader: a byte automaton that removes the transparency dots
    of RFC 5321 section 4.5.2 from the message text and stops at the line
    holding a single dot. `State`, `Advance` and `Feed` are the automaton
    as the server has it; `Scan`, `Step` and `Run` are the corrected one
    that `DataReader` reads with. */
module SmtpData {
  import opened Text
  import Line

  const DOT: byte := 46

  /** `poll_read` reads another byte only while the caller's buffer has
      this much room. */
  const ROOM_CHECK: nat := 5

  /** What feeding bytes to an automaton gave: the message text it
      appended, the state it stopped in and how many bytes it used. */
  datatype Outcome<S> = Outcome(body: seq<byte>, state: S, used: nat)

  // ---- message text on the wire ----

  /** A line of message text: no CR and no LF in it. */
  predicate PlainLine(l: seq<byte>)
  {
    CR !in l && LF !in l
  }

  /** The client's side of transparency: a line that starts with a dot
      gets one more. */
  function Stuffed(l: seq<byte>): (t: seq<byte>)
    ensures PlainLine(l) ==> PlainLine(t)
  {
    if |l| > 0 && l[0] == DOT then [DOT] + l else l
  }

  /** The lines of a message, each ended by CRLF. */
  function Join(lines: seq<seq<byte>>): seq<byte>
  {
    if lines == [] then [] else lines[0] + [CR, LF] + Join(lines[1..])
  }

  /** What the client sends after `354`: the stuffed lines, each ended by
      CRLF, then the line holding a single dot. */
  function Transmit(lines: seq<seq<byte>>): seq<byte>
  {
    if lines == [] then [DOT, CR, LF] else Stuffed(lines[0]) + [CR, LF] + Transmit(lines[1..])
  }

  // ---- the automaton as written ----

  /** The reader's states: how much of a `CR LF . . CR` pattern it has
      seen and holds back; `Eof` after `CR LF . CR LF`. */
  datatype State = Start | Cr | CrLf | CrLfDot | CrLfDotCr | CrLfDotDot | CrLfDotDotCr | Eof

  /** `State::as_bytes`: the bytes a state holds back; `Start` and `Eof`
      hold none and are never asked. */
  function HeldBytes(st: State): (h: seq<byte>)
    requires st != Start && st != Eof
    ensures 1 <= |h| <= 5 && h[0] == CR
  {
    match st
    case Cr => [CR]
    case CrLf => [CR, LF]
    case CrLfDot => [CR, LF, DOT]
    case CrLfDotCr => [CR, LF, DOT, CR]
    case CrLfDotDot => [CR, LF, DOT, DOT]
    case CrLfDotDotCr => [CR, LF, DOT, DOT, CR]
  }

  /** `State::advance` from `Start`: a CR is held, any other byte is
      appended at once. */
  function FromStart(b: byte): (r: (State, seq<byte>))
  {
    if b == CR then (Cr, []) else (Start, [b])
  }

  /** `State::advance`: the next state and the bytes appended to the
      caller's buffer. A state whose pattern the byte breaks gives back
      what it held and advances again from `Start` with the same byte,
      where the recursion ends. A byte after `Eof` is a panic. */
  function Advance(st: State, b: byte): (r: (State, seq<byte>))
    requires st != Eof
    ensures r.0 == Eof <==> st == CrLfDotCr && b == LF
    ensures r.0 == Cr <==> b == CR && st != CrLfDot && st != CrLfDotDot
  {
    if st == Start then FromStart(b)
    else if st == Cr && b == LF then (CrLf, [])
    else if st == CrLf && b == DOT then (CrLfDot, [])
    else if st == CrLfDot && b == CR then (CrLfDotCr, [])
    else if st == CrLfDot && b == DOT then (CrLfDotDot, [])
    else if st == CrLfDotDot && b == CR then (CrLfDotDotCr, [])
    else if st == CrLfDotDotCr && b == LF then (CrLf, [CR, LF, DOT])
    else if st == CrLfDotCr && b == LF then (Eof, [CR, LF])
    else
      var again := FromStart(b);
      (again.0, HeldBytes(st) + again.1)
  }

  /** One `advance` appends at most six bytes, and six exactly when a
      held `CR LF . . CR` meets a byte other than CR or LF. */
  lemma AdvanceOutputBound(st: State, b: byte)
    requires st != Eof
    ensures |Advance(st, b).1| <= 6
    ensures |Advance(st, b).1| == 6 <==> st == CrLfDotDotCr && b != LF && b != CR
  {
  }

  /** The `poll_read` loop as written, over the whole input: advance byte
      by byte until `Eof` or until the input ends. */
  function Feed(st: State, s: seq<byte>): (o: Outcome<State>)
    decreases |s|
    ensures o.used <= |s|
    ensures o.state == Eof || o.used == |s|
    ensures st == Eof ==> o == Outcome([], Eof, 0)
  {
    if st == Eof || s == [] then Outcome([], st, 0)
    else
      var (st2, out) := Advance(st, s[0]);
      var o := Feed(st2, s[1..]);
      Outcome(out + o.body, o.state, o.used + 1)
  }

  /** Feeding two pieces is feeding the first, then the second from where
      the first stopped. */
  lemma {:induction false} FeedAppend(st: State, a: seq<byte>, b: seq<byte>)
    ensures var fa := Feed(st, a); var fb := Feed(fa.state, b);
      (fa.state == Eof ==> Feed(st, a + b) == fa) &&
      (fa.state != Eof ==> Feed(st, a + b) == Outcome(fa.body + fb.body, fb.state, |a| + fb.used))
    decreases |a|
  {
    if st != Eof && a != [] {
      assert (a + b)[1..] == a[1..] + b;
      FeedAppend(Advance(st, a[0]).0, a[1..], b);
    } else if a == [] {
      assert a + b == b;
    }
  }

  /** One byte, then the rest. */
  lemma FeedCons(st: State, b: byte, s: seq<byte>)
    requires st != Eof
    ensures var (st2, out) := Advance(st, b); var o := Feed(st2, s);
      Feed(st, [b] + s) == Outcome(out + o.body, o.state, o.used + 1)
  {
    assert ([b] + s)[1..] == s;
  }

  /** A non-empty piece split at its first byte. */
  lemma ConsSplit(l: seq<byte>, x: seq<byte>)
    requires l != []
    ensures l + x == [l[0]] + (l[1..] + x)
    ensures [CR, LF, l[0]] + l[1..] == [CR, LF] + l
  {
  }

  /** What follows the first byte of a line is a line. */
  lemma PlainTail(l: seq<byte>)
    requires PlainLine(l) && l != []
    ensures PlainLine(l[1..])
  {
    assert forall x :: x in l[1..] ==> x in l;
  }

  /** Bytes that hold no CR pass through `Start` unchanged and at once. */
  lemma {:induction false} FeedPlain(l: seq<byte>)
    requires CR !in l
    ensures Feed(Start, l) == Outcome(l, Start, |l|)
    decreases |l|
  {
    if l != [] {
      FeedPlain(l[1..]);
    }
  }

  /** CR LF from `Start`: nothing comes out yet and the CRLF is held. */
  lemma FeedCrLf()
    ensures Feed(Start, [CR, LF]) == Outcome([], CrLf, 2)
  {
    assert Feed(Cr, [LF]) == Outcome([], CrLf, 1);
  }

  /** A line that does not start with a dot, from `Start`: it comes out
      unchanged and its CRLF is held. */
  lemma FeedFirstLine(l: seq<byte>)
    requires PlainLine(l)
    ensures Feed(Start, l + [CR, LF]) == Outcome(l, CrLf, |l| + 2)
  {
    FeedPlain(l);
    FeedCrLf();
    FeedAppend(Start, l, [CR, LF]);
  }

  /** A line of the message after the first, from the `CrLf` that ended
      the line before: the held CRLF and the line come out, and the
      automaton holds the new CRLF. A line `.`, sent as `..`, loses its
      extra dot; a line that starts with a dot and goes on is not
      covered. */
  lemma FeedLineAfterFirst(l: seq<byte>)
    requires PlainLine(l) && (l == [DOT] || l == [] || l[0] != DOT)
    ensures Feed(CrLf, Stuffed(l) + [CR, LF]) == Outcome([CR, LF] + l, CrLf, |Stuffed(l)| + 2)
  {
    if l == [DOT] {
      FeedLoneDot();
    } else if l == [] {
      FeedEmptyLine();
    } else {
      FeedTextLine(l);
    }
  }

  lemma FeedLoneDot()
    ensures Feed(CrLf, [DOT, DOT, CR, LF]) == Outcome([CR, LF, DOT], CrLf, 4)
  {
    var out := [CR, LF, DOT];
    FeedStep(CrLfDotDotCr, LF, out, CrLf, [], Outcome([], CrLf, 0));
    assert out + [] == out;
    FeedStep(CrLfDotDot, CR, [], CrLfDotDotCr, [LF], Outcome(out, CrLf, 1));
    FeedStep(CrLfDot, DOT, [], CrLfDotDot, [CR, LF], Outcome(out, CrLf, 2));
    FeedStep(CrLf, DOT, [], CrLfDot, [DOT, CR, LF], Outcome(out, CrLf, 3));
    assert [DOT] + [DOT, CR, LF] == [DOT, DOT, CR, LF];
  }

  lemma FeedEmptyLine()
    ensures Feed(CrLf, [CR, LF]) == Outcome([CR, LF], CrLf, 2)
  {
    assert Feed(Cr, [LF]) == Outcome([], CrLf, 1);
  }

  /** A byte other than a dot or CR after a CRLF: the CRLF and the byte
      come out and the automaton is back at `Start`. */
  lemma FeedBreaksCrLf(b: byte, s: seq<byte>)
    requires b != CR && b != DOT
    ensures Feed(CrLf, [b] + s) == Outcome([CR, LF, b] + Feed(Start, s).body, Feed(Start, s).state, Feed(Start, s).used + 1)
  {
    AdvanceBreaksCrLf(b);
    FeedCons(CrLf, b, s);
  }

  lemma AdvanceBreaksCrLf(b: byte)
    requires b != CR && b != DOT
    ensures Advance(CrLf, b) == (Start, [CR, LF, b])
  {
    assert HeldBytes(CrLf) + [b] == [CR, LF, b];
  }

  lemma FeedTextLine(l: seq<byte>)
    requires PlainLine(l) && l != [] && l[0] != DOT
    ensures Feed(CrLf, l + [CR, LF]) == Outcome([CR, LF] + l, CrLf, |l| + 2)
  {
    PlainTail(l);
    ConsSplit(l, [CR, LF]);
    FeedBreaksCrLf(l[0], l[1..] + [CR, LF]);
    FeedFirstLine(l[1..]);
  }

  /** The lines after the first mark each line's CRLF before it. */
  function LaggedJoin(lines: seq<seq<byte>>): seq<byte>
  {
    if lines == [] then [] else [CR, LF] + lines[0] + LaggedJoin(lines[1..])
  }

  lemma {:induction false} JoinLagged(l: seq<byte>, lines: seq<seq<byte>>)
    ensures Join([l] + lines) == l + LaggedJoin(lines) + [CR, LF]
    decreases |lines|
  {
    if lines != [] {
      JoinLagged(lines[0], lines[1..]);
      assert ([l] + lines)[1..] == lines;
      assert ([lines[0]] + lines[1..]) == lines;
    } else {
      assert ([l] + lines)[1..] == [];
    }
  }

  /** Every line the as-written automaton passes through intact: no dot
      first, or the line `.` itself. */
  predicate KeptAsWritten(lines: seq<seq<byte>>)
  {
    forall i :: 0 <= i < |lines| ==> PlainLine(lines[i]) && (lines[i] == [DOT] || lines[i] == [] || lines[i][0] != DOT)
  }

  /** The end-of-data line after a CRLF: the CRLF comes out and the
      reader stops, reading nothing that follows. */
  lemma FeedEnd(rest: seq<byte>)
    ensures Feed(CrLf, [DOT, CR, LF] + rest) == Outcome([CR, LF], Eof, 3)
  {
    var s1 := [LF] + rest;
    var s2 := [CR] + s1;
    FeedStep(CrLfDotCr, LF, [CR, LF], Eof, rest, Outcome([], Eof, 0));
    FeedStep(CrLfDot, CR, [], CrLfDotCr, s1, Outcome([CR, LF] + [], Eof, 1));
    FeedStep(CrLf, DOT, [], CrLfDot, s2, Outcome([] + ([CR, LF] + []), Eof, 2));
    assert [DOT] + s2 == [DOT, CR, LF] + rest;
    assert [] + ([CR, LF] + []) == [CR, LF];
  }

  /** One byte fed: its `advance`, then the rest from the next state. */
  lemma FeedStep(st: State, b: byte, out: seq<byte>, next: State, s: seq<byte>, o: Outcome<State>)
    requires st != Eof && Advance(st, b) == (next, out) && Feed(next, s) == o
    ensures Feed(st, [b] + s) == Outcome(out + o.body, o.state, o.used + 1)
  {
    FeedCons(st, b, s);
  }

  lemma {:induction false} FeedLinesAfterFirst(lines: seq<seq<byte>>)
    requires KeptAsWritten(lines)
    ensures Feed(CrLf, Transmit(lines)) == Outcome(LaggedJoin(lines) + [CR, LF], Eof, |Transmit(lines)|)
    decreases |lines|
  {
    if lines == [] {
      FeedEnd([]);
      assert [DOT, CR, LF] + [] == [DOT, CR, LF];
    } else {
      var l := lines[0];
      var tail := lines[1..];
      assert KeptAsWritten(tail) by {
        forall i | 0 <= i < |tail| ensures PlainLine(tail[i]) && (tail[i] == [DOT] || tail[i] == [] || tail[i][0] != DOT) {
          assert tail[i] == lines[i + 1];
        }
      }
      FeedLinesAfterFirst(tail);
      FeedLineAfterFirst(l);
      FeedAppend(CrLf, Stuffed(l) + [CR, LF], Transmit(tail));
      assert [CR, LF] + l + (LaggedJoin(tail) + [CR, LF]) == LaggedJoin(lines) + [CR, LF];
    }
  }

  /** The as-written automaton reads back every message whose first line
      does not start with a dot and whose other lines start with a dot
      only when they are `.`, and stops right after the end-of-data
      line. */
  lemma AsWrittenRoundTrip(lines: seq<seq<byte>>, rest: seq<byte>)
    requires lines != [] && PlainLine(lines[0]) && (lines[0] == [] || lines[0][0] != DOT)
    requires KeptAsWritten(lines[1..])
    ensures Feed(Start, Transmit(lines) + rest) == Outcome(Join(lines), Eof, |Transmit(lines)|)
  {
    FeedMessage(lines);
    FeedAppend(Start, Transmit(lines), rest);
  }

  lemma FeedMessage(lines: seq<seq<byte>>)
    requires lines != [] && PlainLine(lines[0]) && (lines[0] == [] || lines[0][0] != DOT)
    requires KeptAsWritten(lines[1..])
    ensures Feed(Start, Transmit(lines)) == Outcome(Join(lines), Eof, |Transmit(lines)|)
  {
    var l, tail := lines[0], lines[1..];
    var first := l + [CR, LF];
    assert Transmit(lines) == first + Transmit(tail);
    assert Feed(Start, first + Transmit(tail)) == Outcome(l + (LaggedJoin(tail) + [CR, LF]), Eof, |first| + |Transmit(tail)|) by {
      FeedFirstLine(l);
      FeedLinesAfterFirst(tail);
      FeedAppend(Start, first, Transmit(tail));
    }
    assert l + (LaggedJoin(tail) + [CR, LF]) == Join(lines) by {
      JoinLagged(l, tail);
      assert [l] + tail == lines;
    }
  }

  // ---- where the as-written automaton departs from RFC 5321 ----

  /** A held `CR LF . . CR` broken by a plain byte appends six bytes,
      one more than the room `poll_read` checks for before reading. */
  lemma AdvanceOverrunsRoomCheck()
    ensures |Advance(CrLfDotDotCr, 120).1| == ROOM_CHECK + 1
  {
    AdvanceOutputBound(CrLfDotDotCr, 120);
  }

  /** A byte other than CR after a held `CR LF . .`: all of it comes out
      and the automaton is back at `Start`. */
  lemma FeedBreaksDotDot(b: byte, s: seq<byte>)
    requires b != CR
    ensures Feed(CrLfDotDot, [b] + s) == Outcome([CR, LF, DOT, DOT, b] + Feed(Start, s).body, Feed(Start, s).state, Feed(Start, s).used + 1)
  {
    assert HeldBytes(CrLfDotDot) + [b] == [CR, LF, DOT, DOT, b];
    FeedCons(CrLfDotDot, b, s);
  }

  /** The rest of a line after a held `CR LF . .`: everything comes out
      as sent. */
  lemma FeedDotDotLine(t: seq<byte>)
    requires PlainLine(t) && t != []
    ensures Feed(CrLfDotDot, t + [CR, LF]) == Outcome([CR, LF, DOT, DOT] + t, CrLf, |t| + 2)
  {
    var b, u := t[0], t[1..];
    assert t + [CR, LF] == [b] + (u + [CR, LF]) by { ConsSplit(t, [CR, LF]); }
    assert Feed(Start, u + [CR, LF]) == Outcome(u, CrLf, |u| + 2) by { PlainTail(t); FeedFirstLine(u); }
    assert [CR, LF, DOT, DOT, b] + u == [CR, LF, DOT, DOT] + t by { DotDotSplit(t); }
    FeedBreaksDotDot(b, u + [CR, LF]);
  }

  lemma DotDotSplit(t: seq<byte>)
    requires t != []
    ensures [CR, LF, DOT, DOT, t[0]] + t[1..] == [CR, LF, DOT, DOT] + t
  {
    assert [CR, LF, DOT, DOT, t[0]] == [CR, LF, DOT, DOT] + [t[0]];
    assert t == [t[0]] + t[1..];
  }

  lemma DotSplit(l: seq<byte>, x: seq<byte>)
    requires l != [] && l[0] == DOT
    ensures [DOT] + l + x == [DOT] + ([DOT] + (l[1..] + x))
    ensures [CR, LF, DOT, DOT] + l[1..] == [CR, LF] + ([DOT] + l)
  {
  }

  /** A line that starts with a dot and goes on, sent with its extra dot,
      comes out with both dots. */
  lemma DotLedLineKeepsBothDots(l: seq<byte>)
    requires PlainLine(l) && l != [] && l[0] == DOT && |l| >= 2
    ensures Feed(CrLf, Stuffed(l) + [CR, LF]) == Outcome([CR, LF] + Stuffed(l), CrLf, |l| + 3)
  {
    var t := l[1..];
    PlainTail(l);
    FeedDotDotLine(t);
    FeedCons(CrLfDot, DOT, t + [CR, LF]);
    FeedCons(CrLf, DOT, [DOT] + (t + [CR, LF]));
    DotSplit(l, [CR, LF]);
  }

  /** An empty message, sent as the single line `.`, is not recognised:
      the dot is text and the reader goes on waiting. */
  lemma EmptyMessageNotEnded()
    ensures Feed(Start, Transmit([])) == Outcome([DOT], CrLf, 3)
  {
    FeedCrLf();
    assert Transmit([]) == [DOT, CR, LF];
  }

  // ---- the corrected automaton ----

  /** Where the corrected reader is in a line: at its start, inside it,
      after a CR, after a leading dot, after a leading dot and CR; `Done`
      after the line `.`. */
  datatype Scan = LineStart | InLine | SawCr | SawDot | SawDotCr | Done

  /** One byte: a dot that starts a line is dropped, a line holding only
      a dot ends the message, and a CR is held until the next byte shows
      whether it ends the line. */
  function Step(st: Scan, b: byte): (r: (Scan, seq<byte>))
    requires st != Done
    ensures |r.1| <= 2
    ensures r.0 == Done <==> st == SawDotCr && b == LF
  {
    match st
    case LineStart =>
      if b == DOT then (SawDot, []) else if b == CR then (SawCr, []) else (InLine, [b])
    case InLine =>
      if b == CR then (SawCr, []) else (InLine, [b])
    case SawCr =>
      if b == LF then (LineStart, [CR, LF]) else if b == CR then (SawCr, [CR]) else (InLine, [CR, b])
    case SawDot =>
      if b == CR then (SawDotCr, []) else (InLine, [b])
    case SawDotCr =>
      if b == LF then (Done, []) else if b == CR then (SawCr, [CR]) else (InLine, [CR, b])
  }

  /** Every step of the corrected automaton fits the room `poll_read`
      checks for. */
  lemma StepWithinRoom(st: Scan, b: byte, room: nat)
    requires st != Done && room >= ROOM_CHECK
    ensures |Step(st, b).1| <= room
  {
  }

  /** The corrected reader over the whole input: step byte by byte until
      `Done` or until the input ends. */
  function Run(st: Scan, s: seq<byte>): (o: Outcome<Scan>)
    decreases |s|
    ensures o.used <= |s|
    ensures o.state == Done || o.used == |s|
    ensures st == Done ==> o == Outcome([], Done, 0)
  {
    if st == Done || s == [] then Outcome([], st, 0)
    else
      var (st2, out) := Step(st, s[0]);
      var o := Run(st2, s[1..]);
      Outcome(out + o.body, o.state, o.used + 1)
  }

  lemma {:induction false} RunAppend(st: Scan, a: seq<byte>, b: seq<byte>)
    ensures var ra := Run(st, a); var rb := Run(ra.state, b);
      (ra.state == Done ==> Run(st, a + b) == ra) &&
      (ra.state != Done ==> Run(st, a + b) == Outcome(ra.body + rb.body, rb.state, |a| + rb.used))
    decreases |a|
  {
    if st != Done && a != [] {
      assert (a + b)[0] == a[0] && (a + b)[1..] == a[1..] + b;
      RunFirst(st, a);
      RunFirst(st, a + b);
      RunAppend(Step(st, a[0]).0, a[1..], b);
    } else if a == [] {
      assert a + b == b;
    }
  }

  /** One byte, then the rest. */
  lemma RunCons(st: Scan, b: byte, s: seq<byte>)
    requires st != Done
    ensures var (st2, out) := Step(st, b); var o := Run(st2, s);
      Run(st, [b] + s) == Outcome(out + o.body, o.state, o.used + 1)
  {
    assert ([b] + s)[1..] == s;
  }

  /** Text without CR stays inside the line and comes out unchanged. */
  lemma {:induction false} RunInLine(l: seq<byte>)
    requires CR !in l
    ensures Run(InLine, l) == Outcome(l, InLine, |l|)
    decreases |l|
  {
    if l != [] {
      RunInLine(l[1..]);
    }
  }

  /** Any line, stuffed and ended by CRLF, comes out as itself and its
      CRLF, and the reader is at the start of the next line. */
  lemma RunLine(l: seq<byte>)
    requires PlainLine(l)
    ensures Run(LineStart, Stuffed(l) + [CR, LF]) == Outcome(l + [CR, LF], LineStart, |Stuffed(l)| + 2)
  {
    if l == [] {
      assert Stuffed(l) + [CR, LF] == [CR] + [LF];
      RunCons(LineStart, CR, [LF]);
      RunCons(SawCr, LF, []);
    } else if l[0] == DOT {
      RunDotLine(l);
    } else {
      RunTextLine(l);
    }
  }

  /** The rest of a line, inside it. */
  lemma RunLineRest(t: seq<byte>)
    requires PlainLine(t)
    ensures Run(InLine, t + [CR, LF]) == Outcome(t + [CR, LF], LineStart, |t| + 2)
  {
    RunInLine(t);
    RunCrLf();
    RunAppend(InLine, t, [CR, LF]);
  }

  lemma RunCrLf()
    ensures Run(InLine, [CR, LF]) == Outcome([CR, LF], LineStart, 2)
  {
    RunCons(InLine, CR, [LF]);
    RunCons(SawCr, LF, []);
    assert [CR, LF] == [CR] + [LF];
  }

  lemma RunDotLine(l: seq<byte>)
    requires PlainLine(l) && l != [] && l[0] == DOT
    ensures Run(LineStart, [DOT] + l + [CR, LF]) == Outcome(l + [CR, LF], LineStart, |l| + 3)
  {
    PlainTail(l);
    ConsSplit(l, [CR, LF]);
    RunLineRest(l[1..]);
    RunCons(SawDot, DOT, l[1..] + [CR, LF]);
    ConsSplit([DOT] + l, [CR, LF]);
    assert ([DOT] + l)[1..] == l;
    RunCons(LineStart, DOT, l + [CR, LF]);
  }

  lemma RunTextLine(l: seq<byte>)
    requires PlainLine(l) && l != [] && l[0] != DOT
    ensures Run(LineStart, l + [CR, LF]) == Outcome(l + [CR, LF], LineStart, |l| + 2)
  {
    PlainTail(l);
    ConsSplit(l, [CR, LF]);
    RunCons(LineStart, l[0], l[1..] + [CR, LF]);
    RunLineRest(l[1..]);
  }

  /** The end-of-data line at the start of a line: nothing comes out and
      the reader stops. */
  lemma RunEnd()
    ensures Run(LineStart, [DOT, CR, LF]) == Outcome([], Done, 3)
  {
    assert Run(SawDotCr, [LF]) == Outcome([], Done, 1);
    assert Run(SawDot, [CR, LF]) == Outcome([], Done, 2);
  }

  /** The corrected reader reads back every message, however its lines
      start, the empty one included, and stops right after the end-of-data
      line. */
  lemma {:induction false} RoundTrip(lines: seq<seq<byte>>)
    requires forall i :: 0 <= i < |lines| ==> PlainLine(lines[i])
    ensures Run(LineStart, Transmit(lines)) == Outcome(Join(lines), Done, |Transmit(lines)|)
    decreases |lines|
  {
    if lines == [] {
      RunEnd();
    } else {
      var l := lines[0];
      var tail := lines[1..];
      assert forall i :: 0 <= i < |tail| ==> PlainLine(tail[i]) by {
        forall i | 0 <= i < |tail| ensures PlainLine(tail[i]) {
          assert tail[i] == lines[i + 1];
        }
      }
      RoundTrip(tail);
      RunLine(l);
      RunAppend(LineStart, Stuffed(l) + [CR, LF], Transmit(tail));
    }
  }

  /** The lines the examples use: the corrected reader drops the extra dot
      of `..x` and ends an empty message. */
  lemma CorrectedExamples()
    ensures Run(LineStart, [DOT, DOT, 120, CR, LF]).body == [DOT, 120, CR, LF]
    ensures Run(LineStart, Transmit([])) == Outcome([], Done, 3)
  {
    RunLine([DOT, 120]);
    assert Stuffed([DOT, 120]) + [CR, LF] == [DOT, DOT, 120, CR, LF];
    RunEnd();
  }

  // ---- reading ----

  /** What one `poll_read` returns: not ready because the caller's buffer
      is too small, or ready with the bytes appended (none at the end). */
  datatype Poll = Pending | Ready(chunk: seq<byte>)

  /** One `poll_read` over the bytes still to be read: read and step until
      a step appends something, the message ends or the input does. A
      short buffer is refused before anything is read. The result, the
      state after it and how many bytes it read. */
  function PollSpec(st: Scan, room: nat, s: seq<byte>): (r: (Poll, Scan, nat))
    ensures r.2 <= |s|
    ensures r.0.Ready? && r.0.chunk != [] ==> 0 < r.2
    ensures r.0 == Pending <==> st != Done && room < ROOM_CHECK
    decreases |s|
  {
    if st == Done then (Ready([]), st, 0)
    else if room < ROOM_CHECK then (Pending, st, 0)
    else if s == [] then (Ready([]), st, 0)
    else
      var (st2, out) := Step(st, s[0]);
      if out != [] then (Ready(out), st2, 1)
      else var r := PollSpec(st2, room, s[1..]); (r.0, r.1, r.2 + 1)
  }

  /** One byte read by `poll_read`. */
  lemma PollStep(st: Scan, room: nat, s: seq<byte>)
    requires st != Done && room >= ROOM_CHECK && s != []
    ensures var (st2, out) := Step(st, s[0]); var r := PollSpec(st2, room, s[1..]);
      PollSpec(st, room, s) == if out != [] then (Ready(out), st2, 1) else (r.0, r.1, r.2 + 1)
  {
  }

  /** The byte at `n` read by `poll_read`, in terms of the poll that began
      `n` bytes earlier. */
  lemma PollByte(st: Scan, room: nat, s: seq<byte>, n: nat, r0: (Poll, Scan, nat))
    requires st != Done && room >= ROOM_CHECK && n < |s|
    requires var r := PollSpec(st, room, s[n..]); r0 == (r.0, r.1, r.2 + n)
    ensures s[n..][0] == s[n] && s[n..][1..] == s[n + 1..]
    ensures Step(st, s[n]).1 != [] ==> r0 == (Ready(Step(st, s[n]).1), Step(st, s[n]).0, n + 1)
    ensures Step(st, s[n]).1 == [] ==>
      var r := PollSpec(Step(st, s[n]).0, room, s[n + 1..]); r0 == (r.0, r.1, r.2 + n + 1)
  {
    PollStep(st, room, s[n..]);
    DropDrop(s, n, 1);
  }

  lemma DropDrop(s: seq<byte>, i: nat, j: nat)
    requires i + j <= |s|
    ensures s[i..][j..] == s[i + j..]
  {
  }

  /** A ready `poll_read` delivers the next part of what `Run` delivers. */
  lemma {:induction false} PollThenRun(st: Scan, room: nat, s: seq<byte>)
    requires PollSpec(st, room, s).0.Ready?
    ensures var (p, st2, n) := PollSpec(st, room, s); var r := Run(st2, s[n..]);
      Run(st, s) == Outcome(p.chunk + r.body, r.state, n + r.used)
    decreases |s|
  {
    if st != Done && s != [] {
      var (st2, out) := Step(st, s[0]);
      PollStep(st, room, s);
      RunFirst(st, s);
      if out == [] {
        PollThenRun(st2, room, s[1..]);
        DropDrop(s, 1, PollSpec(st2, room, s[1..]).2);
      }
    } else {
      assert s[0..] == s;
    }
  }

  /** `Run` on a non-empty input, one byte at a time. */
  lemma RunFirst(st: Scan, s: seq<byte>)
    requires st != Done && s != []
    ensures var (st2, out) := Step(st, s[0]); var o := Run(st2, s[1..]);
      Run(st, s) == Outcome(out + o.body, o.state, o.used + 1)
  {
  }

  /** A `poll_read` that appends nothing means the message or the input
      has ended, and there is nothing more to deliver. */
  lemma {:induction false} PollEmptyAtEnd(st: Scan, room: nat, s: seq<byte>)
    requires PollSpec(st, room, s).0 == Ready([])
    ensures var (_, st2, n) := PollSpec(st, room, s);
      (st2 == Done || n == |s|) && Run(st2, s[n..]) == Outcome([], st2, 0)
    decreases |s|
  {
    if st != Done && s != [] {
      var (st2, out) := Step(st, s[0]);
      if out == [] {
        PollEmptyAtEnd(st2, room, s[1..]);
        DropDrop(s, 1, PollSpec(st2, room, s[1..]).2);
      }
    }
  }

  /** What a ready `poll_read` appends fits the room it checked for. */
  lemma {:induction false} PollWithinRoom(st: Scan, room: nat, s: seq<byte>)
    requires PollSpec(st, room, s).0.Ready?
    ensures |PollSpec(st, room, s).0.chunk| <= room
    decreases |s|
  {
    if st != Done && room >= ROOM_CHECK && s != [] {
      StepWithinRoom(st, s[0], room);
      if Step(st, s[0]).1 == [] {
        PollWithinRoom(Step(st, s[0]).0, room, s[1..]);
      }
    }
  }

  /** `Data`: the stream, read one byte at a time, and the state. */
  class DataReader {
    var state: Scan
    var conn: Line.Connection

    /** `Data::new`: a reader at the start of the first line. */
    constructor (c: Line.Connection)
      ensures state == LineStart && conn == c
    {
      state := LineStart;
      conn := c;
    }

    /** `poll_read`. */
    method PollRead(room: nat) returns (p: Poll)
      requires conn.Valid()
      modifies this, conn
      ensures conn == old(conn) && conn.Valid()
      ensures var r := PollSpec(old(state), room, old(conn.Remaining()));
        p == r.0 && state == r.1 && conn.Remaining() == old(conn.Remaining())[r.2..]
      ensures conn.output == old(conn.output) && conn.tls == old(conn.tls) && conn.open == old(conn.open)
    {
      // The state is carried in a local while bytes are read and stored on
      // every way out; nothing else reads it in between.
      var st := state;
      ghost var s0 := conn.Remaining();
      ghost var total := PollSpec(st, room, s0);
      ghost var n: nat := 0;
      while st != Done
        invariant conn == old(conn) && conn.Valid()
        invariant n <= |s0| && conn.Remaining() == s0[n..]
        invariant var r := PollSpec(st, room, s0[n..]); total == (r.0, r.1, r.2 + n)
        invariant conn.output == old(conn.output) && conn.tls == old(conn.tls) && conn.open == old(conn.open)
        decreases |s0| - n
      {
        if room < ROOM_CHECK {
          state := st;
          return Pending;
        }
        var b := conn.ReadByte();
        if b.None? {
          state := st;
          return Ready([]);
        }
        PollByte(st, room, s0, n, total);
        var next := Step(st, b.value);
        st := next.0;
        n := n + 1;
        if next.1 != [] {
          state := st;
          return Ready(next.1);
        }
      }
      state := st;
      return Ready([]);
    }

    /** What a consumer such as `read_to_end` does with the reader: poll
      with room to spare until a poll appends nothing. The message text
      is what `Run` delivers from the reader's state. */
    method ReadToEnd() returns (body: seq<byte>)
      requires conn.Valid()
      modifies this, conn
      ensures conn == old(conn) && conn.Valid()
      ensures var o := Run(old(state), old(conn.Remaining()));
        body == o.body && state == o.state && conn.Remaining() == old(conn.Remaining())[o.used..]
      ensures conn.output == old(conn.output) && conn.tls == old(conn.tls) && conn.open == old(conn.open)
    {
      body := [];
      ghost var used: nat := 0;
      while true
        invariant conn == old(conn) && conn.Valid()
        invariant used <= |old(conn.Remaining())| && conn.Remaining() == old(conn.Remaining())[used..]
        invariant var r := Run(state, conn.Remaining());
          Run(old(state), old(conn.Remaining())) == Outcome(body + r.body, r.state, used + r.used)
        invariant conn.output == old(conn.output) && conn.tls == old(conn.tls) && conn.open == old(conn.open)
        decreases |conn.Remaining()|
      {
        ghost var n := PollSpec(state, ROOM_CHECK, conn.Remaining()).2;
        ReadStep(state, old(conn.Remaining()), used, body, Run(old(state), old(conn.Remaining())));
        var p := PollRead(ROOM_CHECK);
        if p.chunk == [] {
          return;
        }
        used := used + n;
        body := body + p.chunk;
      }
    }
  }

  /** One round of `ReadToEnd`: a poll with room to spare is ready, and what
      it appends followed by what `Run` delivers after it is what `Run`
      delivered before it; an empty poll leaves nothing more to deliver. */
  lemma ReadStep(st: Scan, s: seq<byte>, used: nat, body: seq<byte>, total: Outcome<Scan>)
    requires used <= |s|
    requires var r := Run(st, s[used..]); total == Outcome(body + r.body, r.state, used + r.used)
    ensures var (p, st2, n) := PollSpec(st, ROOM_CHECK, s[used..]);
      p.Ready? && used + n <= |s| && s[used..][n..] == s[used + n..] &&
      (p.chunk == [] ==> total == Outcome(body, st2, used + n)) &&
      (p.chunk != [] ==>
        var r := Run(st2, s[used + n..]);
        total == Outcome((body + p.chunk) + r.body, r.state, (used + n) + r.used))
  {
    var s0 := s[used..];
    var (p, st2, n) := PollSpec(st, ROOM_CHECK, s0);
    PollThenRun(st, ROOM_CHECK, s0);
    DropDrop(s, used, n);
    if p.chunk == [] {
      PollEmptyAtEnd(st, ROOM_CHECK, s0);
    } else {
      var r := Run(st2, s[used + n..]);
      assert body + (p.chunk + r.body) == (body + p.chunk) + r.body;
    }
  }

  /** A DATA body read to its end: the message lines, and the input after
      the end-of-data line left for the next command. */
  lemma ReadBackMessage(lines: seq<seq<byte>>, rest: seq<byte>)
    requires forall i :: 0 <= i < |lines| ==> PlainLine(lines[i])
    ensures var o := Run(LineStart, Transmit(lines) + rest);
      o.body == Join(lines) && o.state == Done && (Transmit(lines) + rest)[o.used..] == rest
  {
    RoundTrip(lines);
    RunAppend(LineStart, Transmit(lines), rest);
  }
}
