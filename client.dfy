/** The client (client/main.c): it sends the integers 0 .. 999999 in
    portions of 1000 requests, keeps two portions in flight, and reads the
    server's `true` / `false` answers back through a 22-character buffer
    whose fill level `used` persists from one `receive_portion` to the
    next.  `recv` and `send` are parameters: `recv` is a function of the
    number of the call and of the capacity asked for, `send` a success flag
    per message of a portion.  `die` is a fatal outcome that ends the run. */
module Client {
  import opened CStrings

  /** `buffer_t`: the size of `buffer` and of `message`. */
  const BufferSize := 22
  const PortionSize := 1000
  const Portions := 1000
  /** The shortest response line, `true\r\n`. */
  const MinReply := 6

  const IntMin := -0x8000_0000
  const IntMax := 0x7fff_ffff

  /** What a `recv` call returns: some bytes (none when the server closed
      the connection) or -1. */
  datatype RecvResult = Got(bytes: seq<char>) | Failed

  /** The reasons `die` is called with. */
  datatype Fatal = SendFailed | RecvFailed | TooLong | UnknownResponse | Usage | NoSocket | NoHost | NoConnection

  /** An `Output` note: n is (or is not) a Fibonacci number. */
  datatype Report = Report(n: int, fibonacci: bool)

  /** How `receive_portion` ends: it returns 0, it returns 1, or `die`. */
  datatype Status = Finished | ServerClosed | Died(reason: Fatal)

  /** A `recv` that keeps to the capacity it was given and delivers no NUL
      (`strstr` and `strcmp` would stop at one). */
  ghost predicate Honest(recv: (nat, nat) -> RecvResult) {
    forall t: nat, m: nat :: recv(t, m).Got? ==> |recv(t, m).bytes| <= m && '\0' !in recv(t, m).bytes
  }

  /** The multiples of 1000 that `i * PORTION_SIZE + j` takes without
      leaving the range of `int`. */
  predicate PortionInRange(i: int) {
    IntMin <= i * PortionSize && i * PortionSize + PortionSize - 1 <= IntMax
  }

  // ---------------------------------------------------------------------
  // Requests: sprintf(message, "%d\r\n", n).

  /** The request lines for first, first + 1, ..., first + count - 1. */
  function Requests(first: int, count: nat): (r: seq<seq<char>>)
    ensures |r| == count
  {
    seq(count, j => FormatInt(first + j) + CRLF)
  }

  /** Two runs of consecutive requests make one. */
  lemma RequestsAppend(first: int, a: nat, b: nat)
    ensures Requests(first, a) + Requests(first + a, b) == Requests(first, a + b)
  {
    var l, r := Requests(first, a) + Requests(first + a, b), Requests(first, a + b);
    forall j | 0 <= j < a + b ensures l[j] == r[j] {
      if j >= a {
        assert l[j] == Requests(first + a, b)[j - a];
      }
    }
  }

  /** One more request after a run. */
  lemma RequestsSnoc(first: int, count: nat)
    ensures Requests(first, count + 1) == Requests(first, count) + [FormatInt(first + count) + CRLF]
  {
    var l, r := Requests(first, count + 1), Requests(first, count) + [FormatInt(first + count) + CRLF];
    assert forall j :: 0 <= j < count + 1 ==> l[j] == r[j];
  }

  /** The number of messages of a portion that are sent before the first
      failing `send`, at most n. */
  function Delivered(sendOk: (nat, nat) -> bool, i: nat, n: nat): (k: nat)
    ensures k <= n
    ensures forall j :: 0 <= j < k ==> sendOk(i, j)
    ensures k < n ==> !sendOk(i, k)
  {
    if n == 0 then 0
    else if Delivered(sendOk, i, n - 1) < n - 1 then Delivered(sendOk, i, n - 1)
    else if sendOk(i, n - 1) then n
    else n - 1
  }

  /** The first failing send is the one Delivered finds. */
  lemma DeliveredIs(sendOk: (nat, nat) -> bool, i: nat, n: nat, j: nat)
    requires j <= n && (forall q :: 0 <= q < j ==> sendOk(i, q)) && (j < n ==> !sendOk(i, j))
    ensures Delivered(sendOk, i, n) == j
  {
  }

  /** A request is at most 13 characters: `int` has at most 10 digits and a
      sign. */
  lemma RequestLength(n: int)
    requires IntMin <= n <= IntMax
    ensures |FormatInt(n) + CRLF| <= 13
  {
    assert Pow10(10) == 10_000_000_000 by {
      assert Pow10(5) == 100_000;
      assert Pow10(10) == 100_000 * Pow10(5) by {
        assert Pow10(10) == 100_000 * Pow10(5);
      }
    }
    FormatNatLength(if n < 0 then -n else n, 10);
  }

  // ---------------------------------------------------------------------
  // Responses.

  /** The word of a response line. */
  function Word(fibonacci: bool): (w: seq<char>)
    ensures !HasCrlf(w) && |w| >= 4
  {
    var w := if fibonacci then "true" else "false";
    assert forall p :: 0 <= p < |w| ==> w[p] != '\r';
    w
  }

  /** The two `strcmp` tests of a response line. */
  function Response(line: seq<char>): (r: Option<bool>)
    ensures r.Some? <==> line == "true" || line == "false"
    ensures r.Some? ==> line == Word(r.value)
  {
    if line == "true" then Some(true) else if line == "false" then Some(false) else None
  }

  lemma ResponseOfWord(b: bool)
    ensures Response(Word(b)) == Some(b)
  {
  }

  /** Where a pass of the inner loop stops: at `begin`, or in `die`. */
  datatype Stop = Rest(begin: nat) | Dies(reason: Fatal)

  /** The answers a pass reads and where it stops. */
  datatype Decoded = Decoded(answers: seq<bool>, stop: Stop)

  /** The inner loop of `receive_portion` over the string s, resumed at
      `begin` with room for `room` more answers of the portion. */
  function Decode(s: seq<char>, begin: nat, room: nat): (d: Decoded)
    requires begin <= |s|
    ensures |d.answers| <= room
    ensures d.stop.Rest? ==> begin <= d.stop.begin <= |s|
    ensures d.stop.Dies? ==> d.stop.reason == TooLong || d.stop.reason == UnknownResponse
    ensures d.stop == Dies(TooLong) ==> begin == 0
    ensures d.stop.Dies? ==> |d.answers| < room
    ensures begin == 0 && room > 0 && d.stop.Rest? ==> |d.answers| >= 1 && d.stop.begin >= MinReply
    decreases room, 1
  {
    if room == 0 then Decoded([], Rest(begin))
    else
      match FindCrlf(s, begin)
      case None => if begin == 0 then Decoded([], Dies(TooLong)) else Decoded([], Rest(begin))
      case Some(e) => DecodeLine(s, begin, e, room)
  }

  function DecodeLine(s: seq<char>, begin: nat, e: nat, room: nat): (d: Decoded)
    requires begin <= e && e + 2 <= |s| && room > 0
    ensures |d.answers| <= room
    ensures d.stop.Rest? ==> begin <= d.stop.begin <= |s|
    ensures d.stop.Dies? ==> d.stop.reason == TooLong || d.stop.reason == UnknownResponse
    ensures d.stop != Dies(TooLong)
    ensures d.stop.Dies? ==> |d.answers| < room
    ensures room > 0 && d.stop.Rest? ==> |d.answers| >= 1 && d.stop.begin >= e + 2
    decreases room, 0
  {
        match Response(s[begin..e])
        case None => Decoded([], Dies(UnknownResponse))
        case Some(b) =>
          var d := Decode(s, e + 2, room - 1);
          Decoded([b] + d.answers, d.stop)
  }

  /** A pass's result d stated on the lines of the string, from the line i
      where the pass started: the answers are the next lines, each `true`
      or `false`, until the room is used up or the lines run out; a line
      that is neither is fatal; no terminator at the very start is fatal;
      what is left from the stopping point on are the lines not answered
      and the tail. */
  ghost predicate OnLinesFacts(s: seq<char>, room: nat, lines: seq<seq<char>>, i: nat, tail: seq<char>, d: Decoded) {
    var n := |d.answers|;
    i + n <= |lines| &&
    (forall j :: 0 <= j < n ==> Response(lines[i + j]) == Some(d.answers[j])) &&
    (d.stop == Dies(TooLong) ==> i == |lines| && room > 0) &&
    (d.stop == Dies(UnknownResponse) ==> n < room && i + n < |lines| && Response(lines[i + n]).None?) &&
    (d.stop.Rest? ==>
      d.stop.begin <= |s| && (n == room || i + n == |lines|) &&
      SplitFrom(s, d.stop.begin) == Split(lines[i + n..], tail))
  }

  /** OnLinesFacts under a name of its own, so that the proofs below pass
      it on whole. */
  ghost predicate OnLines(s: seq<char>, room: nat, lines: seq<seq<char>>, i: nat, tail: seq<char>, d: Decoded) {
    OnLinesFacts(s, room, lines, i, tail, d)
  }

  /** One answered line in front of the rest of a pass. */
  lemma AnsweredLine(s: seq<char>, room: nat, lines: seq<seq<char>>, i: nat, tail: seq<char>,
                     b: bool, d: Decoded)
    requires room > 0 && i < |lines| && Response(lines[i]) == Some(b)
    requires OnLines(s, room - 1, lines, i + 1, tail, d) && d.stop != Dies(TooLong)
    ensures OnLines(s, room, lines, i, tail, Decoded([b] + d.answers, d.stop))
  {
    var a := [b] + d.answers;
    forall j | 0 <= j < |a| ensures Response(lines[i + j]) == Some(a[j]) {
      if j > 0 {
        assert a[j] == d.answers[j - 1];
      }
    }
  }

  /** The step of Decode over an answered line. */
  lemma DecodeStep(s: seq<char>, begin: nat, room: nat, e: nat, b: bool)
    requires begin <= |s| && room > 0 && FindCrlf(s, begin) == Some(e) && Response(s[begin..e]) == Some(b)
    ensures e + 2 <= |s|
    ensures Decode(s, begin, room) == Decoded([b] + Decode(s, e + 2, room - 1).answers, Decode(s, e + 2, room - 1).stop)
  {
  }

  lemma {:induction false} DecodeFollows(s: seq<char>, begin: nat, room: nat, lines: seq<seq<char>>, i: nat, tail: seq<char>)
    requires begin <= |s| && i <= |lines| && SplitFrom(s, begin) == Split(lines[i..], tail)
    ensures OnLines(s, room, lines, i, tail, Decode(s, begin, room))
    decreases room, 1
  {
    if room == 0 {
      RoomUsedUp(s, begin, lines, i, tail);
    } else if FindCrlf(s, begin).None? {
      NoLineStep(s, begin, room, lines, i, tail);
    } else {
      LineFollows(s, begin, room, lines, i, tail, FindCrlf(s, begin).value);
    }
  }

  lemma {:induction false} LineFollows(s: seq<char>, begin: nat, room: nat, lines: seq<seq<char>>, i: nat, tail: seq<char>, e: nat)
    requires begin <= |s| && i <= |lines| && SplitFrom(s, begin) == Split(lines[i..], tail)
    requires room > 0 && FindCrlf(s, begin) == Some(e)
    ensures OnLines(s, room, lines, i, tail, Decode(s, begin, room))
    decreases room, 0
  {
    NextLine(s, begin, lines, i, tail, e);
    DecodeFollows(s, e + 2, room - 1, lines, i + 1, tail);
    LineStep(s, begin, room, lines, i, tail, e);
  }

  /** DecodeFollows over one line, given the rest of the pass. */
  lemma LineStep(s: seq<char>, begin: nat, room: nat, lines: seq<seq<char>>, i: nat, tail: seq<char>, e: nat)
    requires begin <= |s| && room > 0 && FindCrlf(s, begin) == Some(e)
    requires i < |lines| && e + 2 <= |s| && lines[i] == s[begin..e]
    requires OnLines(s, room - 1, lines, i + 1, tail, Decode(s, e + 2, room - 1))
    ensures OnLines(s, room, lines, i, tail, Decode(s, begin, room))
  {
    if Response(s[begin..e]).None? {
      UnknownStep(s, begin, room, lines, i, tail, e);
    } else {
      AnsweredStep(s, begin, room, lines, i, tail, e);
    }
  }

  /** DecodeFollows when the portion is complete. */
  lemma RoomUsedUp(s: seq<char>, begin: nat, lines: seq<seq<char>>, i: nat, tail: seq<char>)
    requires begin <= |s| && i <= |lines| && SplitFrom(s, begin) == Split(lines[i..], tail)
    ensures OnLines(s, 0, lines, i, tail, Decode(s, begin, 0))
  {
    assert Decode(s, begin, 0) == Decoded([], Rest(begin));
    assert lines[i + 0..] == lines[i..];
  }

  /** DecodeFollows when no terminator is left. */
  lemma NoLineStep(s: seq<char>, begin: nat, room: nat, lines: seq<seq<char>>, i: nat, tail: seq<char>)
    requires begin <= |s| && i <= |lines| && SplitFrom(s, begin) == Split(lines[i..], tail)
    requires room > 0 && FindCrlf(s, begin).None?
    ensures OnLines(s, room, lines, i, tail, Decode(s, begin, room))
  {
    LastLine(s, begin, lines, i, tail);
    assert Decode(s, begin, room) == Decoded([], if begin == 0 then Dies(TooLong) else Rest(begin));
    assert lines[i + 0..] == lines[i..];
  }

  /** DecodeFollows on a line that is neither `true` nor `false`. */
  lemma UnknownStep(s: seq<char>, begin: nat, room: nat, lines: seq<seq<char>>, i: nat, tail: seq<char>, e: nat)
    requires begin <= |s| && room > 0 && FindCrlf(s, begin) == Some(e) && Response(s[begin..e]).None?
    requires i < |lines| && lines[i] == s[begin..e]
    ensures OnLines(s, room, lines, i, tail, Decode(s, begin, room))
  {
    assert Decode(s, begin, room) == Decoded([], Dies(UnknownResponse));
  }

  /** DecodeFollows over a line that is answered, given the rest of the
      pass. */
  lemma AnsweredStep(s: seq<char>, begin: nat, room: nat, lines: seq<seq<char>>, i: nat, tail: seq<char>, e: nat)
    requires begin <= |s| && room > 0 && FindCrlf(s, begin) == Some(e) && Response(s[begin..e]).Some?
    requires i < |lines| && e + 2 <= |s| && lines[i] == s[begin..e]
    requires OnLines(s, room - 1, lines, i + 1, tail, Decode(s, e + 2, room - 1))
    ensures OnLines(s, room, lines, i, tail, Decode(s, begin, room))
  {
    var b := Response(s[begin..e]).value;
    DecodeStep(s, begin, room, e, b);
    AnsweredLine(s, room, lines, i, tail, b, Decode(s, e + 2, room - 1));
  }

  /** A pass from the start of the buffer, on the lines of the buffer. */
  lemma DecodeMeans(s: seq<char>, room: nat)
    requires room > 0
    ensures var d, lines := Decode(s, 0, room), SplitLines(s).lines; var n := |d.answers|;
      n <= |lines| &&
      (forall j :: 0 <= j < n ==> Response(lines[j]) == Some(d.answers[j])) &&
      (d.stop == Dies(TooLong) <==> !HasCrlf(s)) &&
      (d.stop == Dies(UnknownResponse) ==> n < room && n < |lines| && Response(lines[n]).None?) &&
      (d.stop.Rest? ==>
        n == (if |lines| < room then |lines| else room) &&
        s[d.stop.begin..] == JoinLines(lines[n..]) + SplitLines(s).tail)
  {
    var sp := SplitLines(s);
    assert sp.lines[0..] == sp.lines;
    DecodeFollows(s, 0, room, sp.lines, 0, sp.tail);
    NoLinesIffNoCrlf(s);
    var d := Decode(s, 0, room);
    if d.stop.Rest? {
      SplitFromJoins(s, d.stop.begin);
    }
  }

  // ---------------------------------------------------------------------
  // One call of receive_portion.

  /** What one `receive_portion` reads: the answers, how it ends, what it
      leaves in the buffer, the bytes that `recv` delivered and the number
      of `recv` calls. */
  datatype Portion = Portion(answers: seq<bool>, status: Status, buffered: seq<char>, input: seq<char>, calls: nat)

  /** The outer loop of `receive_portion` with room for `room` more
      answers, on a buffer holding `buffered`, the next `recv` call being
      call t.  Each round asks for what fits before the final NUL, then
      answers the complete lines of the buffer and moves the rest to the
      front. */
  function Rounds(buffered: seq<char>, room: nat, t: nat, recv: (nat, nat) -> RecvResult): (p: Portion)
    requires |buffered| <= BufferSize - 1 - MinReply && Honest(recv)
    ensures |p.answers| <= room && |p.buffered| <= BufferSize - 1 - MinReply
    ensures p.status == Finished <==> |p.answers| == room
    ensures p.status.Died? ==> p.status.reason in {RecvFailed, TooLong, UnknownResponse}
    decreases room, 1
  {
    if room == 0 then Portion([], Finished, buffered, [], 0)
    else
      match recv(t, BufferSize - 1 - |buffered|)
      case Failed => Portion([], Died(RecvFailed), buffered, [], 1)
      case Got(bytes) =>
        if bytes == [] then Portion([], ServerClosed, buffered, [], 1)
        else Round(buffered, bytes, room, t, recv)
  }

  /** A round of Rounds in which `recv` delivered `bytes`. */
  function Round(buffered: seq<char>, bytes: seq<char>, room: nat, t: nat, recv: (nat, nat) -> RecvResult): (p: Portion)
    requires |buffered| <= BufferSize - 1 - MinReply && Honest(recv)
    requires room > 0 && bytes != [] && |buffered| + |bytes| <= BufferSize - 1
    ensures |p.answers| <= room && |p.buffered| <= BufferSize - 1 - MinReply
    ensures p.status == Finished <==> |p.answers| == room
    ensures p.status.Died? ==> p.status.reason in {RecvFailed, TooLong, UnknownResponse}
    decreases room, 0
  {
    var s := buffered + bytes;
    var d := Decode(s, 0, room);
    match d.stop
    case Dies(f) => Portion(d.answers, Died(f), buffered, bytes, 1)
    case Rest(b) =>
      var p := Rounds(s[b..], room - |d.answers|, t + 1, recv);
      Portion(d.answers + p.answers, p.status, p.buffered, bytes + p.input, p.calls + 1)
  }

  /** The `Output` notes for the answers of numbers first, first + 1, .... */
  function Numbered(first: int, answers: seq<bool>): (r: seq<Report>)
    ensures |r| == |answers|
  {
    if answers == [] then []
    else Numbered(first, answers[..|answers| - 1]) + [Report(first + |answers| - 1, answers[|answers| - 1])]
  }

  lemma {:induction false} NumberedAt(first: int, answers: seq<bool>)
    ensures forall k :: 0 <= k < |answers| ==> Numbered(first, answers)[k] == Report(first + k, answers[k])
  {
    if answers != [] {
      NumberedAt(first, answers[..|answers| - 1]);
    }
  }

  lemma NumberedSnoc(first: int, a: seq<bool>, b: bool)
    ensures Numbered(first, a + [b]) == Numbered(first, a) + [Report(first + |a|, b)]
  {
    assert (a + [b])[..|a|] == a;
  }

  /** One more note, for the number after those of `answered`. */
  lemma ReportsSnoc(before: seq<Report>, first: int, answered: seq<bool>, n: int, b: bool,
                    notes: seq<Report>, notes': seq<Report>)
    requires notes == before + Numbered(first, answered) && notes' == notes + [Report(n, b)]
    requires n == first + |answered|
    ensures notes' == before + Numbered(first, answered + [b])
  {
    NumberedSnoc(first, answered, b);
    AppendAssoc(before, Numbered(first, answered), [Report(n, b)]);
  }

  lemma NumberedAppend(first: int, a: seq<bool>, b: seq<bool>)
    ensures Numbered(first, a + b) == Numbered(first, a) + Numbered(first + |a|, b)
  {
    var l, r := Numbered(first, a + b), Numbered(first, a) + Numbered(first + |a|, b);
    NumberedAt(first, a + b);
    NumberedAt(first, a);
    NumberedAt(first + |a|, b);
    assert |l| == |r|;
    forall k | 0 <= k < |l| ensures l[k] == r[k] {
      if k >= |a| {
        assert r[k] == Numbered(first + |a|, b)[k - |a|];
      }
    }
  }

  /** How the loop of `receive_portion` ends when it is resumed after
      `answered` answers, `input` bytes and `calls` calls of `recv`, on a
      buffer holding `buffered`. */
  ghost function Resumed(answered: seq<bool>, input: seq<char>, calls: nat,
                         buffered: seq<char>, room: nat, t: nat, recv: (nat, nat) -> RecvResult): Portion
    requires |buffered| <= BufferSize - 1 - MinReply && Honest(recv)
  {
    var r := Rounds(buffered, room, t, recv);
    Portion(answered + r.answers, r.status, r.buffered, input + r.input, calls + r.calls)
  }

  lemma RoundsStart(buffered: seq<char>, room: nat, t: nat, recv: (nat, nat) -> RecvResult)
    requires |buffered| <= BufferSize - 1 - MinReply && Honest(recv)
    ensures Rounds(buffered, room, t, recv) == Resumed([], [], 0, buffered, room, t, recv)
  {
    AppendEmpty(Rounds(buffered, room, t, recv).answers);
    AppendEmpty(Rounds(buffered, room, t, recv).input);
  }

  /** How the resumed loop ends when the portion is complete, or when the
      next `recv` fails or reports a closed connection. */
  lemma RoundsStop(target: Portion, answered: seq<bool>, input: seq<char>, calls: nat,
                   buffered: seq<char>, room: nat, t: nat, recv: (nat, nat) -> RecvResult)
    requires |buffered| <= BufferSize - 1 - MinReply && Honest(recv)
    requires target == Resumed(answered, input, calls, buffered, room, t, recv)
    ensures room == 0 ==> target == Portion(answered, Finished, buffered, input, calls)
    ensures room > 0 && recv(t, BufferSize - 1 - |buffered|).Failed? ==>
      target == Portion(answered, Died(RecvFailed), buffered, input, calls + 1)
    ensures room > 0 && recv(t, BufferSize - 1 - |buffered|) == Got([]) ==>
      target == Portion(answered, ServerClosed, buffered, input, calls + 1)
  {
    AppendEmpty(answered);
    AppendEmpty(input);
  }

  /** How the resumed loop goes on after a round in which `recv`
      delivered `bytes` and the inner loop read d: it ends in `die`, or it
      resumes with `rest` in the buffer, `room'` answers to go and the
      next call of `recv` being call t'. */
  lemma RoundsStep(target: Portion, answered: seq<bool>, input: seq<char>, calls: nat,
                   buffered: seq<char>, room: nat, t: nat, recv: (nat, nat) -> RecvResult, bytes: seq<char>, d: Decoded,
                   rest: seq<char>, room': nat, t': nat)
    requires |buffered| <= BufferSize - 1 - MinReply && Honest(recv)
    requires target == Resumed(answered, input, calls, buffered, room, t, recv)
    requires room > 0 && recv(t, BufferSize - 1 - |buffered|) == Got(bytes) && bytes != []
    requires d == Decode(buffered + bytes, 0, room)
    requires d.stop.Rest? ==>
      d.stop.begin <= |buffered + bytes| && rest == (buffered + bytes)[d.stop.begin..] && room' + |d.answers| == room && t' == t + 1
    ensures d.stop.Dies? ==> target == Portion(answered + d.answers, Died(d.stop.reason), buffered, input + bytes, calls + 1)
    ensures d.stop.Rest? ==>
      |rest| <= BufferSize - 1 - MinReply && target == Resumed(answered + d.answers, input + bytes, calls + 1, rest, room', t', recv)
  {
    assert Rounds(buffered, room, t, recv) == Round(buffered, bytes, room, t, recv);
    if d.stop.Rest? {
      var r := Rounds(rest, room', t', recv);
      AppendAssoc(answered, d.answers, r.answers);
      AppendAssoc(input, bytes, r.input);
    }
  }

  /** How the inner loop of `receive_portion` ends when it is resumed at
      `begin` after the answers `answered`, with room for `room` more. */
  ghost function Continued(s: seq<char>, begin: nat, room: nat, answered: seq<bool>): Decoded
    requires begin <= |s|
  {
    var r := Decode(s, begin, room);
    Decoded(answered + r.answers, r.stop)
  }

  /** How the resumed inner loop ends. */
  lemma ContinuesStops(target: Decoded, s: seq<char>, begin: nat, room: nat, answered: seq<bool>)
    requires begin <= |s| && target == Continued(s, begin, room, answered)
    ensures room == 0 ==> target == Decoded(answered, Rest(begin))
    ensures room > 0 && FindCrlf(s, begin).None? ==>
      target == Decoded(answered, if begin == 0 then Dies(TooLong) else Rest(begin))
    ensures room > 0 && FindCrlf(s, begin).Some? && Response(s[begin..FindCrlf(s, begin).value]).None? ==>
      target == Decoded(answered, Dies(UnknownResponse))
  {
    AppendEmpty(answered);
    if room > 0 && FindCrlf(s, begin).Some? {
      var e := FindCrlf(s, begin).value;
      assert Decode(s, begin, room) == DecodeLine(s, begin, e, room);
    }
  }

  /** The resumed inner loop after one more answered line. */
  lemma ContinuesAdvances(target: Decoded, s: seq<char>, begin: nat, room: nat, answered: seq<bool>, e: nat, b: bool)
    requires begin <= |s| && target == Continued(s, begin, room, answered)
    requires room > 0 && FindCrlf(s, begin) == Some(e) && Response(s[begin..e]) == Some(b)
    ensures e + 2 <= |s| && target == Continued(s, e + 2, room - 1, answered + [b])
  {
    DecodeStep(s, begin, room, e, b);
    AppendAssoc(answered, [b], Decode(s, e + 2, room - 1).answers);
  }

  // ---------------------------------------------------------------------
  // Command line: process_arguments and the host that main looks up.

  /** argv[1 ..]: the arguments after the program name. */
  function Tail(args: seq<seq<char>>): (t: seq<seq<char>>)
    ensures |args| > 0 ==> t == args[1..]
    ensures |args| == 0 ==> t == []
  {
    if args == [] then [] else args[1..]
  }

  /** The arguments that are neither `-h` nor `-v`, in order. */
  function Positionals(args: seq<seq<char>>): (p: seq<seq<char>>)
    ensures |p| <= |args|
    ensures forall a :: a in p <==> a in args && a != "-h" && a != "-v"
  {
    if args == [] then []
    else (if args[0] == "-h" || args[0] == "-v" then [] else [args[0]]) + Positionals(args[1..])
  }

  /** What process_arguments leaves behind: `show_usage` was called, or
      the `verbose` flag and `server_url`. */
  datatype Arguments = Rejected | Accepted(verbose: bool, url: Option<seq<char>>)

  /** The loop of process_arguments from argument i on, with the flag and
      the URL set so far. */
  function Scan(args: seq<seq<char>>, i: nat, verbose: bool, url: Option<seq<char>>): Arguments
    decreases |args| - i
  {
    if i >= |args| then Accepted(verbose, url)
    else if args[i] == "-h" then Rejected
    else if args[i] == "-v" then Scan(args, i + 1, true, url)
    else if url.None? then Scan(args, i + 1, verbose, Some(args[i]))
    else Rejected
  }

  /** process_arguments rejects the command line exactly when it asks for
      help or names a second URL; otherwise `-v` anywhere sets the flag and
      the first other argument is the URL. */
  lemma {:induction false} ScanMeans(args: seq<seq<char>>, i: nat, verbose: bool, url: Option<seq<char>>)
    requires i <= |args|
    ensures var named := (if url.Some? then [url.value] else []) + Positionals(args[i..]);
      var a := Scan(args, i, verbose, url);
      (a.Rejected? <==> "-h" in args[i..] || |named| >= 2) &&
      (a.Accepted? ==> a.verbose == (verbose || "-v" in args[i..]) && a.url == (if named == [] then None else Some(named[0])))
    decreases |args| - i
  {
    if i < |args| {
      assert args[i..] == [args[i]] + args[i + 1..];
      if args[i] != "-h" {
        if args[i] == "-v" {
          ScanMeans(args, i + 1, true, url);
        } else if url.None? {
          ScanMeans(args, i + 1, verbose, Some(args[i]));
        }
      }
    }
  }

  /** The options of the whole command line, from the zeroed globals. */
  function Options(args: seq<seq<char>>): (a: Arguments)
    ensures a.Rejected? <==> "-h" in Tail(args) || |Positionals(Tail(args))| >= 2
    ensures a.Accepted? ==> a.verbose == ("-v" in Tail(args))
    ensures a.Accepted? ==> a.url == if Positionals(Tail(args)) == [] then None else Some(Positionals(Tail(args))[0])
  {
    if args == [] then Accepted(false, None)
    else
      ScanMeans(args, 1, false, None);
      AppendEmpty(Positionals(args[1..]));
      Scan(args, 1, false, None)
  }

  /** The host main passes to `gethostbyname` as written: argv[1],
      whatever that argument is (None: argv[1] is the NULL after the last
      argument). */
  function HostAsWritten(args: seq<seq<char>>): (h: Option<seq<char>>)
    ensures h.Some? <==> |args| >= 2
    ensures h.Some? ==> h.value == Tail(args)[0]
  {
    if |args| >= 2 then Some(args[1]) else None
  }

  /** With the flag first, main looks up the flag and not the server the
      command line names. */
  lemma HostAsWrittenIgnoresUrl()
    ensures var args := ["fibonacci-client", "-v", "localhost"];
      Options(args) == Accepted(true, Some("localhost")) && HostAsWritten(args) == Some("-v")
  {
    var args := ["fibonacci-client", "-v", "localhost"];
    assert Tail(args) == ["-v", "localhost"];
    assert Positionals(Tail(args)) == ["localhost"] by {
      assert Tail(args)[1..] == ["localhost"];
      assert Positionals(["localhost"]) == ["localhost"] + Positionals([]);
    }
  }

  /** The host the client is evidently meant to look up: server_url, the
      one argument that is not a flag. */
  function Host(args: seq<seq<char>>): (h: Option<seq<char>>)
    requires Options(args).Accepted?
    ensures h.Some? <==> Positionals(Tail(args)) != []
    ensures h.Some? ==> h.value in Tail(args) && h.value != "-v" && h.value != "-h"
    ensures h.Some? ==> Positionals(Tail(args)) == [h.value]
  {
    Options(args).url
  }

  // ---------------------------------------------------------------------
  // The schedule of main: send_portion(0), send_portion(1), then
  // receive_portion(i) and send_portion(i + 2) for i < 998, then
  // receive_portion(998) and receive_portion(999).

  /** A call of send_portion or receive_portion and its portion. */
  datatype Event = Send(portion: nat) | Receive(portion: nat)

  /** The calls main makes before step p of the schedule. */
  function SendsBefore(p: nat): (k: nat)
    requires p <= 2 * Portions
  {
    if p <= 2 then p else if p <= 2 * Portions - 2 then 2 + (p - 2) / 2 else Portions
  }

  function ReceivesBefore(p: nat): (k: nat)
    requires p <= 2 * Portions
  {
    p - SendsBefore(p)
  }

  /** Step p of the schedule: the next portion to send or to receive. */
  function EventAt(p: nat): (e: Event)
    requires p < 2 * Portions
    ensures e.Send? ==> e.portion == SendsBefore(p) && SendsBefore(p + 1) == SendsBefore(p) + 1 && ReceivesBefore(p + 1) == ReceivesBefore(p)
    ensures e.Receive? ==> e.portion == ReceivesBefore(p) && SendsBefore(p + 1) == SendsBefore(p) && ReceivesBefore(p + 1) == ReceivesBefore(p) + 1
  {
    if p < 2 then Send(p)
    else if p >= 2 * Portions - 2 then Receive(p - Portions)
    else if p % 2 == 0 then Receive((p - 2) / 2)
    else Send((p + 1) / 2)
  }

  /** The steps of one turn of main's loop. */
  lemma ReceiveOfTurn(i: nat, p: nat)
    requires i < Portions - 2 && p == 2 + 2 * i
    ensures EventAt(p) == Receive(i)
  {
    assert p % 2 == 0 && (p - 2) / 2 == i;
  }

  lemma SendOfTurn(i: nat, p: nat)
    requires i < Portions - 2 && p == 3 + 2 * i
    ensures EventAt(p) == Send(i + 2) && PortionInRange(i + 2)
  {
    assert p % 2 == 1 && (p + 1) / 2 == i + 2;
  }

  /** Every portion is sent and received once, the sends and the receives
      each in the order of the portions. */
  lemma ScheduleCounts()
    ensures SendsBefore(0) == 0 && ReceivesBefore(0) == 0
    ensures SendsBefore(2 * Portions) == Portions && ReceivesBefore(2 * Portions) == Portions
  {
  }

  /** At most two portions are in flight: portion k is received after
      portion k + 1 was sent (once there is one), and before portion k + 2
      is sent. */
  lemma TwoInFlight(p: nat)
    requires p < 2 * Portions
    ensures ReceivesBefore(p) <= SendsBefore(p) <= ReceivesBefore(p) + 2
    ensures EventAt(p).Receive? ==> SendsBefore(p) == if EventAt(p).portion + 2 <= Portions then EventAt(p).portion + 2 else Portions
    ensures EventAt(p).Send? && EventAt(p).portion >= 2 ==> ReceivesBefore(p) == EventAt(p).portion - 1
  {
  }

  /** What receive_portion can leave in the buffer: no more than leaves
      room for a response line. */
  type Unread = s: seq<char> | |s| <= BufferSize - 1 - MinReply

  /** A call main made, with its outcome: the number of messages
      send_portion delivered, or how receive_portion ended, the answers it
      read, what it left in the buffer and how many `recv` calls it made. */
  datatype Step = Sent(portion: nat, delivered: nat)
                | Received(portion: nat, status: Status, answers: seq<bool>, left: Unread, calls: nat)

  function Shape(s: Step): Event {
    match s
    case Sent(k, _) => Send(k)
    case Received(k, _, _, _, _) => Receive(k)
  }

  /** A log whose calls follow the schedule. */
  ghost predicate Scheduled(log: seq<Step>) {
    |log| <= 2 * Portions && forall p :: 0 <= p < |log| ==> Shape(log[p]) == EventAt(p)
  }

  /** A call that let main go on: every message sent, or all 1000 answers read. */
  predicate Complete(s: Step) {
    match s
    case Sent(_, d) => d == PortionSize
    case Received(_, status, _, _, _) => status == Finished
  }

  /** The `die` a call ended in, if any. */
  function Outcome(s: Step): (r: Option<Fatal>)
    ensures r.Some? ==> !Complete(s)
  {
    match s
    case Sent(_, d) => if d < PortionSize then Some(SendFailed) else None
    case Received(_, status, _, _, _) => if status.Died? then Some(status.reason) else None
  }

  /** The counts of a call's outcome are in range: no more messages than a
      portion has, no more answers than it asks for, and all of them
      exactly when receive_portion finished. */
  predicate Consistent(s: Step) {
    match s
    case Sent(_, d) => d <= PortionSize
    case Received(_, status, answers, _, _) => |answers| <= PortionSize && (status == Finished <==> |answers| == PortionSize)
  }

  /** The messages the calls of a log sent, in order. */
  function Sends(log: seq<Step>): (r: seq<seq<char>>)
  {
    if log == [] then []
    else
      var s := log[|log| - 1];
      Sends(log[..|log| - 1]) + if s.Sent? then Requests(s.portion * PortionSize, s.delivered) else []
  }

  /** The answers the calls of a log read, in order. */
  function Answers(log: seq<Step>): (r: seq<bool>)
  {
    if log == [] then []
    else
      var s := log[|log| - 1];
      Answers(log[..|log| - 1]) + if s.Received? then s.answers else []
  }

  /** The `Output` notes the calls of a log issued, in order. */
  function Notes(log: seq<Step>): (r: seq<Report>)
  {
    if log == [] then []
    else
      var s := log[|log| - 1];
      Notes(log[..|log| - 1]) + if s.Received? then Numbered(s.portion * PortionSize, s.answers) else []
  }

  lemma LogSnoc(log: seq<Step>, s: Step)
    ensures Sends(log + [s]) == Sends(log) + if s.Sent? then Requests(s.portion * PortionSize, s.delivered) else []
    ensures Answers(log + [s]) == Answers(log) + if s.Received? then s.answers else []
    ensures Notes(log + [s]) == Notes(log) + if s.Received? then Numbered(s.portion * PortionSize, s.answers) else []
  {
    assert (log + [s])[..|log|] == log;
  }

  lemma ScheduledSnoc(log: seq<Step>, s: Step)
    requires Scheduled(log) && |log| < 2 * Portions && Shape(s) == EventAt(|log|)
    ensures Scheduled(log + [s])
  {
  }

  /** While every send of a scheduled log is complete, the messages are the
      requests for 0, 1, ..., one portion after the other. */
  lemma {:induction false} SendsCount(log: seq<Step>)
    requires Scheduled(log) && forall p :: 0 <= p < |log| && log[p].Sent? ==> log[p].delivered == PortionSize
    ensures Sends(log) == Requests(0, PortionSize * SendsBefore(|log|))
  {
    if log != [] {
      var n := |log| - 1;
      ScheduledInit(log);
      SendsCount(log[..n]);
      assert Shape(log[n]) == EventAt(n);
      PortionsStep(SendsBefore(n));
      SendsStep(log, PortionSize * SendsBefore(n));
    }
  }

  /** The messages of a log after the last call's, from those before it. */
  lemma SendsStep(log: seq<Step>, m: nat)
    requires log != [] && Sends(log[..|log| - 1]) == Requests(0, m)
    requires log[|log| - 1].Sent? ==> log[|log| - 1].portion * PortionSize == m
    ensures Sends(log) == Requests(0, m + if log[|log| - 1].Sent? then log[|log| - 1].delivered else 0)
  {
    var s := log[|log| - 1];
    if s.Sent? {
      RequestsAppend(0, m, s.delivered);
    } else {
      AppendEmpty(Requests(0, m));
    }
  }

  /** While every receive of a scheduled log is complete, the notes number
      the answers 0, 1, ..., one portion after the other. */
  lemma {:induction false} NotesCount(log: seq<Step>)
    requires Scheduled(log) && forall p :: 0 <= p < |log| && log[p].Received? ==> |log[p].answers| == PortionSize
    ensures |Answers(log)| == PortionSize * ReceivesBefore(|log|)
    ensures Notes(log) == Numbered(0, Answers(log))
  {
    if log != [] {
      var n := |log| - 1;
      ScheduledInit(log);
      NotesCount(log[..n]);
      assert Shape(log[n]) == EventAt(n);
      PortionsStep(ReceivesBefore(n));
      NotesStep(log, Answers(log[..n]));
    }
  }

  /** The notes of a log after the last call's, from those before it. */
  lemma NotesStep(log: seq<Step>, a: seq<bool>)
    requires log != [] && a == Answers(log[..|log| - 1]) && Notes(log[..|log| - 1]) == Numbered(0, a)
    requires log[|log| - 1].Received? ==> log[|log| - 1].portion * PortionSize == |a|
    ensures Notes(log) == Numbered(0, Answers(log))
  {
    var s := log[|log| - 1];
    if s.Received? {
      NumberedAppend(0, a, s.answers);
    } else {
      AppendEmpty(a);
      AppendEmpty(Numbered(0, a));
    }
  }

  /** How main exits: `return 0`, or `die` with its reason. */
  datatype Exit = Success | Failure(reason: Fatal)

  /** The exit after a last call. */
  function ExitOf(s: Step): (exit: Exit)
    ensures exit.Failure? <==> Outcome(s).Some?
    ensures exit.Failure? ==> exit.reason == Outcome(s).value
  {
    if Outcome(s).Some? then Failure(Outcome(s).value) else Success
  }

  /** The calls of a run of main after the connection, and its exit: the
      schedule is followed as long as every call completes, except that
      the result of receive_portion(998) is not looked at; the run exits
      with the first `die`, or with success once the schedule is done or
      a receive_portion before the last two finds the connection closed;
      so only a `die` ends the run at receive_portion(998). */
  ghost predicate Ran(log: seq<Step>, exit: Exit) {
    Scheduled(log) && log != [] &&
    (forall p :: 0 <= p < |log| ==> Consistent(log[p])) &&
    (forall p :: 0 <= p < |log| - 1 ==>
       Complete(log[p]) || (p == 2 * Portions - 2 && log[p].Received? && log[p].status == ServerClosed)) &&
    exit == ExitOf(log[|log| - 1]) &&
    (|log| < 2 * Portions ==> !Complete(log[|log| - 1])) &&
    (|log| == 2 * Portions - 1 ==> Outcome(log[|log| - 1]).Some?)
  }

  /** The messages of a run are the requests for 0, 1, 2, ..., with no gap
      and in order, however the run ends; so are the notes, unless the
      ignored receive_portion(998) found the connection closed. */
  lemma RanInOrder(log: seq<Step>, exit: Exit)
    requires Ran(log, exit)
    ensures Sends(log) == Requests(0, |Sends(log)|)
    ensures |log| < 2 * Portions || log[2 * Portions - 2].status == Finished ==> Notes(log) == Numbered(0, Answers(log))
  {
    SentInOrder(log);
    if |log| < 2 * Portions || log[2 * Portions - 2].status == Finished {
      NotedInOrder(log);
    }
  }

  /** Only the last call of a log may have sent part of a portion. */
  lemma SentInOrder(log: seq<Step>)
    requires Scheduled(log) && log != []
    requires forall p :: 0 <= p < |log| - 1 && log[p].Sent? ==> log[p].delivered == PortionSize
    ensures Sends(log) == Requests(0, |Sends(log)|)
  {
    var n := |log| - 1;
    ScheduledInit(log);
    assert Shape(log[n]) == EventAt(n);
    SendsCount(log[..n]);
    var m := PortionSize * SendsBefore(n);
    SendsStep(log, m);
    var k := m + if log[n].Sent? then log[n].delivered else 0;
    assert Sends(log) == Requests(0, k);
    assert |Sends(log)| == k;
  }

  /** Only the last call of a log may have read part of a portion. */
  lemma NotedInOrder(log: seq<Step>)
    requires Scheduled(log) && log != []
    requires forall p :: 0 <= p < |log| - 1 && log[p].Received? ==> |log[p].answers| == PortionSize
    ensures Notes(log) == Numbered(0, Answers(log))
  {
    var n := |log| - 1;
    ScheduledInit(log);
    assert Shape(log[n]) == EventAt(n);
    NotesCount(log[..n]);
    PortionsStep(ReceivesBefore(n));
    NotesStep(log, Answers(log[..n]));
  }

  /** A run that exits with success after every call completed has sent
      the requests for 0 .. 999999 and noted one answer for each of them,
      in order. */
  lemma RanToEnd(log: seq<Step>)
    requires Ran(log, Success) && forall p :: 0 <= p < |log| ==> Complete(log[p])
    ensures |log| == 2 * Portions
    ensures Sends(log) == Requests(0, Portions * PortionSize)
    ensures |Answers(log)| == Portions * PortionSize && Notes(log) == Numbered(0, Answers(log))
    ensures forall k :: 0 <= k < |Notes(log)| ==> Notes(log)[k].n == k
  {
    SendsCount(log);
    NotesCount(log);
    ScheduleCounts();
    NumberedAt(0, Answers(log));
  }

  // ---------------------------------------------------------------------
  // Which run happens: the outcome of each call, from the results of
  // `send` and `recv`.

  /** What the calls so far leave for the next receive_portion: the bytes
      in the buffer and the number of `recv` calls made. */
  datatype Wire = Wire(buffered: seq<char>, calls: nat)

  /** A state the receive loop can start from: room in the buffer for a
      response line. */
  predicate Fits(w: Wire) {
    |w.buffered| <= BufferSize - 1 - MinReply
  }

  /** Call e of the schedule, made in state w, and its outcome:
      send_portion delivers the messages before the first failing `send`,
      receive_portion reads what Rounds reads from the buffer and the next
      `recv` call of w. */
  function Made(e: Event, w: Wire, sendOk: (nat, nat) -> bool, recv: (nat, nat) -> RecvResult): (s: Step)
    requires Fits(w) && Honest(recv)
    ensures Shape(s) == e && Consistent(s)
  {
    match e
    case Send(k) => Sent(k, Delivered(sendOk, k, PortionSize))
    case Receive(k) =>
      var p := Rounds(w.buffered, PortionSize, w.calls, recv);
      Received(k, p.status, p.answers, p.buffered, p.calls)
  }

  /** The state after call s, made in state w: a send leaves the buffer
      alone; a receive leaves what it did not read and adds its `recv`
      calls. */
  function After(s: Step, w: Wire): (w': Wire)
    requires Fits(w)
    ensures Fits(w') && w.calls <= w'.calls
    ensures s.Sent? ==> w' == w
  {
    if s.Sent? then w else Wire(s.left, w.calls + s.calls)
  }

  /** The state after the calls of a log, made from state w. */
  function WireAfter(log: seq<Step>, w: Wire): (w': Wire)
    requires Fits(w)
    ensures Fits(w') && w.calls <= w'.calls
  {
    if log == [] then w else After(log[|log| - 1], WireAfter(log[..|log| - 1], w))
  }

  /** Every call of a log had the outcome that the results of `send` and
      `recv` give it, in the state the calls before it left, from w. */
  ghost predicate Follows(log: seq<Step>, w: Wire, sendOk: (nat, nat) -> bool, recv: (nat, nat) -> RecvResult)
    requires Fits(w) && Honest(recv)
  {
    log == [] ||
    var n := |log| - 1;
    Follows(log[..n], w, sendOk, recv) && log[n] == Made(Shape(log[n]), WireAfter(log[..n], w), sendOk, recv)
  }

  /** One more call with the outcome the results give it. */
  lemma FollowsSnoc(log: seq<Step>, s: Step, w: Wire, sendOk: (nat, nat) -> bool, recv: (nat, nat) -> RecvResult)
    requires Fits(w) && Honest(recv) && Follows(log, w, sendOk, recv)
    requires s == Made(Shape(s), WireAfter(log, w), sendOk, recv)
    ensures Follows(log + [s], w, sendOk, recv)
    ensures WireAfter(log + [s], w) == After(s, WireAfter(log, w))
  {
    assert (log + [s])[..|log|] == log;
  }

  /** Two scheduled logs that follow the same results from the same state
      agree on their common length. */
  lemma {:induction false} SamePrefix(l1: seq<Step>, l2: seq<Step>, w: Wire, sendOk: (nat, nat) -> bool,
                                      recv: (nat, nat) -> RecvResult, k: nat)
    requires Fits(w) && Honest(recv) && Scheduled(l1) && Scheduled(l2)
    requires Follows(l1, w, sendOk, recv) && Follows(l2, w, sendOk, recv)
    requires k <= |l1| && k <= |l2|
    ensures l1[..k] == l2[..k]
  {
    if k > 0 {
      var q := k - 1;
      SamePrefix(l1, l2, w, sendOk, recv, q);
      StepAt(l1, w, sendOk, recv, q);
      StepAt(l2, w, sendOk, recv, q);
      TakeSnoc(l1, q);
      TakeSnoc(l2, q);
    }
  }

  lemma TakeSnoc(log: seq<Step>, q: nat)
    requires q < |log|
    ensures log[..q + 1] == log[..q] + [log[q]]
  {
  }

  /** Call p of a scheduled log that follows the results. */
  lemma StepAt(log: seq<Step>, w: Wire, sendOk: (nat, nat) -> bool, recv: (nat, nat) -> RecvResult, p: nat)
    requires Fits(w) && Honest(recv) && Scheduled(log) && Follows(log, w, sendOk, recv) && p < |log|
    ensures log[p] == Made(EventAt(p), WireAfter(log[..p], w), sendOk, recv)
  {
    assert Shape(log[p]) == EventAt(p);
    FollowsAt(log, w, sendOk, recv, p);
  }

  lemma {:induction false} FollowsAt(log: seq<Step>, w: Wire, sendOk: (nat, nat) -> bool, recv: (nat, nat) -> RecvResult, p: nat)
    requires Fits(w) && Honest(recv) && Follows(log, w, sendOk, recv) && p < |log|
    ensures log[p] == Made(Shape(log[p]), WireAfter(log[..p], w), sendOk, recv)
    decreases |log|
  {
    var n := |log| - 1;
    var init := log[..n];
    if p < n {
      FollowsAt(init, w, sendOk, recv, p);
      assert init[..p] == log[..p] && init[p] == log[p];
    } else {
      assert Follows(log, w, sendOk, recv) ==> log[n] == Made(Shape(log[n]), WireAfter(init, w), sendOk, recv);
    }
  }

  /** A run that is the start of another run is that whole run: Ran
      decides where a run stops. */
  lemma PrefixRun(l1: seq<Step>, e1: Exit, l2: seq<Step>, e2: Exit)
    requires Ran(l1, e1) && Ran(l2, e2) && |l1| <= |l2| && l1 == l2[..|l1|]
    ensures l1 == l2 && e1 == e2
  {
    var p := |l1| - 1;
    assert l1[p] == l2[p];
    assert |l1| == |l2|;
    assert l1 == l2[..|l2|];
  }

  /** The results of `send` and `recv` decide the run of main: two runs
      from the same state that follow them are the same calls with the
      same outcomes, and exit the same way. */
  lemma RunDetermined(l1: seq<Step>, e1: Exit, l2: seq<Step>, e2: Exit, w: Wire,
                      sendOk: (nat, nat) -> bool, recv: (nat, nat) -> RecvResult)
    requires Fits(w) && Honest(recv)
    requires Ran(l1, e1) && Follows(l1, w, sendOk, recv)
    requires Ran(l2, e2) && Follows(l2, w, sendOk, recv)
    ensures l1 == l2 && e1 == e2
  {
    if |l1| <= |l2| {
      SamePrefix(l1, l2, w, sendOk, recv, |l1|);
      assert l1[..|l1|] == l1;
      PrefixRun(l1, e1, l2, e2);
    } else {
      SamePrefix(l1, l2, w, sendOk, recv, |l2|);
      assert l2[..|l2|] == l2;
      PrefixRun(l2, e2, l1, e1);
    }
  }

  /** A log and the messages and notes after one more call. */
  lemma LogStep(log: seq<Step>, s: Step, sent0: seq<seq<char>>, sent: seq<seq<char>>, sent': seq<seq<char>>,
                reports0: seq<Report>, reports: seq<Report>, reports': seq<Report>)
    requires Scheduled(log) && |log| < 2 * Portions && Shape(s) == EventAt(|log|)
    requires sent == sent0 + Sends(log) && sent' == sent + if s.Sent? then Requests(s.portion * PortionSize, s.delivered) else []
    requires reports == reports0 + Notes(log) && reports' == reports + if s.Received? then Numbered(s.portion * PortionSize, s.answers) else []
    ensures Scheduled(log + [s]) && sent' == sent0 + Sends(log + [s]) && reports' == reports0 + Notes(log + [s])
    ensures forall p :: 0 <= p < |log| ==> (log + [s])[p] == log[p]
  {
    ScheduledSnoc(log, s);
    LogSnoc(log, s);
    var more := if s.Sent? then Requests(s.portion * PortionSize, s.delivered) else [];
    AppendAssoc(sent0, Sends(log), more);
    var noted := if s.Received? then Numbered(s.portion * PortionSize, s.answers) else [];
    AppendAssoc(reports0, Notes(log), noted);
  }

  /** A run that goes on: the schedule so far, every call complete. */
  ghost predicate Going(log: seq<Step>) {
    Scheduled(log) && forall p :: 0 <= p < |log| ==> Complete(log[p]) && Consistent(log[p])
  }

  lemma GoingOn(log: seq<Step>, s: Step)
    requires Going(log) && |log| < 2 * Portions && Shape(s) == EventAt(|log|) && Complete(s) && Consistent(s)
    ensures Going(log + [s])
  {
    ScheduledSnoc(log, s);
    assert forall p :: 0 <= p < |log| ==> (log + [s])[p] == log[p];
  }

  /** A run ends with a call that was not complete, or with the last. */
  lemma StopsAt(log: seq<Step>, s: Step)
    requires Going(log) && |log| < 2 * Portions && Shape(s) == EventAt(|log|) && Consistent(s)
    requires |log| + 1 < 2 * Portions ==> !Complete(s)
    requires |log| + 2 == 2 * Portions ==> Outcome(s).Some?
    ensures Ran(log + [s], ExitOf(s))
  {
    ScheduledSnoc(log, s);
    assert forall p :: 0 <= p < |log| ==> (log + [s])[p] == log[p];
  }

  /** A call of send_portion on a run that goes on, with the outcome the
      results of `send` give it: its messages follow those of the log, it
      reads nothing, and the run stops there exactly when a `send` failed. */
  lemma SentStep(log: seq<Step>, s: Step, log': seq<Step>, w: Wire, sendOk: (nat, nat) -> bool,
                 recv: (nat, nat) -> RecvResult, sent0: seq<seq<char>>, sent: seq<seq<char>>, sent': seq<seq<char>>)
    requires Going(log) && |log| < 2 * Portions && EventAt(|log|).Send? && log' == log + [s]
    requires Fits(w) && Honest(recv) && Follows(log, w, sendOk, recv)
    requires s == Made(EventAt(|log|), WireAfter(log, w), sendOk, recv)
    requires sent == sent0 + Sends(log) && sent' == sent + Requests(s.portion * PortionSize, s.delivered)
    ensures sent' == sent0 + Sends(log') && Notes(log') == Notes(log)
    ensures Follows(log', w, sendOk, recv) && WireAfter(log', w) == WireAfter(log, w)
    ensures s.delivered < PortionSize ==> Ran(log', Failure(SendFailed))
    ensures s.delivered == PortionSize ==> Going(log')
  {
    LogStep(log, s, sent0, sent, sent', [], Notes(log), Notes(log));
    FollowsSnoc(log, s, w, sendOk, recv);
    if s.delivered < PortionSize {
      StopsAt(log, s);
    } else {
      GoingOn(log, s);
    }
  }

  /** The last two receives: the result of the first is ignored unless it
      is a `die`. */
  lemma StopsAtLast(log: seq<Step>, a: Step, b: Step)
    requires Going(log) && |log| == 2 * Portions - 2 && Shape(a) == EventAt(|log|) && Shape(b) == EventAt(|log| + 1)
    requires Consistent(a) && Consistent(b) && a.Received? && !a.status.Died?
    ensures Ran(log + [a] + [b], ExitOf(b))
  {
    if a.status == Finished {
      GoingOn(log, a);
      StopsAt(log + [a], b);
    } else {
      ScheduledSnoc(log, a);
      ScheduledSnoc(log + [a], b);
      assert forall p :: 0 <= p < |log| ==> (log + [a] + [b])[p] == log[p];
    }
  }

  lemma PortionsStep(k: nat)
    ensures PortionSize * (k + 1) == PortionSize * k + PortionSize && k * PortionSize == PortionSize * k
  {
  }

  lemma ScheduledInit(log: seq<Step>)
    requires Scheduled(log) && log != []
    ensures Scheduled(log[..|log| - 1])
  {
  }

  /** The client's global state: the receive buffer and its fill level
      `used`, the `message` buffer, the options set by `process_arguments`,
      with the requests sent, the `Output` notes issued and the number of
      `recv` calls made so far. */
  class Client {
    var buffer: array<char>
    var used: int
    var message: array<char>
    var serverUrl: Option<seq<char>>
    var verbose: bool
    var sent: seq<seq<char>>
    var reports: seq<Report>
    var recvCalls: nat

    /** The buffer keeps room for at least one response line and its NUL,
        and the bytes it holds contain no NUL. */
    ghost predicate Valid()
      reads this, buffer
    {
      buffer.Length == BufferSize && message.Length == BufferSize && buffer != message &&
      0 <= used <= BufferSize - 1 - MinReply && '\0' !in buffer[..used]
    }

    /** The globals as the program starts: all zero. */
    constructor ()
      ensures Valid() && fresh(buffer) && fresh(message)
      ensures used == 0 && serverUrl == None && !verbose
      ensures sent == [] && reports == [] && recvCalls == 0
    {
      buffer := new char[BufferSize](_ => '\0');
      message := new char[BufferSize](_ => '\0');
      used := 0;
      serverUrl := None;
      verbose := false;
      sent := [];
      reports := [];
      recvCalls := 0;
    }

    /** `process_arguments`: the loop over argv[1 ..]; `show_usage` ends
        the run (the result true). */
    method ProcessArguments(args: seq<seq<char>>) returns (usage: bool)
      modifies this`verbose, this`serverUrl
      ensures var a := Scan(args, 1, old(verbose), old(serverUrl));
        (usage <==> a.Rejected?) && (a.Accepted? ==> verbose == a.verbose && serverUrl == a.url)
    {
      usage := false;
      var i := 1;
      while i < |args|
        invariant i >= 1 && Scan(args, 1, old(verbose), old(serverUrl)) == Scan(args, i, verbose, serverUrl)
        decreases |args| - i
      {
        var argument := args[i];
        if argument == "-h" {
          usage := true;
          return;
        } else if argument == "-v" {
          verbose := true;
        } else if serverUrl.None? {
          serverUrl := Some(argument);
        } else {
          usage := true;
          return;
        }
        i := i + 1;
      }
    }

    /** `sprintf(message, "%d\r\n", n)`: the text and its NUL, and the
        number of characters printed. */
    method PrintRequest(n: int) returns (printed: nat)
      requires Valid() && IntMin <= n <= IntMax
      modifies message
      ensures Valid()
      ensures printed < message.Length && message[..printed] == FormatInt(n) + CRLF && message[printed] == '\0'
    {
      var text := FormatInt(n) + CRLF;
      RequestLength(n);
      var k := 0;
      while k < |text|
        invariant 0 <= k <= |text| && message[..k] == text[..k]
      {
        message[k] := text[k];
        k := k + 1;
      }
      message[k] := '\0';
      assert message[..k] == text[..k];
      printed := k;
    }

    /** `send_portion(i)`: the requests for i * 1000 .. i * 1000 + 999 in
        order, each sent as soon as it is printed; the first failing `send`
        is fatal. */
    method SendPortion(i: nat, sendOk: (nat, nat) -> bool) returns (died: bool)
      requires Valid() && PortionInRange(i)
      modifies message, this`sent
      ensures Valid()
      ensures var k := Delivered(sendOk, i, PortionSize);
        sent == old(sent) + Requests(i * PortionSize, k) && (died <==> k < PortionSize)
    {
      died := false;
      var j := 0;
      while j < PortionSize
        invariant Valid() && 0 <= j <= PortionSize && !died
        invariant forall q :: 0 <= q < j ==> sendOk(i, q)
        invariant sent == old(sent) + Requests(i * PortionSize, j)
      {
        var printed := PrintRequest(i * PortionSize + j);
        if !sendOk(i, j) {
          // "send failed"
          DeliveredIs(sendOk, i, PortionSize, j);
          died := true;
          return;
        }
        RequestsSnoc(i * PortionSize, j);
        AppendAssoc(old(sent), Requests(i * PortionSize, j), [message[..printed]]);
        sent := sent + [message[..printed]];
        j := j + 1;
      }
      DeliveredIs(sendOk, i, PortionSize, j);
    }

    /** `note(OUTPUT_TAG, ...)`: "n is (not) fibonacci number".  The ghost
        parameters say which answer of a run of notes this is. */
    method NoteOutput(n: int, fibonacci: bool, ghost before: seq<Report>, ghost first: int, ghost answered: seq<bool>)
      requires reports == before + Numbered(first, answered) && n == first + |answered|
      modifies this`reports
      ensures reports == old(reports) + [Report(n, fibonacci)]
      ensures reports == before + Numbered(first, answered + [fibonacci])
    {
      ReportsSnoc(before, first, answered, n, fibonacci, reports, reports + [Report(n, fibonacci)]);
      reports := reports + [Report(n, fibonacci)];
    }

    /** `recv` places the bytes after the `used` ones; a NUL follows. */
    method Store(bytes: seq<char>)
      requires Valid() && used + |bytes| < buffer.Length
      modifies buffer
      ensures Valid()
      ensures buffer[..used + |bytes|] == old(buffer[..used]) + bytes && buffer[used + |bytes|] == '\0'
    {
      var k := 0;
      while k < |bytes|
        invariant 0 <= k <= |bytes|
        invariant buffer[..used + k] == old(buffer[..used]) + bytes[..k]
      {
        buffer[used + k] := bytes[k];
        assert buffer[..used + k + 1] == buffer[..used + k] + [bytes[k]];
        k := k + 1;
      }
      buffer[used + |bytes|] := '\0';
      assert buffer[..used + |bytes|] == old(buffer[..used]) + bytes[..k];
      assert bytes[..k] == bytes;
    }

    /** One round of the inner loop of `receive_portion`, at `begin` in s:
        the terminator is looked up and the line compared; an answered line
        is reported for the number n and the loop goes on after its
        terminator, otherwise the loop ends here, or in `die`.  The ghost
        parameters place the round in the whole pass `target`, after the
        answers `answered` of the portion. */
    method AnswerLine(n: int, s: seq<char>, begin: nat, ghost target: Decoded, ghost room: nat,
                      ghost answered: seq<bool>, ghost before: seq<Report>, ghost first: int)
      returns (next: nat, fatal: Option<Fatal>, answer: Option<bool>)
      requires begin <= |s| && room > 0 && target == Continued(s, begin, room, answered)
      requires reports == before + Numbered(first, answered) && n == first + |answered|
      modifies this`reports
      ensures answer.None? ==>
        reports == old(reports) && target == Decoded(answered, if fatal.Some? then Dies(fatal.value) else Rest(begin))
      ensures answer.Some? ==>
        fatal.None? && next <= |s| && target == Continued(s, next, room - 1, answered + [answer.value]) &&
        reports == before + Numbered(first, answered + [answer.value])
    {
      ContinuesStops(target, s, begin, room, answered);
      next, fatal, answer := begin, None, None;
      var found := FindCrlf(s, begin);
      if found.None? {
        if begin == 0 {
          // "Message is too long"
          fatal := Some(TooLong);
        }
        return;
      }
      var e := found.value;
      var response := Response(s[begin..e]);
      if response.None? {
        // "Unknown response"
        fatal := Some(UnknownResponse);
        return;
      }
      ContinuesAdvances(target, s, begin, room, answered, e, response.value);
      NoteOutput(n, response.value, before, first, answered);
      next, answer := e + 2, response;
    }

    /** The inner loop of `receive_portion(i)` over the string s, entered
        after the answers `prior` of the portion: each complete line must be
        `true` or `false` and is reported for the next number of the
        portion; it returns where the unread bytes begin and the number of
        answers of the portion read, or why the client dies.  The loop
        writes a NUL over each terminator before `strcmp`; that is the
        bound of the line compared here. */
    method AnswerLines(i: nat, j0: nat, s: seq<char>, ghost before: seq<Report>, ghost prior: seq<bool>)
      returns (begin: nat, j: nat, fatal: Option<Fatal>)
      requires j0 == |prior| <= PortionSize && reports == before + Numbered(i * PortionSize, prior)
      modifies this`reports
      ensures var d := Decode(s, 0, PortionSize - j0);
        reports == before + Numbered(i * PortionSize, prior + d.answers) && j == j0 + |d.answers| &&
        (d.stop.Dies? ==> fatal == Some(d.stop.reason)) &&
        (d.stop.Rest? ==> fatal.None? && begin == d.stop.begin)
    {
      ghost var pass := Decode(s, 0, PortionSize - j0);
      ghost var target := Decoded(prior + pass.answers, pass.stop);
      ghost var answered := prior;
      ghost var room: nat := PortionSize - j0;
      begin, j, fatal := 0, j0, None;
      while j < PortionSize
        invariant |answered| == j <= PortionSize && begin <= |s| && room == PortionSize - j
        invariant target == Continued(s, begin, room, answered)
        invariant reports == before + Numbered(i * PortionSize, answered)
        decreases PortionSize - j
      {
        var next, f, answer := AnswerLine(i * PortionSize + j, s, begin, target, room, answered, before, i * PortionSize);
        if answer.None? {
          fatal := f;
          return;
        }
        answered, room := answered + [answer.value], room - 1;
        j := j + 1;
        begin := next;
      }
      ContinuesStops(target, s, begin, room, answered);
    }

    /** One turn of the outer loop of `receive_portion(i)` after `recv`
        delivered `bytes` to a buffer holding s: the inner loop over the
        filled buffer, then the unread bytes move to the front and `used`
        counts them. */
    method PassBytes(i: nat, j0: nat, bytes: seq<char>, ghost s: seq<char>, ghost before: seq<Report>, ghost prior: seq<bool>)
      returns (j: nat, fatal: Option<Fatal>)
      requires Valid() && j0 == |prior| < PortionSize && bytes != []
      requires used + |bytes| <= BufferSize - 1 && '\0' !in bytes && s == buffer[..used] + bytes
      requires reports == before + Numbered(i * PortionSize, prior)
      modifies buffer, this`used, this`reports
      ensures Valid()
      ensures var d := Decode(s, 0, PortionSize - j0);
        reports == before + Numbered(i * PortionSize, prior + d.answers) && j == j0 + |d.answers| &&
        (d.stop.Dies? ==> fatal == Some(d.stop.reason) && buffer[..used] == old(buffer[..used])) &&
        (d.stop.Rest? ==> fatal.None? && buffer[..used] == s[d.stop.begin..])
    {
      Store(bytes);
      var total := used + |bytes|;
      var filled := buffer[..total];
      var begin;
      begin, j, fatal := AnswerLines(i, j0, filled, before, prior);
      if fatal.None? {
        used := total - begin;
        MemMove(buffer, 0, begin, used);
        assert buffer[..used] == filled[begin..];
      }
    }

    /** One round of the outer loop of `receive_portion(i)` after the
        answers `answered` of the portion: `recv` into the buffer after
        the `used` bytes; -1 is fatal and 0 ends the call; otherwise the
        bytes are passed through the inner loop.  `ended` says how the
        call ends when it ends in this round.  The ghost parameters place
        the round in the whole call `target`; the ghost results extend
        `answered` and `input` by this round's answers and bytes. */
    method ReceiveRound(i: nat, j: nat, recv: (nat, nat) -> RecvResult, ghost target: Portion, ghost answered: seq<bool>,
                        ghost input: seq<char>, ghost calls: nat, ghost before: seq<Report>)
      returns (next: nat, ended: Option<Status>, ghost answered': seq<bool>, ghost input': seq<char>)
      requires Valid() && j == |answered| < PortionSize && Honest(recv)
      requires target == Resumed(answered, input, calls, buffer[..used], PortionSize - j, recvCalls, recv)
      requires reports == before + Numbered(i * PortionSize, answered)
      modifies buffer, this`used, this`reports, this`recvCalls
      ensures Valid() && recvCalls == old(recvCalls) + 1
      ensures reports == before + Numbered(i * PortionSize, answered')
      ensures ended.Some? ==> target == Portion(answered', ended.value, buffer[..used], input', calls + 1)
      ensures ended.None? ==>
        j < next <= PortionSize && |answered'| == next &&
        target == Resumed(answered', input', calls + 1, buffer[..used], PortionSize - next, recvCalls, recv)
    {
      var t := recvCalls;
      RoundsStop(target, answered, input, calls, buffer[..used], PortionSize - j, t, recv);
      var received := recv(t, BufferSize - used - 1);
      recvCalls := recvCalls + 1;
      if received.Failed? {
        // "recv failed"
        next, ended, answered', input' := j, Some(Died(RecvFailed)), answered, input;
      } else if received.bytes == [] {
        // "Connection was closed by server"
        next, ended, answered', input' := j, Some(ServerClosed), answered, input;
      } else {
        next, ended, answered', input' := TakeBytes(i, j, recv, received.bytes, target, answered, input, calls, before, t);
      }
    }

    /** The rest of a round of `receive_portion(i)` after call t of `recv`
        delivered `bytes`. */
    method TakeBytes(i: nat, j: nat, recv: (nat, nat) -> RecvResult, bytes: seq<char>, ghost target: Portion,
                     ghost answered: seq<bool>, ghost input: seq<char>, ghost calls: nat, ghost before: seq<Report>, ghost t: nat)
      returns (next: nat, ended: Option<Status>, ghost answered': seq<bool>, ghost input': seq<char>)
      requires Valid() && j == |answered| < PortionSize && Honest(recv)
      requires target == Resumed(answered, input, calls, buffer[..used], PortionSize - j, t, recv)
      requires recv(t, BufferSize - 1 - used) == Got(bytes) && bytes != [] && recvCalls == t + 1
      requires reports == before + Numbered(i * PortionSize, answered)
      modifies buffer, this`used, this`reports
      ensures Valid()
      ensures reports == before + Numbered(i * PortionSize, answered')
      ensures ended.Some? ==> target == Portion(answered', ended.value, buffer[..used], input', calls + 1)
      ensures ended.None? ==>
        j < next <= PortionSize && |answered'| == next &&
        target == Resumed(answered', input', calls + 1, buffer[..used], PortionSize - next, recvCalls, recv)
    {
      ghost var buffered := buffer[..used];
      assert |bytes| <= BufferSize - 1 - used && '\0' !in bytes;
      ghost var d := Decode(buffered + bytes, 0, PortionSize - j);
      var fatal;
      next, fatal := PassBytes(i, j, bytes, buffered + bytes, before, answered);
      answered', input' := answered + d.answers, input + bytes;
      RoundsStep(target, answered, input, calls, buffered, PortionSize - j, t, recv, bytes, d,
                 buffer[..used], PortionSize - next, recvCalls);
      ended := if fatal.Some? then Some(Died(fatal.value)) else None;
    }

    /** `receive_portion(i)`: reads the answers to portion i, 1000 of them
        unless the server closes the connection first (the result 1) or
        the client dies; complete lines beyond the 1000th stay buffered. */
    method ReceivePortion(i: nat, recv: (nat, nat) -> RecvResult) returns (status: Status)
      requires Valid() && Honest(recv)
      modifies buffer, this`used, this`reports, this`recvCalls
      ensures Valid()
      ensures var p := Rounds(old(buffer[..used]), PortionSize, old(recvCalls), recv);
        status == p.status && buffer[..used] == p.buffered &&
        reports == old(reports) + Numbered(i * PortionSize, p.answers) &&
        recvCalls == old(recvCalls) + p.calls
    {
      ghost var target := Rounds(buffer[..used], PortionSize, recvCalls, recv);
      RoundsStart(buffer[..used], PortionSize, recvCalls, recv);
      AppendEmpty(old(reports));
      ghost var answered: seq<bool> := [];
      ghost var input: seq<char> := [];
      ghost var calls: nat := 0;
      var j := 0;
      while j < PortionSize
        invariant Valid() && j <= PortionSize && |answered| == j
        invariant recvCalls == old(recvCalls) + calls
        invariant target == Resumed(answered, input, calls, buffer[..used], PortionSize - j, recvCalls, recv)
        invariant reports == old(reports) + Numbered(i * PortionSize, answered)
        decreases PortionSize - j
      {
        var next, ended;
        next, ended, answered, input := ReceiveRound(i, j, recv, target, answered, input, calls, old(reports));
        calls := calls + 1;
        if ended.Some? {
          return ended.value;
        }
        j := next;
      }
      RoundsStop(target, answered, input, calls, buffer[..used], PortionSize - j, recvCalls, recv);
      status := Finished;
    }

    /** The buffer and the `recv` count are what the calls of a log left,
        made from state w. */
    ghost predicate Reached(log: seq<Step>, w: Wire)
      requires Fits(w)
      reads this, buffer
    {
      0 <= used <= buffer.Length && Wire(buffer[..used], recvCalls) == WireAfter(log, w)
    }

    /** One more call of send_portion in a run that goes on: the messages
        of portion i before the first failing `send`. */
    method SendNext(i: nat, sendOk: (nat, nat) -> bool, ghost recv: (nat, nat) -> RecvResult, ghost w: Wire,
                    ghost log: seq<Step>, ghost sent0: seq<seq<char>>, ghost reports0: seq<Report>)
      returns (died: bool, ghost step: Step, ghost log': seq<Step>)
      requires Valid() && Going(log) && |log| < 2 * Portions && EventAt(|log|) == Send(i) && PortionInRange(i)
      requires sent == sent0 + Sends(log) && reports == reports0 + Notes(log)
      requires Fits(w) && Honest(recv) && Follows(log, w, sendOk, recv) && Reached(log, w)
      modifies message, this`sent
      ensures Valid() && sent == sent0 + Sends(log') && reports == reports0 + Notes(log')
      ensures step == Sent(i, Delivered(sendOk, i, PortionSize)) && log' == log + [step]
      ensures Follows(log', w, sendOk, recv) && Reached(log', w)
      ensures died ==> Ran(log', Failure(SendFailed))
      ensures !died ==> Going(log')
    {
      step := Sent(i, Delivered(sendOk, i, PortionSize));
      log' := log + [step];
      SentStep(log, step, log', w, sendOk, recv, sent0, sent, sent + Requests(i * PortionSize, step.delivered));
      died := SendPortion(i, sendOk);
    }

    /** One more call of receive_portion in a run that goes on: what Rounds
        reads from the buffer and the `recv` calls from the current one. */
    method ReceiveNext(i: nat, recv: (nat, nat) -> RecvResult, ghost sendOk: (nat, nat) -> bool, ghost w: Wire,
                       ghost log: seq<Step>, ghost sent0: seq<seq<char>>, ghost reports0: seq<Report>)
      returns (status: Status, ghost step: Step, ghost log': seq<Step>)
      requires Valid() && Honest(recv) && Going(log) && |log| < 2 * Portions && EventAt(|log|) == Receive(i)
      requires sent == sent0 + Sends(log) && reports == reports0 + Notes(log)
      requires Fits(w) && Follows(log, w, sendOk, recv) && Reached(log, w)
      modifies buffer, this`used, this`reports, this`recvCalls
      ensures Valid() && sent == sent0 + Sends(log') && reports == reports0 + Notes(log')
      ensures var p := Rounds(old(buffer[..used]), PortionSize, old(recvCalls), recv);
        step == Received(i, p.status, p.answers, p.buffered, p.calls) && status == p.status && log' == log + [step]
      ensures Follows(log', w, sendOk, recv) && Reached(log', w)
      ensures status != Finished && (|log| + 2 < 2 * Portions || status.Died?) ==>
        Ran(log', if status.Died? then Failure(status.reason) else Success)
      ensures status == Finished ==> Going(log')
    {
      ghost var p := Rounds(buffer[..used], PortionSize, recvCalls, recv);
      status := ReceivePortion(i, recv);
      step := Received(i, status, p.answers, p.buffered, p.calls);
      LogStep(log, step, sent0, sent, sent, reports0, reports0 + Notes(log), reports);
      FollowsSnoc(log, step, w, sendOk, recv);
      log' := log + [step];
      if status != Finished {
        if |log| + 2 < 2 * Portions || status.Died? {
          StopsAt(log, step);
        }
      } else {
        GoingOn(log, step);
      }
    }

    /** A turn of main's loop: receive_portion(i), then, unless the
        connection was closed, send_portion(i + 2). */
    method Turn(i: nat, sendOk: (nat, nat) -> bool, recv: (nat, nat) -> RecvResult, ghost w: Wire,
                ghost log: seq<Step>, ghost sent0: seq<seq<char>>, ghost reports0: seq<Report>)
      returns (stop: Option<Exit>, ghost log': seq<Step>)
      requires Valid() && Honest(recv) && i < Portions - 2 && |log| == 2 + 2 * i && Going(log)
      requires sent == sent0 + Sends(log) && reports == reports0 + Notes(log)
      requires Fits(w) && Follows(log, w, sendOk, recv) && Reached(log, w)
      modifies message, buffer, this`used, this`sent, this`reports, this`recvCalls
      ensures Valid() && sent == sent0 + Sends(log') && reports == reports0 + Notes(log')
      ensures Follows(log', w, sendOk, recv) && Reached(log', w)
      ensures stop.None? ==> |log'| == |log| + 2 && Going(log')
      ensures stop.Some? ==> Ran(log', stop.value)
    {
      var status;
      ghost var step, middle;
      ReceiveOfTurn(i, |log|);
      status, step, middle := ReceiveNext(i, recv, sendOk, w, log, sent0, reports0);
      if status != Finished {
        return Some(if status.Died? then Failure(status.reason) else Success), middle;
      }
      SendOfTurn(i, |middle|);
      stop, log' := SendAhead(i, sendOk, recv, w, middle, sent0, reports0);
    }

    /** The second half of a turn: send_portion(i + 2). */
    method SendAhead(i: nat, sendOk: (nat, nat) -> bool, ghost recv: (nat, nat) -> RecvResult, ghost w: Wire,
                     ghost log: seq<Step>, ghost sent0: seq<seq<char>>, ghost reports0: seq<Report>)
      returns (stop: Option<Exit>, ghost log': seq<Step>)
      requires Valid() && Honest(recv) && Going(log) && |log| < 2 * Portions
      requires EventAt(|log|) == Send(i + 2) && PortionInRange(i + 2)
      requires sent == sent0 + Sends(log) && reports == reports0 + Notes(log)
      requires Fits(w) && Follows(log, w, sendOk, recv) && Reached(log, w)
      modifies message, this`sent
      ensures Valid() && sent == sent0 + Sends(log') && reports == reports0 + Notes(log')
      ensures Follows(log', w, sendOk, recv) && Reached(log', w)
      ensures stop.None? ==> |log'| == |log| + 1 && Going(log')
      ensures stop.Some? ==> Ran(log', stop.value)
    {
      var died;
      ghost var step;
      died, step, log' := SendNext(i + 2, sendOk, recv, w, log, sent0, reports0);
      stop := if died then Some(Failure(SendFailed)) else None;
    }

    /** main: the command line, the socket, the lookup of the host, the
        connection, then the exchange.  As the code is written, the host
        looked up is argv[1] (HostAsWritten), whatever process_arguments
        chose as server_url. */
    method Run(args: seq<seq<char>>, socketOk: bool, resolves: seq<char> -> bool, connectOk: bool,
               sendOk: (nat, nat) -> bool, recv: (nat, nat) -> RecvResult) returns (exit: Exit, ghost log: seq<Step>)
      requires Valid() && Honest(recv)
      modifies this`verbose, this`serverUrl, message, buffer, this`used, this`sent, this`reports, this`recvCalls
      ensures Valid() && sent == old(sent) + Sends(log) && reports == old(reports) + Notes(log)
      ensures var a, h := Scan(args, 1, old(verbose), old(serverUrl)), HostAsWritten(args);
        if a.Rejected? then exit == Failure(Usage) && log == []
        else if !socketOk then exit == Failure(NoSocket) && log == []
        else if h.None? || !resolves(h.value) then exit == Failure(NoHost) && log == []
        else if !connectOk then exit == Failure(NoConnection) && log == []
        else Ran(log, exit) && Follows(log, Wire(old(buffer[..used]), old(recvCalls)), sendOk, recv)
    {
      log := [];
      var usage := ProcessArguments(args);
      if usage {
        return Failure(Usage), log;
      }
      if !socketOk {
        return Failure(NoSocket), log;
      }
      var host := HostAsWritten(args);
      if host.None? || !resolves(host.value) {
        return Failure(NoHost), log;
      }
      if !connectOk {
        return Failure(NoConnection), log;
      }
      exit, log := Exchange(sendOk, recv);
    }

    /** main once connected: two portions are sent ahead, then each
        portion is received and the one two ahead is sent, until the
        connection closes; the last two portions are received whatever
        receive_portion(998) returns.  Each call has the outcome the
        results of `send` and `recv` give it, so the run is the one
        RunDetermined says they decide. */
    method Exchange(sendOk: (nat, nat) -> bool, recv: (nat, nat) -> RecvResult) returns (exit: Exit, ghost log: seq<Step>)
      requires Valid() && Honest(recv)
      modifies message, buffer, this`used, this`sent, this`reports, this`recvCalls
      ensures Valid() && Ran(log, exit)
      ensures Follows(log, Wire(old(buffer[..used]), old(recvCalls)), sendOk, recv)
      ensures sent == old(sent) + Sends(log) && reports == old(reports) + Notes(log)
    {
      ghost var w := Wire(buffer[..used], recvCalls);
      var died;
      died, log := SendFirst(sendOk, recv, w);
      if died {
        return Failure(SendFailed), log;
      }
      exit, log := Turns(sendOk, recv, w, log, old(sent), old(reports));
    }

    /** send_portion(0) and send_portion(1), before the loop. */
    method SendFirst(sendOk: (nat, nat) -> bool, ghost recv: (nat, nat) -> RecvResult, ghost w: Wire)
      returns (died: bool, ghost log: seq<Step>)
      requires Valid() && Honest(recv) && w == Wire(buffer[..used], recvCalls)
      modifies message, this`sent
      ensures Valid() && sent == old(sent) + Sends(log) && reports == old(reports) + Notes(log)
      ensures Follows(log, w, sendOk, recv) && Reached(log, w)
      ensures died ==> Ran(log, Failure(SendFailed))
      ensures !died ==> |log| == 2 && Going(log)
    {
      ghost var step;
      died, step, log := SendNext(0, sendOk, recv, w, [], old(sent), old(reports));
      if died {
        return;
      }
      died, step, log := SendNext(1, sendOk, recv, w, log, old(sent), old(reports));
    }

    /** main's loop over the first 998 portions, then the last two. */
    method Turns(sendOk: (nat, nat) -> bool, recv: (nat, nat) -> RecvResult, ghost w: Wire,
                 ghost log: seq<Step>, ghost sent0: seq<seq<char>>, ghost reports0: seq<Report>)
      returns (exit: Exit, ghost log': seq<Step>)
      requires Valid() && Honest(recv) && |log| == 2 && Going(log)
      requires sent == sent0 + Sends(log) && reports == reports0 + Notes(log)
      requires Fits(w) && Follows(log, w, sendOk, recv) && Reached(log, w)
      modifies message, buffer, this`used, this`sent, this`reports, this`recvCalls
      ensures Valid() && Ran(log', exit) && sent == sent0 + Sends(log') && reports == reports0 + Notes(log')
      ensures Follows(log', w, sendOk, recv)
    {
      log' := log;
      var i := 0;
      while i < Portions - 2
        invariant Valid() && i <= Portions - 2 && |log'| == 2 + 2 * i && Going(log')
        invariant sent == sent0 + Sends(log') && reports == reports0 + Notes(log')
        invariant Follows(log', w, sendOk, recv) && Reached(log', w)
      {
        var stop;
        stop, log' := Turn(i, sendOk, recv, w, log', sent0, reports0);
        if stop.Some? {
          return stop.value, log';
        }
        i := i + 1;
      }
      exit, log' := Finish(recv, sendOk, w, log', sent0, reports0);
    }

    /** receive_portion(998) and receive_portion(999). */
    method Finish(recv: (nat, nat) -> RecvResult, ghost sendOk: (nat, nat) -> bool, ghost w: Wire,
                  ghost log: seq<Step>, ghost sent0: seq<seq<char>>, ghost reports0: seq<Report>)
      returns (exit: Exit, ghost log': seq<Step>)
      requires Valid() && Honest(recv) && Going(log) && |log| == 2 * Portions - 2
      requires sent == sent0 + Sends(log) && reports == reports0 + Notes(log)
      requires Fits(w) && Follows(log, w, sendOk, recv) && Reached(log, w)
      modifies buffer, this`used, this`reports, this`recvCalls
      ensures Valid() && Ran(log', exit) && sent == sent0 + Sends(log') && reports == reports0 + Notes(log')
      ensures Follows(log', w, sendOk, recv)
    {
      var status;
      ghost var a, b, middle;
      status, a, middle := ReceiveNext(Portions - 2, recv, sendOk, w, log, sent0, reports0);
      if status.Died? {
        return Failure(status.reason), middle;
      }
      status, b, log' := LastReceive(recv, sendOk, w, log, a, middle, sent0, reports0);
      exit := if status.Died? then Failure(status.reason) else Success;
    }

    /** receive_portion(999), after receive_portion(998) returned a. */
    method LastReceive(recv: (nat, nat) -> RecvResult, ghost sendOk: (nat, nat) -> bool, ghost w: Wire,
                       ghost log: seq<Step>, ghost a: Step, ghost middle: seq<Step>,
                       ghost sent0: seq<seq<char>>, ghost reports0: seq<Report>)
      returns (status: Status, ghost b: Step, ghost log': seq<Step>)
      requires Valid() && Honest(recv) && Going(log) && |log| == 2 * Portions - 2
      requires middle == log + [a] && Shape(a) == EventAt(|log|) && Consistent(a) && a.Received? && !a.status.Died?
      requires sent == sent0 + Sends(middle) && reports == reports0 + Notes(middle)
      requires Fits(w) && Follows(middle, w, sendOk, recv) && Reached(middle, w)
      modifies buffer, this`used, this`reports, this`recvCalls
      ensures Valid() && Ran(log', if status.Died? then Failure(status.reason) else Success)
      ensures sent == sent0 + Sends(log') && reports == reports0 + Notes(log')
      ensures Follows(log', w, sendOk, recv)
    {
      ghost var p := Rounds(buffer[..used], PortionSize, recvCalls, recv);
      status := ReceivePortion(Portions - 1, recv);
      b := Received(Portions - 1, status, p.answers, p.buffered, p.calls);
      LogStep(middle, b, sent0, sent, sent, reports0, reports0 + Notes(middle), reports);
      FollowsSnoc(middle, b, w, sendOk, recv);
      StopsAtLast(log, a, b);
      log' := middle + [b];
    }
  }
}
