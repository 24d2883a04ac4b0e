/** The server's connection handling (server/main.c): the per-connection
    framing decoder `process_new_data`, the reply encoder `send_message`, and
    the connection table made of the two parallel global arrays `sockets`
    (index 0 is the listening socket) and `data` (`data[i - 1]` serves
    `sockets[i]`), with `accept_new_client` and `clean_closed_connections`.

    `recv`, `send` and `accept` are not modelled; their results are
    parameters: the bytes one `recv` returned (or its failure), whether the
    j-th `send` of a pass succeeded, the descriptor `accept` returned. */
module Server {
  import opened CStrings
  import opened Fibonacci

  /** `sizeof(buffer_t)`. */
  const BufferSize: int := 1024
  /** `MAX_CONNECTIONS`: the length of `sockets`; `data` has one entry less. */
  const MaxConnections: int := 1024
  /** `POLLIN`. */
  const PollIn: int := 1

  /** `struct pollfd`. */
  datatype PollFd = PollFd(fd: int, events: int, revents: int)

  /** What one `recv` returned: the bytes read (none when the peer closed
      the connection), or -1. */
  datatype Recv = Received(bytes: seq<char>) | RecvFailed

  /** Bytes that one successful `send` wrote to a client socket. */
  datatype Packet = Packet(fd: int, bytes: seq<char>)

  /** The contents of one `struct ConnectionData`. */
  datatype Slot = Slot(buffer: seq<char>, used: int, closed: bool)

  /** `sockets[k + 1]` together with `data[k]`. */
  datatype Entry = Entry(socket: PollFd, slot: Slot)

  /** The reply line `send_message` sends for a classification. */
  function ReplyText(fibonacci: bool): (r: seq<char>)
    ensures |r| == if fibonacci then 6 else 7
    ensures r[|r| - 2..] == CRLF && !HasCrlf(r[..|r| - 2])
  {
    var r := if fibonacci then "true\r\n" else "false\r\n";
    ghost var body := r[..|r| - 2];
    assert forall p :: 0 <= p < |body| ==> body[p] != '\r';
    r
  }

  /** The packets `send_message` writes for a run of classifications. */
  function Packets(fd: int, replies: seq<bool>): (ps: seq<Packet>)
    ensures |ps| == |replies|
    ensures forall j :: 0 <= j < |replies| ==> ps[j] == Packet(fd, ReplyText(replies[j]))
  {
    if replies == [] then []
    else Packets(fd, replies[..|replies| - 1]) + [Packet(fd, ReplyText(replies[|replies| - 1]))]
  }

  /** One more reply adds one packet. */
  lemma PacketsSnoc(fd: int, replies: seq<bool>, x: bool)
    ensures Packets(fd, replies + [x]) == Packets(fd, replies) + [Packet(fd, ReplyText(x))]
  {
    assert (replies + [x])[..|replies|] == replies;
  }

  // ---------------------------------------------------------------------
  // What one call of process_new_data does, as a function of the bytes
  // buffered before it, the result of its recv, and the send results.

  /** Why a connection is marked closed. */
  datatype CloseReason = PeerClosed | RecvError | TooLong | Unknown | SendError

  /** What the connection keeps after a pass: the unterminated tail, or
      nothing because the connection is marked closed. */
  datatype Verdict = Keep(tail: seq<char>) | Close(reason: CloseReason)

  /** The replies sent during a pass, in order, and its verdict. */
  datatype Pass = Pass(replies: seq<bool>, verdict: Verdict)

  /** The replies sent for a run of lines, and why the run stopped early. */
  datatype Answered = Answered(replies: seq<bool>, failure: Option<CloseReason>)

  /** What `sscanf` and `is_fibonacci` make of one line: nothing when it
      holds no number, otherwise the classification of the number. */
  function Classify(line: seq<char>): (c: Option<bool>)
    ensures c.Some? <==> ParseLong(line).Some?
    ensures c.Some? ==> c.value == IsFibonacci(ParseLong(line).value)
  {
    match ParseLong(line)
    case None => None
    case Some(n) => Some(IsFibonacci(n))
  }

  /** The classification of each line. */
  function Classes(lines: seq<seq<char>>): (cs: seq<Option<bool>>)
    ensures |cs| == |lines|
  {
    if lines == [] then [] else Classes(lines[..|lines| - 1]) + [Classify(lines[|lines| - 1])]
  }

  lemma {:induction false} ClassesAt(lines: seq<seq<char>>, j: nat)
    requires j < |lines|
    ensures Classes(lines)[j] == Classify(lines[j])
    decreases |lines|
  {
    if j < |lines| - 1 {
      ClassesAt(lines[..|lines| - 1], j);
    }
  }

  lemma ClassesAll(lines: seq<seq<char>>)
    ensures forall j :: 0 <= j < |lines| ==> Classes(lines)[j] == Classify(lines[j])
  {
    forall j | 0 <= j < |lines| {
      ClassesAt(lines, j);
    }
  }

  /** Answers classified lines in order, the j-th with the j-th send
      attempt of the pass.  A line that holds no number, or whose reply
      cannot be sent, ends the run without a reply.  Defined from the last
      line backwards: the last line is reached only when every earlier one
      was answered. */
  function Answer(cs: seq<Option<bool>>, sendOk: nat -> bool): (r: Answered)
    ensures |r.replies| <= |cs|
    ensures forall j :: 0 <= j < |r.replies| ==> cs[j] == Some(r.replies[j]) && sendOk(j)
    ensures r.failure.None? ==> |r.replies| == |cs|
    ensures r.failure == Some(Unknown) ==> |r.replies| < |cs| && cs[|r.replies|].None?
    ensures r.failure == Some(SendError) ==>
      |r.replies| < |cs| && cs[|r.replies|].Some? && !sendOk(|r.replies|)
    ensures r.failure.Some? ==> r.failure.value == Unknown || r.failure.value == SendError
    decreases |cs|
  {
    if cs == [] then Answered([], None)
    else
      var a := Answer(cs[..|cs| - 1], sendOk);
      var j := |cs| - 1;
      if a.failure.Some? then a
      else if cs[j].None? then Answered(a.replies, Some(Unknown))
      else if !sendOk(j) then Answered(a.replies, Some(SendError))
      else Answered(a.replies + [cs[j].value], None)
  }

  /** Once a run fails, the lines after the failing one change nothing. */
  lemma {:induction false} AnswerStops(cs: seq<Option<bool>>, sendOk: nat -> bool, i: nat)
    requires i <= |cs| && Answer(cs[..i], sendOk).failure.Some?
    ensures Answer(cs, sendOk) == Answer(cs[..i], sendOk)
    decreases |cs|
  {
    if i < |cs| {
      var init := cs[..|cs| - 1];
      assert init[..i] == cs[..i];
      AnswerStops(init, sendOk, i);
    } else {
      assert cs[..i] == cs;
    }
  }

  /** The pass that a run of answered lines makes. */
  function Outcome(a: Answered, tail: seq<char>): Pass {
    Pass(a.replies, if a.failure.Some? then Close(a.failure.value) else Keep(tail))
  }

  /** What one scan of a buffer holding s should do, stated on its lines.
      No terminator at all means the request is "too long"; otherwise the
      j-th reply answers the j-th complete line until a line fails, and a
      pass that answered every line keeps the unterminated tail. */
  function LinePass(s: seq<char>, sendOk: nat -> bool): (r: Pass)
    ensures r.verdict == Close(TooLong) <==> !HasCrlf(s)
    ensures r.verdict != Close(PeerClosed) && r.verdict != Close(RecvError)
    ensures var lines := SplitLines(s).lines;
      |r.replies| <= |lines| &&
      (forall j :: 0 <= j < |r.replies| ==>
        ParseLong(lines[j]).Some? && sendOk(j) &&
        r.replies[j] == IsFibonacci(ParseLong(lines[j]).value)) &&
      (r.verdict.Keep? ==> |r.replies| == |lines| && r.verdict.tail == SplitLines(s).tail) &&
      (r.verdict == Close(Unknown) ==>
        |r.replies| < |lines| && ParseLong(lines[|r.replies|]).None?) &&
      (r.verdict == Close(SendError) ==>
        |r.replies| < |lines| && ParseLong(lines[|r.replies|]).Some? && !sendOk(|r.replies|))
  {
    var sp := SplitLines(s);
    NoLinesIffNoCrlf(s);
    ClassesAll(sp.lines);
    if sp.lines == [] then Pass([], Close(TooLong))
    else Outcome(Answer(Classes(sp.lines), sendOk), sp.tail)
  }

  /** The scanning loop of `process_new_data` from offset `begin` of s, when
      `k` replies were sent already: `strstr` for the next terminator,
      `sscanf` of the line before it, then `send_message`. */
  function Scan(s: seq<char>, begin: nat, k: nat, sendOk: nat -> bool): Pass
    requires begin <= |s|
    decreases |s| - begin
  {
    match FindCrlf(s, begin)
    case None =>
      if begin == 0 then Pass([], Close(TooLong)) else Pass([], Keep(s[begin..]))
    case Some(e) =>
      match ParseLong(s[begin..e])
      case None => Pass([], Close(Unknown))
      case Some(n) =>
        if !sendOk(k) then Pass([], Close(SendError))
        else
          var r := Scan(s, e + 2, k + 1, sendOk);
          Pass([IsFibonacci(n)] + r.replies, r.verdict)
  }

  /** One answered line of a scan. */
  lemma ScanStep(s: seq<char>, begin: nat, k: nat, sendOk: nat -> bool, e: nat, n: int)
    requires begin <= |s| && FindCrlf(s, begin) == Some(e)
    requires ParseLong(s[begin..e]) == Some(n) && sendOk(k)
    ensures e + 2 <= |s|
    ensures var r := Scan(s, e + 2, k + 1, sendOk);
      Scan(s, begin, k, sendOk) == Pass([IsFibonacci(n)] + r.replies, r.verdict)
  {
  }

  /** One scan of a buffer holding s. */
  function FramePass(s: seq<char>, sendOk: nat -> bool): Pass {
    Scan(s, 0, 0, sendOk)
  }

  /** The offsets of the terminators that the scan from `begin` overwrites
      with a NUL before its `sscanf`: one for each line the scan reaches,
      the line that makes it close the connection included.  They are the
      successive terminators of s from `begin`, one for each reply, and one
      more when a line is unknown or its reply cannot be sent; on a
      surviving pass they all lie before the kept tail. */
  function Nulled(s: seq<char>, begin: nat, k: nat, sendOk: nat -> bool): (ends: seq<nat>)
    requires begin <= |s|
    ensures |ends| > 0 ==> FindCrlf(s, begin) == Some(ends[0])
    ensures forall j :: 0 <= j < |ends| ==> begin <= ends[j] && IsCrlfAt(s, ends[j])
    decreases |s| - begin
  {
    match FindCrlf(s, begin)
    case None => []
    case Some(e) =>
      if ParseLong(s[begin..e]).None? || !sendOk(k) then [e]
      else [e] + Nulled(s, e + 2, k + 1, sendOk)
  }

  /** The first terminator after the one at e, if any. */
  function NextCrlf(s: seq<char>, e: nat): Option<nat>
  {
    FindCrlf(s, e + 2)
  }

  /** Each NUL after the first goes over the next terminator after the one
      before it. */
  lemma {:induction false} NulledChain(s: seq<char>, begin: nat, k: nat, sendOk: nat -> bool)
    requires begin <= |s|
    ensures var ends := Nulled(s, begin, k, sendOk);
      forall j :: 0 <= j < |ends| - 1 ==> NextCrlf(s, ends[j]) == Some(ends[j + 1])
    decreases |s| - begin
  {
    match FindCrlf(s, begin)
    case None =>
    case Some(e) =>
      NulledStep(s, begin, k, sendOk, e);
      if ParseLong(s[begin..e]).Some? && sendOk(k) {
        NulledChain(s, e + 2, k + 1, sendOk);
        ChainCons(s, e, Nulled(s, e + 2, k + 1, sendOk));
      }
  }

  /** A chain of terminators from e + 2 extends by e in front. */
  lemma ChainCons(s: seq<char>, e: nat, tail: seq<nat>)
    requires tail != [] ==> NextCrlf(s, e) == Some(tail[0])
    requires forall j :: 0 <= j < |tail| - 1 ==> NextCrlf(s, tail[j]) == Some(tail[j + 1])
    ensures var ends := [e] + tail;
      forall j :: 0 <= j < |ends| - 1 ==> NextCrlf(s, ends[j]) == Some(ends[j + 1])
  {
    var ends := [e] + tail;
    forall j | 0 <= j < |ends| - 1
      ensures NextCrlf(s, ends[j]) == Some(ends[j + 1])
    {
      if j > 0 {
        assert ends[j] == tail[j - 1] && ends[j + 1] == tail[j];
      }
    }
  }

  /** The NULs of a scan against its replies and its verdict. */
  lemma {:induction false} NulledCount(s: seq<char>, begin: nat, k: nat, sendOk: nat -> bool)
    requires begin <= |s|
    ensures var r, ends := Scan(s, begin, k, sendOk), Nulled(s, begin, k, sendOk);
      |ends| == |r.replies| + (if r.verdict == Close(Unknown) || r.verdict == Close(SendError) then 1 else 0)
    decreases |s| - begin
  {
    match FindCrlf(s, begin)
    case None =>
    case Some(e) =>
      NulledStep(s, begin, k, sendOk, e);
      match ParseLong(s[begin..e])
      case None =>
      case Some(n) =>
        if sendOk(k) {
          NulledCount(s, e + 2, k + 1, sendOk);
          ScanStep(s, begin, k, sendOk, e, n);
        }
  }

  /** On a surviving scan from begin, the NULs lie before the kept tail. */
  ghost predicate NulsBeforeTail(s: seq<char>, begin: nat, k: nat, sendOk: nat -> bool)
    requires begin <= |s|
  {
    var r, ends := Scan(s, begin, k, sendOk), Nulled(s, begin, k, sendOk);
    r.verdict.Keep? ==>
      |r.verdict.tail| <= |s| - begin && forall j :: 0 <= j < |ends| ==> ends[j] + 2 + |r.verdict.tail| <= |s|
  }

  lemma {:induction false} NulledBeforeTail(s: seq<char>, begin: nat, k: nat, sendOk: nat -> bool)
    requires begin <= |s|
    ensures NulsBeforeTail(s, begin, k, sendOk)
    decreases |s| - begin
  {
    match FindCrlf(s, begin)
    case None =>
    case Some(e) =>
      match ParseLong(s[begin..e])
      case None =>
      case Some(n) =>
        if sendOk(k) {
          NulledBeforeTail(s, e + 2, k + 1, sendOk);
          TailStep(s, begin, k, sendOk, e, n);
        }
  }

  /** NulsBeforeTail from begin, from that after the first line. */
  lemma TailStep(s: seq<char>, begin: nat, k: nat, sendOk: nat -> bool, e: nat, n: int)
    requires begin <= |s| && FindCrlf(s, begin) == Some(e) && ParseLong(s[begin..e]) == Some(n) && sendOk(k)
    requires e + 2 <= |s| && NulsBeforeTail(s, e + 2, k + 1, sendOk)
    ensures NulsBeforeTail(s, begin, k, sendOk)
  {
    ScanStep(s, begin, k, sendOk, e, n);
    NulledStep(s, begin, k, sendOk, e);
  }

  /** The buffer with a NUL written at each of the offsets. */
  function NulAt(buffer: seq<char>, ends: seq<nat>): (r: seq<char>)
    ensures |r| == |buffer|
    ensures forall p :: 0 <= p < |buffer| ==> r[p] == if p in ends then '\0' else buffer[p]
  {
    seq(|buffer|, p requires 0 <= p < |buffer| => if p in ends then '\0' else buffer[p])
  }

  /** One more NUL. */
  lemma NulAtSnoc(buffer: seq<char>, ends: seq<nat>, e: nat)
    requires e < |buffer|
    ensures NulAt(buffer, ends + [e]) == NulAt(buffer, ends)[e := '\0']
  {
  }

  /** Where the scan from begin finds the terminator e, it writes its NUL
      there and goes on from after it, unless the line ends the pass. */
  lemma NulledStep(s: seq<char>, begin: nat, k: nat, sendOk: nat -> bool, e: nat)
    requires begin <= |s| && FindCrlf(s, begin) == Some(e)
    ensures e + 2 <= |s|
    ensures Nulled(s, begin, k, sendOk) ==
      if ParseLong(s[begin..e]).None? || !sendOk(k) then [e] else [e] + Nulled(s, e + 2, k + 1, sendOk)
  {
  }

  /** FramePass(s) continues as the scan from begin, after the replies
      already given. */
  ghost predicate Resumes(target: Pass, s: seq<char>, sendOk: nat -> bool, begin: nat, k: nat, replied: seq<bool>)
    requires begin <= |s|
  {
    var r := Scan(s, begin, k, sendOk);
    target == Pass(replied + r.replies, r.verdict)
  }

  /** Before any line is answered the pass is all still to come. */
  lemma StartsResumed(s: seq<char>, sendOk: nat -> bool)
    ensures Resumes(FramePass(s, sendOk), s, sendOk, 0, 0, [])
  {
    AppendEmpty(FramePass(s, sendOk).replies);
  }

  /** Where the scan stops at begin, the pass is what was replied so far. */
  lemma ResumeStops(target: Pass, s: seq<char>, sendOk: nat -> bool, begin: nat, k: nat, replied: seq<bool>)
    requires begin <= |s| && Resumes(target, s, sendOk, begin, k, replied)
    ensures FindCrlf(s, begin).None? ==>
      target == Pass(replied, if begin == 0 then Close(TooLong) else Keep(s[begin..]))
    ensures FindCrlf(s, begin).Some? ==> FindCrlf(s, begin).value + 2 <= |s|
    ensures FindCrlf(s, begin).Some? && ParseLong(s[begin..FindCrlf(s, begin).value]).None? ==>
      target == Pass(replied, Close(Unknown))
    ensures FindCrlf(s, begin).Some? && ParseLong(s[begin..FindCrlf(s, begin).value]).Some? && !sendOk(k) ==>
      target == Pass(replied, Close(SendError))
  {
    AppendEmpty(replied);
  }

  /** Where the scan answers the line ending at e, it resumes after it. */
  lemma ResumeAdvances(target: Pass, s: seq<char>, sendOk: nat -> bool, begin: nat, k: nat, replied: seq<bool>, e: nat, n: int)
    requires begin <= |s| && Resumes(target, s, sendOk, begin, k, replied)
    requires FindCrlf(s, begin) == Some(e) && ParseLong(s[begin..e]) == Some(n) && sendOk(k)
    ensures e + 2 <= |s| && Resumes(target, s, sendOk, e + 2, k + 1, replied + [IsFibonacci(n)])
  {
    ScanStep(s, begin, k, sendOk, e, n);
    var r := Scan(s, e + 2, k + 1, sendOk);
    AppendAssoc(replied, [IsFibonacci(n)], r.replies);
  }

  /** The last line of a prefix of classifications decides the step. */
  lemma AnswerSnoc(cs: seq<Option<bool>>, sendOk: nat -> bool, i: nat)
    requires i < |cs|
    ensures var a := Answer(cs[..i], sendOk);
      Answer(cs[..i + 1], sendOk) ==
        if a.failure.Some? then a
        else if cs[i].None? then Answered(a.replies, Some(Unknown))
        else if !sendOk(i) then Answered(a.replies, Some(SendError))
        else Answered(a.replies + [cs[i].value], None)
  {
    assert cs[..i + 1][..i] == cs[..i];
  }

  /** The rest of a scan that has answered the first i lines. */
  lemma {:induction false} ScanFollowsLines(s: seq<char>, sendOk: nat -> bool,
                                           begin: nat, i: nat, replied: seq<bool>)
    requires begin <= |s| && i <= |SplitLines(s).lines|
    requires SplitFrom(s, begin) == Split(SplitLines(s).lines[i..], SplitLines(s).tail)
    requires (begin == 0) == (i == 0)
    requires Answer(Classes(SplitLines(s).lines)[..i], sendOk) == Answered(replied, None)
    ensures var sp, r := SplitLines(s), Scan(s, begin, i, sendOk);
      if sp.lines == [] then r == Pass([], Close(TooLong))
      else Outcome(Answer(Classes(sp.lines), sendOk), sp.tail) == Pass(replied + r.replies, r.verdict)
    decreases |s| - begin
  {
    var sp := SplitLines(s);
    var cs := Classes(sp.lines);
    match FindCrlf(s, begin)
    case None =>
      LastLine(s, begin, sp.lines, i, sp.tail);
      if begin != 0 {
        assert cs[..i] == cs;
        AppendEmpty(replied);
      }
    case Some(e) =>
      NextLine(s, begin, sp.lines, i, sp.tail, e);
      ClassesAt(sp.lines, i);
      AnswerSnoc(cs, sendOk, i);
      match ParseLong(s[begin..e])
      case None =>
        AnswerStops(cs, sendOk, i + 1);
        AppendEmpty(replied);
      case Some(n) =>
        if !sendOk(i) {
          AnswerStops(cs, sendOk, i + 1);
          AppendEmpty(replied);
        } else {
          var x := IsFibonacci(n);
          ScanFollowsLines(s, sendOk, e + 2, i + 1, replied + [x]);
          ScanStep(s, begin, i, sendOk, e, n);
          AppendAssoc(replied, [x], Scan(s, e + 2, i + 1, sendOk).replies);
        }
  }

  /** The scanning loop does what LinePass describes. */
  lemma FramePassIsLinePass(s: seq<char>, sendOk: nat -> bool)
    ensures FramePass(s, sendOk) == LinePass(s, sendOk)
  {
    var sp := SplitLines(s);
    assert sp.lines[0..] == sp.lines;
    assert Classes(sp.lines)[..0] == [];
    ScanFollowsLines(s, sendOk, 0, 0, []);
    AppendEmpty(Scan(s, 0, 0, sendOk).replies);
  }

  /** The preconditions of a pass over `buffered + bytes`: the bytes fit in
      the buffer before its final NUL, and hold no NUL themselves. */
  predicate Receivable(buffered: seq<char>, incoming: Recv) {
    incoming.Received? ==>
      |buffered| + |incoming.bytes| <= BufferSize - 1 &&
      '\0' !in buffered + incoming.bytes
  }

  /** One call of `process_new_data` on a connection holding `buffered`. */
  function ServeData(buffered: seq<char>, incoming: Recv, sendOk: nat -> bool): Pass
  {
    match incoming
    case RecvFailed => Pass([], Close(RecvError))
    case Received(bytes) =>
      if bytes == [] then Pass([], Close(PeerClosed)) else FramePass(buffered + bytes, sendOk)
  }

  // ---------------------------------------------------------------------
  // Properties of a pass.

  /** What a surviving pass keeps: the buffer is its complete lines followed
      by the kept tail, the tail holds no terminator, and it is at least
      three characters shorter than the buffer (a digit and CRLF went). */
  lemma {:induction false} KeptTail(s: seq<char>, sendOk: nat -> bool)
    requires FramePass(s, sendOk).verdict.Keep?
    ensures var sp, t := SplitLines(s), FramePass(s, sendOk).verdict.tail;
      s == JoinLines(sp.lines) + t && !HasCrlf(t) &&
      |FramePass(s, sendOk).replies| == |sp.lines| >= 1 && |t| + 3 <= |s| &&
      s[|s| - |t|..] == t
  {
    FramePassIsLinePass(s, sendOk);
    var sp := SplitLines(s);
    SplitLinesParts(s);
    ParsedHasDigit(sp.lines[0]);
    JoinCons(sp.lines[0], sp.lines[1..]);
    assert [sp.lines[0]] + sp.lines[1..] == sp.lines;
  }

  /** A request split before its terminator is refused, while the same
      request delivered whole is answered: the "too long" check fires on a
      short fragment, so the decoder depends on how the byte stream is cut
      into `recv` results. */
  lemma SplitRequestIsRefused(sendOk: nat -> bool)
    requires sendOk(0)
    ensures FramePass("1", sendOk) == Pass([], Close(TooLong))
    ensures FramePass("13\r\n", sendOk) == Pass([true], Keep([]))
  {
    assert FindCrlf("1", 0).None?;
    WholeRequestIsAnswered(sendOk);
  }

  lemma WholeRequestIsAnswered(sendOk: nat -> bool)
    requires sendOk(0)
    ensures FramePass("13\r\n", sendOk) == Pass([true], Keep([]))
  {
    ThirteenFound();
    ThirteenParses();
    ScanStep("13\r\n", 0, 0, sendOk, 2, 13);
    ThirteenRest(sendOk);
    SampleFibonacci();
  }

  lemma ThirteenFound()
    ensures FindCrlf("13\r\n", 0) == Some(2) && "13\r\n"[0..2] == "13"
  {
    FirstCrlfIsFound("13\r\n", 0, 2);
  }

  lemma ThirteenRest(sendOk: nat -> bool)
    ensures Scan("13\r\n", 4, 1, sendOk) == Pass([], Keep([]))
  {
    var s := "13\r\n";
    assert |s| == 4 && s[4..] == [];
    assert FindCrlf(s, 4).None?;
  }

  lemma ThirteenParses()
    ensures ParseLong("13") == Some(13)
  {
    assert FormatNat(1) == "1";
    assert FormatInt(13) == "13";
    ParseFormatted(13, []);
    AppendEmpty("13");
  }

  // ---------------------------------------------------------------------
  // The connection table.

  /** The entries formed by parallel runs of sockets and slots. */
  function Pairs(socks: seq<PollFd>, slots: seq<Slot>): (es: seq<Entry>)
    requires |socks| == |slots|
    ensures |es| == |slots|
  {
    if slots == [] then []
    else Pairs(socks[..|socks| - 1], slots[..|slots| - 1]) + [Entry(socks[|socks| - 1], slots[|slots| - 1])]
  }

  /** The two parallel arrays of the connection table, `sockets` and
      `data`, with d, the number of entries kept so far by
      `clean_closed_connections`. */
  datatype Table = Table(sockets: seq<PollFd>, slots: seq<Slot>, kept: nat)

  predicate Paired(t: Table) {
    |t.sockets| == |t.slots| + 1
  }

  /** The table after the first s turns of the loop of
      `clean_closed_connections`.  Each turn reads the arrays as they are at
      that point, as the C loop does: an open entry s is copied to the place
      d, a closed one is skipped. */
  function CleanSteps(t0: Table, s: nat): (t: Table)
    requires Paired(t0) && s <= |t0.slots|
    ensures Paired(t) && |t.slots| == |t0.slots| && t.kept <= s
    decreases s
  {
    if s == 0 then t0.(kept := 0)
    else
      var t := CleanSteps(t0, s - 1);
      if t.slots[s - 1].closed then t
      else Table(t.sockets[t.kept + 1 := t.sockets[s]], t.slots[t.kept := t.slots[s - 1]], t.kept + 1)
  }

  /** The entries of the first k places of a table. */
  function Front(t: Table, k: nat): (es: seq<Entry>)
    requires Paired(t) && k <= |t.slots|
    ensures |es| == k
  {
    Pairs(t.sockets[1..k + 1], t.slots[..k])
  }

  /** After s turns the kept places hold, in order, the open entries among
      the first s of the original table; the listening socket and every
      place from d on are as they were. */
  lemma {:induction false} CleanStepsCompact(t0: Table, s: nat)
    requires Paired(t0) && s <= |t0.slots|
    ensures var t := CleanSteps(t0, s);
      Front(t, t.kept) == Compact(Front(t0, s)) && t.sockets[0] == t0.sockets[0] &&
      (forall j :: t.kept < j < |t.sockets| ==> t.sockets[j] == t0.sockets[j]) &&
      (forall j :: t.kept <= j < |t.slots| ==> t.slots[j] == t0.slots[j])
    decreases s
  {
    if s == 0 {
      assert Front(t0, 0) == [];
    } else {
      CleanStepsCompact(t0, s - 1);
      CleanTurn(t0, s);
    }
  }

  /** One turn of CleanStepsCompact, from the facts after s - 1 turns. */
  lemma CleanTurn(t0: Table, s: nat)
    requires Paired(t0) && 0 < s <= |t0.slots|
    requires var t := CleanSteps(t0, s - 1);
      Front(t, t.kept) == Compact(Front(t0, s - 1)) && t.sockets[0] == t0.sockets[0] &&
      (forall j :: t.kept < j < |t.sockets| ==> t.sockets[j] == t0.sockets[j]) &&
      (forall j :: t.kept <= j < |t.slots| ==> t.slots[j] == t0.slots[j])
    ensures var t := CleanSteps(t0, s);
      Front(t, t.kept) == Compact(Front(t0, s)) && t.sockets[0] == t0.sockets[0] &&
      (forall j :: t.kept < j < |t.sockets| ==> t.sockets[j] == t0.sockets[j]) &&
      (forall j :: t.kept <= j < |t.slots| ==> t.slots[j] == t0.slots[j])
  {
    var t := CleanSteps(t0, s - 1);
    var e := Entry(t0.sockets[s], t0.slots[s - 1]);
    assert t.sockets[s] == t0.sockets[s] && t.slots[s - 1] == t0.slots[s - 1];
    FrontSnoc(t0, s - 1);
    CompactSnoc(Front(t0, s), s - 1);
    assert Front(t0, s)[..s - 1] == Front(t0, s - 1);
    if !e.slot.closed {
      var t' := CleanSteps(t0, s);
      assert t' == Table(t.sockets[t.kept + 1 := e.socket], t.slots[t.kept := e.slot], t.kept + 1);
      FrontMove(t, e);
    }
  }

  /** The entries of one more place. */
  lemma FrontSnoc(t: Table, k: nat)
    requires Paired(t) && k < |t.slots|
    ensures Front(t, k + 1) == Front(t, k) + [Entry(t.sockets[k + 1], t.slots[k])]
  {
    assert t.sockets[1..k + 2][..k] == t.sockets[1..k + 1];
    assert t.slots[..k + 1][..k] == t.slots[..k];
  }

  /** Storing an entry at the place after the kept ones extends the kept
      entries by it. */
  lemma FrontMove(t: Table, e: Entry)
    requires Paired(t) && t.kept < |t.slots|
    ensures var t' := Table(t.sockets[t.kept + 1 := e.socket], t.slots[t.kept := e.slot], t.kept + 1);
      Front(t', t'.kept) == Front(t, t.kept) + [e]
  {
    var t' := Table(t.sockets[t.kept + 1 := e.socket], t.slots[t.kept := e.slot], t.kept + 1);
    FrontSnoc(t', t.kept);
    assert t'.sockets[1..t.kept + 1] == t.sockets[1..t.kept + 1];
    assert t'.slots[..t.kept] == t.slots[..t.kept];
  }

  /** Drops the entries marked closed, keeping the others in order. */
  function Compact(es: seq<Entry>): (r: seq<Entry>)
    ensures |r| <= |es|
    ensures forall i :: 0 <= i < |r| ==> !r[i].slot.closed
    decreases |es|
  {
    if es == [] then []
    else Compact(es[..|es| - 1]) + (if es[|es| - 1].slot.closed then [] else [es[|es| - 1]])
  }

  /** Compacting one more entry. */
  lemma CompactSnoc(es: seq<Entry>, s: nat)
    requires s < |es|
    ensures Compact(es[..s + 1]) ==
      Compact(es[..s]) + if es[s].slot.closed then [] else [es[s]]
  {
    assert es[..s + 1][..s] == es[..s];
  }

  /** Compaction is stable: it works on each part of a table separately, so
      the survivors keep their relative order. */
  lemma {:induction false} CompactAppend(a: seq<Entry>, b: seq<Entry>)
    ensures Compact(a + b) == Compact(a) + Compact(b)
    decreases |b|
  {
    if b == [] {
      assert a + b == a;
    } else {
      var b' := b[..|b| - 1];
      assert (a + b)[..|a + b| - 1] == a + b';
      CompactAppend(a, b');
    }
  }

  /** An entry survives compaction exactly when it was there and open. */
  lemma {:induction false} CompactMembers(es: seq<Entry>, e: Entry)
    ensures e in Compact(es) <==> e in es && !e.slot.closed
    decreases |es|
  {
    if es != [] {
      var init := es[..|es| - 1];
      CompactMembers(init, e);
      assert es == init + [es[|es| - 1]];
    }
  }

  /** A table without closed entries is left as it is. */
  lemma {:induction false} CompactOpen(es: seq<Entry>)
    requires forall i :: 0 <= i < |es| ==> !es[i].slot.closed
    ensures Compact(es) == es
    decreases |es|
  {
    if es != [] {
      CompactOpen(es[..|es| - 1]);
    }
  }

  /** A `struct ConnectionData` as the table holds it: a full buffer and a
      count that leaves room for the final NUL. */
  predicate SlotOk(c: Slot) {
    |c.buffer| == BufferSize && 0 <= c.used < BufferSize
  }

  /** The slots the table can hold. */
  type Connection = c: Slot | SlotOk(c) witness Slot(seq(BufferSize, _ => '\0'), 0, false)

  /** `data[k]` after `process_new_data`, from the slot before it: the
      received bytes and a NUL are stored after the buffered ones, and the
      scan writes a NUL over each terminator it reaches; a pass that keeps
      a tail moves it to the front and ends it with a NUL. */
  function ServeSlot(c: Connection, incoming: Recv, sendOk: nat -> bool): Slot {
    match incoming
    case RecvFailed => c.(closed := true)
    case Received(bytes) =>
      if bytes == [] then c.(closed := true)
      else
        var s := c.buffer[..c.used] + bytes;
        var marked := NulAt(Filled(c.buffer, c.used, bytes), Nulled(s, 0, 0, sendOk));
        match FramePass(s, sendOk).verdict
        case Close(_) => Slot(marked, c.used, true)
        case Keep(tail) => Slot(Refilled(marked, |s|, tail), |tail|, false)
  }

  /** What `process_new_data` leaves in the slot: a slot the table can hold;
      on a surviving pass, exactly the kept tail followed by a NUL; on a
      closing one, the old count and the closed mark. */
  lemma ServeSlotMeans(c: Connection, incoming: Recv, sendOk: nat -> bool)
    requires Receivable(c.buffer[..c.used], incoming)
    ensures var r := ServeSlot(c, incoming, sendOk);
      SlotOk(r) &&
      match ServeData(c.buffer[..c.used], incoming, sendOk).verdict
      case Keep(tail) => !r.closed && r.buffer[..r.used] == tail && r.buffer[r.used] == '\0'
      case Close(_) => r.closed && r.used == c.used
  {
    if incoming.Received? && incoming.bytes != [] {
      var s := c.buffer[..c.used] + incoming.bytes;
      if FramePass(s, sendOk).verdict.Keep? {
        KeptSlot(c, incoming.bytes, sendOk, s);
      }
    }
  }

  /** The Keep case of ServeSlotMeans. */
  lemma KeptSlot(c: Connection, bytes: seq<char>, sendOk: nat -> bool, s: seq<char>)
    requires Receivable(c.buffer[..c.used], Received(bytes)) && s == c.buffer[..c.used] + bytes
    requires bytes != [] && FramePass(s, sendOk).verdict.Keep?
    ensures var r, tail := ServeSlot(c, Received(bytes), sendOk), FramePass(s, sendOk).verdict.tail;
      SlotOk(r) && !r.closed && r.buffer[..r.used] == tail && r.buffer[r.used] == '\0'
  {
    var tail := FramePass(s, sendOk).verdict.tail;
    var filled := Filled(c.buffer, c.used, bytes);
    KeptTail(s, sendOk);
    NulledBeforeTail(s, 0, 0, sendOk);
    UnmarkedTail(filled, s, Nulled(s, 0, 0, sendOk), tail);
  }

  /** When bytes arrived and the pass closes the connection, the buffer
      holds the buffered and the received bytes, except for a NUL over each
      terminator the scan reached (one per reply, and one more when a line
      is unknown or its reply cannot be sent), and a NUL after them. */
  lemma ServeSlotNuls(c: Connection, bytes: seq<char>, sendOk: nat -> bool)
    requires bytes != [] && Receivable(c.buffer[..c.used], Received(bytes))
    requires ServeSlot(c, Received(bytes), sendOk).closed
    ensures var s, r := c.buffer[..c.used] + bytes, ServeSlot(c, Received(bytes), sendOk);
      var ends, pass := Nulled(s, 0, 0, sendOk), FramePass(s, sendOk);
      |ends| == |pass.replies| + (if pass.verdict == Close(Unknown) || pass.verdict == Close(SendError) then 1 else 0) &&
      (forall j :: 0 <= j < |ends| ==> IsCrlfAt(s, ends[j])) &&
      r.buffer[|s|] == '\0' &&
      forall p :: 0 <= p < |s| ==> r.buffer[p] == if p in ends then '\0' else s[p]
  {
    var s := c.buffer[..c.used] + bytes;
    NulledCount(s, 0, 0, sendOk);
    NulledChain(s, 0, 0, sendOk);
    assert |s| !in Nulled(s, 0, 0, sendOk);
  }

  /** The NULs of a surviving pass lie before its tail, which the buffer
      still holds at its end. */
  lemma UnmarkedTail(filled: seq<char>, s: seq<char>, ends: seq<nat>, tail: seq<char>)
    requires |s| < |filled| && filled[..|s|] == s && |tail| <= |s| && s[|s| - |tail|..] == tail
    requires forall j :: 0 <= j < |ends| ==> ends[j] + 2 + |tail| <= |s|
    ensures NulAt(filled, ends)[|s| - |tail|..|s|] == tail
  {
    var m := NulAt(filled, ends);
    forall p | |s| - |tail| <= p < |s|
      ensures m[p] == filled[p]
    {
      assert p !in ends;
    }
  }

  /** ServeSlot and ServeData where `recv` reports a closed or failed
      connection. */
  lemma ServeSlotCloses(c: Connection, incoming: Recv, sendOk: nat -> bool)
    requires incoming.RecvFailed? || incoming.bytes == []
    ensures ServeSlot(c, incoming, sendOk) == c.(closed := true)
    ensures ServeData(c.buffer[..c.used], incoming, sendOk).replies == []
  {
  }

  /** ServeData where bytes arrived: the pass over the buffered bytes and
      the new ones. */
  lemma ServeDataScans(c: Connection, bytes: seq<char>, sendOk: nat -> bool, s: seq<char>)
    requires bytes != [] && s == c.buffer[..c.used] + bytes
    ensures ServeData(c.buffer[..c.used], Received(bytes), sendOk) == FramePass(s, sendOk)
  {
  }

  /** ServeSlot where the pass over s keeps the tail from begin. */
  lemma ServeSlotKeeps(c: Connection, bytes: seq<char>, sendOk: nat -> bool, s: seq<char>, begin: nat)
    requires bytes != [] && s == c.buffer[..c.used] + bytes && begin <= |s|
    requires FramePass(s, sendOk).verdict == Keep(s[begin..])
    ensures ServeSlot(c, Received(bytes), sendOk) ==
      Slot(Refilled(NulAt(Filled(c.buffer, c.used, bytes), Nulled(s, 0, 0, sendOk)), |s|, s[begin..]), |s| - begin, false)
  {
  }

  /** ServeSlot where the pass over s closes the connection. */
  lemma ServeSlotClosed(c: Connection, bytes: seq<char>, sendOk: nat -> bool, s: seq<char>)
    requires bytes != [] && s == c.buffer[..c.used] + bytes && FramePass(s, sendOk).verdict.Close?
    ensures ServeSlot(c, Received(bytes), sendOk) ==
      Slot(NulAt(Filled(c.buffer, c.used, bytes), Nulled(s, 0, 0, sendOk)), c.used, true)
  {
  }

  /** The buffer after `recv` stored `bytes` at `used` and the NUL after
      them (the buffer as it was when they do not fit). */
  function Filled(buffer: seq<char>, used: nat, bytes: seq<char>): (f: seq<char>)
    ensures |f| == |buffer|
    ensures used + |bytes| < |buffer| ==>
      f[..used + |bytes|] == buffer[..used] + bytes && f[used + |bytes|] == '\0'
  {
    var total := used + |bytes|;
    if total < |buffer| then
      assert (buffer[..used] + bytes + ['\0'] + buffer[total + 1..])[..total] == buffer[..used] + bytes;
      buffer[..used] + bytes + ['\0'] + buffer[total + 1..]
    else buffer
  }

  /** The buffer after `memmove` brought the kept tail, the last bytes of
      the first `total`, to the front, and a NUL was written after it (the
      buffer as it was when the tail is not there). */
  function Refilled(filled: seq<char>, total: nat, tail: seq<char>): (r: seq<char>)
    ensures |r| == |filled|
    ensures |tail| <= total < |filled| && filled[total - |tail|..total] == tail ==>
      r[..|tail|] == tail && r[|tail|] == '\0'
  {
    if |tail| <= total < |filled| then
      var moved := MoveToFront(filled, total - |tail|, |tail|);
      assert moved[|tail| := '\0'][..|tail|] == moved[..|tail|];
      moved[|tail| := '\0']
    else filled
  }

  /** The server's global state: the connection table and the
      `messages_sent` counter, with the packets sent so far.  `data` is an
      array of structure values, as in C, so that `data[d] = data[s]`
      copies a whole entry, buffer included. */
  class Server {
    const sockets: array<PollFd>
    const data: array<Connection>
    var numberOfSockets: int
    var messagesSent: int
    /** Everything `send` has written, in order. */
    var sent: seq<Packet>

    ghost predicate Valid()
      reads this
    {
      sockets.Length == MaxConnections && data.Length == MaxConnections - 1 &&
      1 <= numberOfSockets <= MaxConnections && messagesSent >= 0
    }

    /** The state after `prepare_server`: the listening socket in
        `sockets[0]`, all other storage zero. */
    constructor (listenerFd: int)
      ensures Valid() && fresh(sockets) && fresh(data)
      ensures numberOfSockets == 1 && messagesSent == 0 && sent == []
      ensures sockets[0] == PollFd(listenerFd, PollIn, 0)
      ensures forall k :: 0 <= k < data.Length ==> data[k] == Slot(seq(BufferSize, _ => '\0'), 0, false)
    {
      sockets := new PollFd[MaxConnections](k => if k == 0 then PollFd(listenerFd, PollIn, 0) else PollFd(0, 0, 0));
      data := new Connection[MaxConnections - 1](_ => Slot(seq(BufferSize, _ => '\0'), 0, false));
      numberOfSockets := 1;
      messagesSent := 0;
      sent := [];
    }

    /** `send_message`: sends `true\r\n` or `false\r\n`; `delivered` is
        whether `send` succeeded.  Only a successful send is counted. */
    method SendMessage(clientFd: int, fibonacci: bool, delivered: bool) returns (result: int)
      modifies this`messagesSent, this`sent
      ensures result == if delivered then 0 else -1
      ensures sent == old(sent) + if delivered then [Packet(clientFd, ReplyText(fibonacci))] else []
      ensures messagesSent == old(messagesSent) + if delivered then 1 else 0
    {
      var message := if fibonacci then "true\r\n" else "false\r\n";
      if !delivered {
        return -1;
      }
      sent := sent + [Packet(clientFd, message)];
      messagesSent := messagesSent + 1;
      return 0;
    }

    /** `process_new_data(clientFd, &data[k])`: one `recv` into the buffer
        after the bytes already there, then one reply per complete line,
        then the unterminated tail moved to the front, or the entry marked
        closed.  No other entry changes. */
    method ProcessNewData(clientFd: int, k: int, incoming: Recv, sendOk: nat -> bool)
      requires Valid() && 0 <= k < data.Length
      requires Receivable(data[k].buffer[..data[k].used], incoming)
      modifies data, this`messagesSent, this`sent
      ensures Valid()
      ensures data[k] == ServeSlot(old(data[k]), incoming, sendOk)
      ensures forall j :: 0 <= j < data.Length && j != k ==> data[j] == old(data[j])
      ensures var r := ServeData(old(data[k].buffer[..data[k].used]), incoming, sendOk);
        sent == old(sent) + Packets(clientFd, r.replies) &&
        messagesSent == old(messagesSent) + |r.replies|
    {
      var conn := data[k];
      var next: Connection;
      if incoming.RecvFailed? || incoming.bytes == [] {
        // "Connection was closed by client", or "recv failed"
        ServeSlotCloses(conn, incoming, sendOk);
        next := conn.(closed := true);
        AppendEmpty(sent);
      } else {
        next := ServeBytes(clientFd, conn, incoming.bytes, sendOk);
      }
      data[k] := next;
    }

    /** The part of `process_new_data` after a `recv` that delivered bytes:
        they and a NUL are stored after the buffered ones, the complete
        lines are answered, and the tail is moved to the front; the slot
        that results is returned. */
    method ServeBytes(clientFd: int, conn: Connection, bytes: seq<char>, sendOk: nat -> bool)
      returns (next: Connection)
      requires bytes != [] && Receivable(conn.buffer[..conn.used], Received(bytes))
      modifies this`messagesSent, this`sent
      ensures next == ServeSlot(conn, Received(bytes), sendOk)
      ensures var r := ServeData(conn.buffer[..conn.used], Received(bytes), sendOk);
        sent == old(sent) + Packets(clientFd, r.replies) &&
        messagesSent == old(messagesSent) + |r.replies|
    {
      var used := conn.used;
      var total := used + |bytes|;
      var buffer := Filled(conn.buffer, used, bytes);
      var s := buffer[..total];
      ServeDataScans(conn, bytes, sendOk, s);
      var begin, closing;
      begin, closing, buffer := AnswerLines(clientFd, s, buffer, sendOk);
      if closing.Some? {
        ServeSlotClosed(conn, bytes, sendOk, s);
        next := Slot(buffer, used, true);
      } else {
        ServeSlotKeeps(conn, bytes, sendOk, s, begin);
        var left := total - begin;
        buffer := Refilled(buffer, total, s[begin..]);
        next := Slot(buffer, left, false);
      }
    }

    /** The scanning loop of `process_new_data`, over the string s that the
        start of `buffer` holds: answers each complete line and returns
        where the unanswered bytes begin, or why the connection is to be
        closed, and the buffer with a NUL written over each terminator
        reached, before its `sscanf`.  That NUL is the bound of the line
        given to ParseLong here; the NULs lie before `begin`, so the rest of
        the scan reads s. */
    method AnswerLines(clientFd: int, s: seq<char>, buffer: seq<char>, sendOk: nat -> bool)
      returns (begin: int, closing: Option<CloseReason>, marked: seq<char>)
      requires |s| <= |buffer|
      modifies this`messagesSent, this`sent
      ensures var r := FramePass(s, sendOk);
        sent == old(sent) + Packets(clientFd, r.replies) &&
        messagesSent == old(messagesSent) + |r.replies| &&
        (r.verdict.Close? ==> closing == Some(r.verdict.reason)) &&
        (r.verdict.Keep? ==> closing.None? && 0 < begin <= |s| && s[begin..] == r.verdict.tail)
      ensures marked == NulAt(buffer, Nulled(s, 0, 0, sendOk))
    {
      ghost var target := FramePass(s, sendOk);
      StartsResumed(s, sendOk);
      ghost var replied: seq<bool> := [];
      ghost var written: seq<nat> := [];
      begin, closing, marked := 0, None, buffer;
      var attempt := 0;
      assert NulAt(buffer, []) == buffer;
      while true
        invariant 0 <= begin <= |s|
        invariant Resumes(target, s, sendOk, begin, attempt, replied)
        invariant sent == old(sent) + Packets(clientFd, replied)
        invariant messagesSent == old(messagesSent) + |replied|
        invariant marked == NulAt(buffer, written) && Nulled(s, 0, 0, sendOk) == written + Nulled(s, begin, attempt, sendOk)
        decreases |s| - begin
      {
        ResumeStops(target, s, sendOk, begin, attempt, replied);
        var found := FindCrlf(s, begin);
        if found.None? {
          if begin == 0 {
            // "Message is too long"
            closing := Some(TooLong);
          }
          AppendEmpty(written);
          break;
        }
        var e := found.value;
        NulledStep(s, begin, attempt, sendOk, e);
        NulAtSnoc(buffer, written, e);
        marked := marked[e := '\0'];
        if ParseLong(s[begin..e]).None? || !sendOk(attempt) {
          AppendEmpty(written + [e]);
        } else {
          AppendAssoc(written, [e], Nulled(s, e + 2, attempt + 1, sendOk));
        }
        written := written + [e];
        var n := ParseLong(s[begin..e]);
        if n.None? {
          // "Received message is unknown"
          closing := Some(Unknown);
          break;
        }
        var fibonacci := IsFibonacci(n.value);
        if sendOk(attempt) {
          ResumeAdvances(target, s, sendOk, begin, attempt, replied, e, n.value);
        }
        begin := e + 2;
        var result := SendMessage(clientFd, fibonacci, sendOk(attempt));
        if result == -1 {
          closing := Some(SendError);
          break;
        }
        PacketsSnoc(clientFd, replied, fibonacci);
        AppendAssoc(old(sent), Packets(clientFd, replied), [Packet(clientFd, ReplyText(fibonacci))]);
        replied := replied + [fibonacci];
        attempt := attempt + 1;
      }
    }

    /** `accept_new_client` after `accept` returned `clientFd`: the new
        socket goes to `sockets[numberOfSockets]`, and `data[numberOfSockets]`
        is reset, although the new socket will be served by
        `data[numberOfSockets - 1]`, which keeps whatever it held.  There is
        no check against the size of the table. */
    method AcceptNewClient(clientFd: int)
      requires Valid() && numberOfSockets < data.Length
      modifies sockets, data, this`numberOfSockets
      ensures Valid()
      ensures var n := old(numberOfSockets);
        if clientFd < 0 then
          numberOfSockets == n && sockets[..] == old(sockets[..]) && data[..] == old(data[..])
        else
          numberOfSockets == n + 1 &&
          sockets[..] == old(sockets[..])[n := old(sockets[n]).(fd := clientFd, events := PollIn)] &&
          data[..] == old(data[..])[n := old(data[n]).(used := 0, closed := false)]
    {
      if clientFd < 0 {
        // "Could not establish new connection"
        return;
      }
      var n := numberOfSockets;
      sockets[n] := sockets[n].(fd := clientFd, events := PollIn);
      data[n] := data[n].(used := 0, closed := false);
      numberOfSockets := n + 1;
    }

    /** `clean_closed_connections`: the loop over the first
        `numberOfSockets - 1` places, proved to leave the table that
        CleanSteps describes; CleanStepsCompact says what that table holds.
        The descriptors of the dropped entries are not closed. */
    method CleanClosedConnections()
      requires Valid()
      modifies this`numberOfSockets, sockets, data
      ensures Valid()
      ensures var t0 := Table(old(sockets[..]), old(data[..]), 0);
        Table(sockets[..], data[..], numberOfSockets - 1) == CleanSteps(t0, old(numberOfSockets) - 1)
    {
      ghost var t0 := Table(sockets[..], data[..], 0);
      var s, d := 0, 0;
      while s != numberOfSockets - 1
        invariant numberOfSockets == old(numberOfSockets)
        invariant 0 <= s <= numberOfSockets - 1
        invariant Table(sockets[..], data[..], d) == CleanSteps(t0, s)
        decreases numberOfSockets - 1 - s
      {
        if !data[s].closed {
          sockets[d + 1] := sockets[s + 1];
          data[d] := data[s];
          d := d + 1;
        }
        s := s + 1;
      }
      numberOfSockets := d + 1;
    }
  }
}
