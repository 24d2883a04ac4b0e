/** The two programs together: the server's scan of the client's request
    lines, and the client's reading of the server's reply lines.  Both
    sides frame their lines with CRLF; the requests are decimal integers,
    the replies `true` or `false`. */
module Protocol {
  import opened CStrings
  import opened Fibonacci
  import Server
  import Client

  /** The bytes of a run of messages sent one after the other. */
  function Concat(ms: seq<seq<char>>): (s: seq<char>)
  {
    if ms == [] then [] else ms[0] + Concat(ms[1..])
  }

  /** Each line followed by its terminator. */
  function Terminated(lines: seq<seq<char>>): (ms: seq<seq<char>>)
    ensures |ms| == |lines|
    ensures forall j :: 0 <= j < |lines| ==> ms[j] == lines[j] + CRLF
  {
    seq(|lines|, j requires 0 <= j < |lines| => lines[j] + CRLF)
  }

  /** Sending terminated lines one by one sends their join. */
  lemma {:induction false} ConcatTerminated(lines: seq<seq<char>>)
    ensures Concat(Terminated(lines)) == JoinLines(lines)
  {
    if lines != [] {
      assert Terminated(lines)[1..] == Terminated(lines[1..]);
      ConcatTerminated(lines[1..]);
    }
  }

  // ---------------------------------------------------------------------
  // Requests, client to server.

  /** The numbers first, ..., first + count - 1 as `%d` prints them. */
  function Numerals(first: int, count: nat): (ns: seq<seq<char>>)
    ensures |ns| == count && NoCrlfIn(ns)
    ensures forall j :: 0 <= j < count ==> ns[j] == FormatInt(first + j)
  {
    var ns := seq(count, j => FormatInt(first + j));
    forall j | 0 <= j < count
      ensures !HasCrlf(ns[j])
    {
      assert ns[j] == FormatInt(first + j);
    }
    ns
  }

  /** The client's request messages are the terminated numerals. */
  lemma RequestsAreNumerals(first: int, count: nat)
    ensures Client.Requests(first, count) == Terminated(Numerals(first, count))
  {
  }

  /** The server splits the bytes of a run of requests back into the
      numerals, with nothing left over. */
  lemma RequestLines(first: int, count: nat)
    ensures SplitLines(Concat(Client.Requests(first, count))) == Split(Numerals(first, count), [])
  {
    RequestsAreNumerals(first, count);
    ConcatTerminated(Numerals(first, count));
    SplitJoin(Numerals(first, count), []);
    AppendEmpty(JoinLines(Numerals(first, count)));
  }

  /** A scan of a buffer holding a non-empty run of the client's requests,
      in which every `send` succeeds, replies to each number in order with
      its classification and keeps nothing. */
  lemma ServerAnswersRequests(first: int, count: nat, sendOk: nat -> bool)
    requires count > 0 && forall j :: 0 <= j < count ==> sendOk(j)
    ensures var r := Server.FramePass(Concat(Client.Requests(first, count)), sendOk);
      r.verdict == Server.Keep([]) && |r.replies| == count &&
      forall j :: 0 <= j < count ==> r.replies[j] == IsFibonacci(first + j)
  {
    var s := Concat(Client.Requests(first, count));
    RequestLines(first, count);
    Server.FramePassIsLinePass(s, sendOk);
    NumeralsParse(first, count);
    NumeralsKept(s, first, count, sendOk);
    NumeralsAnswered(s, first, count, sendOk);
  }

  /** No line of a run of numerals makes the scan close the connection. */
  lemma NumeralsKept(s: seq<char>, first: int, count: nat, sendOk: nat -> bool)
    requires count > 0 && forall j :: 0 <= j < count ==> sendOk(j)
    requires SplitLines(s) == Split(Numerals(first, count), [])
    requires forall j :: 0 <= j < count ==> ParseLong(Numerals(first, count)[j]) == Some(first + j)
    ensures Server.LinePass(s, sendOk).verdict == Server.Keep([])
  {
    assert HasCrlf(s) by {
      NoLinesIffNoCrlf(s);
    }
  }

  /** The j-th reply to a run of numerals classifies the j-th number. */
  lemma NumeralsAnswered(s: seq<char>, first: int, count: nat, sendOk: nat -> bool)
    requires SplitLines(s).lines == Numerals(first, count)
    requires forall j :: 0 <= j < count ==> ParseLong(Numerals(first, count)[j]) == Some(first + j)
    requires Server.LinePass(s, sendOk).verdict.Keep?
    ensures var r := Server.LinePass(s, sendOk);
      |r.replies| == count && forall j :: 0 <= j < count ==> r.replies[j] == IsFibonacci(first + j)
  {
    var r := Server.LinePass(s, sendOk);
    var ns := Numerals(first, count);
    forall j | 0 <= j < count
      ensures r.replies[j] == IsFibonacci(first + j)
    {
      assert ParseLong(ns[j]).value == first + j;
    }
  }

  /** The server reads each numeral back as the number it prints. */
  lemma NumeralsParse(first: int, count: nat)
    ensures forall j :: 0 <= j < count ==> ParseLong(Numerals(first, count)[j]) == Some(first + j)
  {
    forall j | 0 <= j < count
      ensures ParseLong(Numerals(first, count)[j]) == Some(first + j)
    {
      ParseFormatted(first + j, []);
      AppendEmpty(FormatInt(first + j));
    }
  }

  // ---------------------------------------------------------------------
  // Replies, server to client.

  /** The server's reply line is the client's response word, terminated. */
  lemma ReplyIsWord(b: bool)
    ensures Server.ReplyText(b) == Client.Word(b) + CRLF
  {
  }

  /** The words of a run of answers. */
  function Words(answers: seq<bool>): (ws: seq<seq<char>>)
    ensures |ws| == |answers| && NoCrlfIn(ws)
    ensures forall j :: 0 <= j < |answers| ==> ws[j] == Client.Word(answers[j])
  {
    seq(|answers|, j requires 0 <= j < |answers| => Client.Word(answers[j]))
  }

  /** The server's reply messages for a run of classifications. */
  function Replies(answers: seq<bool>): (ms: seq<seq<char>>)
    ensures |ms| == |answers|
    ensures forall j :: 0 <= j < |answers| ==> ms[j] == Server.ReplyText(answers[j])
  {
    seq(|answers|, j requires 0 <= j < |answers| => Server.ReplyText(answers[j]))
  }

  lemma RepliesAreWords(answers: seq<bool>)
    ensures Replies(answers) == Terminated(Words(answers))
  {
    forall j | 0 <= j < |answers|
      ensures Replies(answers)[j] == Terminated(Words(answers))[j]
    {
      ReplyIsWord(answers[j]);
    }
  }

  /** The client splits the bytes of a run of replies back into the
      words, with nothing left over. */
  lemma ReplyLines(answers: seq<bool>)
    ensures SplitLines(Concat(Replies(answers))) == Split(Words(answers), [])
  {
    RepliesAreWords(answers);
    ConcatTerminated(Words(answers));
    SplitJoin(Words(answers), []);
    AppendEmpty(JoinLines(Words(answers)));
  }

  /** The inner loop of receive_portion, given the server's replies to a
      non-empty run of numbers and room for at least as many answers, reads
      back every answer in order and consumes every byte. */
  lemma ClientReadsReplies(answers: seq<bool>, room: nat)
    requires answers != [] && |answers| <= room
    ensures var s := Concat(Replies(answers));
      Client.Decode(s, 0, room) == Client.Decoded(answers, Client.Rest(|s|))
  {
    ReplyLines(answers);
    WordsDecoded(Concat(Replies(answers)), answers, room);
  }

  lemma WordsDecoded(s: seq<char>, answers: seq<bool>, room: nat)
    requires answers != [] && |answers| <= room
    requires SplitLines(s) == Split(Words(answers), [])
    ensures Client.Decode(s, 0, room) == Client.Decoded(answers, Client.Rest(|s|))
  {
    var ws := Words(answers);
    NoLinesIffNoCrlf(s);
    Client.DecodeMeans(s, room);
    var d := Client.Decode(s, 0, room);
    forall j | 0 <= j < |ws|
      ensures Client.Response(ws[j]) == Some(answers[j])
    {
      Client.ResponseOfWord(answers[j]);
    }
    assert d.stop.Rest?;
    assert d.answers == answers;
    AppendEmpty(JoinLines(ws[|ws|..]));
    assert s[d.stop.begin..] == [];
  }

  /** One run of requests through one server scan and one client pass: the
      client reads from the server's replies exactly the classification of
      each number it asked about.  The run may be of any length; in the
      programs, the client's 22-character buffer holds at most three
      replies, so one portion takes many passes of receive_portion. */
  lemma RoundTrip(first: int, count: nat, sendOk: nat -> bool)
    requires count > 0 && forall j :: 0 <= j < count ==> sendOk(j)
    ensures var r := Server.FramePass(Concat(Client.Requests(first, count)), sendOk);
      var d := Client.Decode(Concat(Replies(r.replies)), 0, count);
      |d.answers| == count && (forall j :: 0 <= j < count ==> d.answers[j] == IsFibonacci(first + j)) &&
      d.stop == Client.Rest(|Concat(Replies(r.replies))|)
  {
    ServerAnswersRequests(first, count, sendOk);
    var r := Server.FramePass(Concat(Client.Requests(first, count)), sendOk);
    ClientReadsReplies(r.replies, count);
  }
}
