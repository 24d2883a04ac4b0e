# Fibonacci client and server, modelled in Dafny

The repository holds two C programs that talk over TCP.

- **The client** (client/main.c) sends the integers 0 .. 999999 as decimal
  lines ending in CRLF, in 1000 portions of 1000 numbers. It keeps two
  portions in flight. It reads one `true` / `false` line back for each
  number through a 22-character buffer, whose fill level `used` survives
  from one `receive_portion` call to the next.
- **The server** (server/main.c) keeps the listening socket in `sockets[0]`
  and a table of up to 1022 client connections after it, each with a
  1024-character buffer. (`sockets` has 1024 entries and `data` 1023, but
  `accept_new_client` writes `data[number_of_sockets]`, so a 1023rd client
  would be written past the end of `data`.) For every complete request line
  in a buffer it writes NUL over the line's CRLF and sends `true\r\n` when
  the number is a Fibonacci number and `false\r\n` otherwise. Connections
  marked closed are compacted out of the table after each poll round.

The project has five modules, one per file.

- `CStrings` (cstrings.dfy) models the C library calls both programs use on
  text. `strstr(…, "\r\n")` becomes `FindCrlf`, `sscanf("%ld")` becomes
  `ParseLong`, `sprintf("%d")` becomes `FormatInt`, and `memmove` becomes both
  `MemMove` on an array and `MoveToFront` on a value. The module also
  defines the framing of a buffer into CRLF-terminated lines and an
  unterminated tail (`SplitLines`), with its inverse `JoinLines`.
- `Fibonacci` (fibonacci.dfy) models `is_square` and `is_fibonacci` with an
  exact integer square root. It shows that the test is the perfect-square
  criterion, that it accepts every Fibonacci number (by the Lucas identity),
  and that it is even in n. `ExactRange` names the numbers on which the C
  test computes the same, and every number the client sends is one of them.
- `Server` (server/main.c) models the following:
  - one call of `process_new_data`, both as a function of the buffered bytes,
    the `recv` result and the `send` results (`ServeData`, `ServeSlot`) and as
    imperative methods of a `Server` class;
  - `send_message`;
  - `accept_new_client`;
  - `clean_closed_connections`, as the two-index loop over the parallel arrays
    `sockets` and `data`, proved equal to a stable filter (`Compact`).
- `Client` (client/main.c) models the following:
  - `process_arguments`;
  - `send_portion`;
  - `receive_portion`, as nested loops over the `buffer` array and the global
    `used`, proved equal to the functions `Rounds` and `Decode`;
  - the whole of `main` as `Client.Run`.

  Every run of `main` leaves a ghost log of its `send_portion` and
  `receive_portion` calls. The log follows the two-portions-ahead schedule,
  and it determines what was sent and which `Output` notes were issued.
  Each call in it has the outcome that the `send` and `recv` results give it
  in the state the calls before it left (`Client.Follows`), so those results
  decide the whole run (`Client.RunDetermined`).
- `Protocol` (protocol.dfy) puts the two programs together. The server
  splits a run of client requests back into exactly its numbers and answers
  each of them in order. The client reads the server's replies back as
  exactly those answers.

`recv`, `send`, `socket`, `gethostbyname`, `connect` and `accept` are not
modelled. Their results are parameters.

- On the server, each call of `process_new_data` gets one `recv` result, and
  `sendOk(j)` says whether the j-th `send` of a pass succeeds.
- On the client, `recv(t, m)` is what the t-th `recv` call returns when asked
  for m bytes, and `sendOk(i, j)` says whether message j of portion i is
  sent.
- `socketOk`, `resolves` and `connectOk` stand for `socket`,
  `gethostbyname` and `connect`.

`die` is the fatal outcome `Failure(reason)` of a run.

The model keeps these behaviours of the code as written:

- Both decoders treat a pass that finds no CRLF before it has consumed a
  line as "too long", whatever the fill level of the buffer. So a request cut
  short by `recv` closes the connection (`Server.SplitRequestIsRefused`).
- `accept_new_client` zeroes `data[number_of_sockets]`, while the new socket
  is served from `data[number_of_sockets - 1]` (`Server.Server.AcceptNewClient`).
- `clean_closed_connections` does not close the descriptors it drops.
- The result of `receive_portion(998)` is ignored, so `receive_portion(999)`
  runs even when the server has closed the connection (`Client.Ran`).

## Model

| member | source | states |
|---|---|---|
| `CStrings.FindCrlf` | server/main.c:170 | The result is the first position at or after `from` where CRLF starts, or None when there is no such position. |
| `CStrings.FirstCrlfIsFound` | client/main.c:93 | A CRLF at e with none between `from` and e is what the search returns. |
| `CStrings.SplitLinesParts` | server/main.c:167-185 | A buffer is its complete lines joined with CRLF, followed by the tail; no line and not the tail contains CRLF. |
| `CStrings.SplitJoin` | server/main.c:167-185 | Splitting the join of CRLF-free lines and a CRLF-free tail gives back exactly those lines and that tail. |
| `CStrings.NoLinesIffNoCrlf` | server/main.c:170-175 | A buffer has no complete line exactly when it contains no CRLF. |
| `CStrings.ParsedHasDigit` | server/main.c:178 | A line that `sscanf("%ld")` reads a number from contains a digit. |
| `CStrings.FormatInt` | client/main.c:71 | `%d` text is non-empty, has no CRLF, and is the digits of \|n\| with a leading `-` when n is negative. |
| `CStrings.DecimalOfFormat` | client/main.c:71 | The digits printed for m have decimal value m. |
| `CStrings.ParseFormatted` | server/main.c:178 | `sscanf("%ld")` reads back the number `sprintf("%d")` printed, when no digit follows the text. |
| `CStrings.FormatNatLength` | client/main.c:71 | A number below 10^k prints in at most k digits. |
| `CStrings.MoveToFront` | server/main.c:187 | `memmove` of n characters from src to the front leaves those characters at the front and the rest of the buffer as it was. |
| `CStrings.MemMove` | client/main.c:109 | In place on the array, the target range receives the old source range and every other element is unchanged. |
| `Fibonacci.SqIsProduct` | server/main.c:76 | The square used by the model is k * k. |
| `Fibonacci.IsqrtBounds` | server/main.c:75 | The integer square root r of m satisfies r^2 <= m < (r+1)^2, where the source takes `floor(sqrt(n))`. |
| `Fibonacci.IsSquareIsPerfect` | server/main.c:73-77 | `is_square(m)` holds exactly when some integer k has k^2 == m. |
| `Fibonacci.IsFibonacciMeans` | server/main.c:79-83 | `is_fibonacci(n)` holds exactly when 5n^2+4 or 5n^2-4 is a perfect square. |
| `Fibonacci.IsFibonacciEven` | server/main.c:79-83 | `is_fibonacci(-n) == is_fibonacci(n)`. |
| `Fibonacci.FibonacciNumbersPass` | server/main.c:79-83 | Every Fibonacci number F(k) passes the test. |
| `Fibonacci.SampleFibonacci` | server/main.c:79-83 | 0, 1, 2, 3, 5, 8 and 13 pass. |
| `Fibonacci.SampleNonFibonacci` | server/main.c:79-83 | 4, 6, 7 and 14 fail. |
| `Fibonacci.ClientNumbersExact` | server/main.c:73-83 | Every number the client asks about, 0 <= n < 1000000, is in `ExactRange`: 5n^2+4 is below 2^53, where `long` does not overflow and `floor(sqrt(…))` decides squares exactly. |
| `Server.ReplyText` | server/main.c:130-134 | The reply is 6 characters for true and 7 for false, ends in CRLF and has no other CRLF. |
| `Server.Packets` | server/main.c:131-133 | The j-th packet of a pass goes to the client's descriptor and carries the reply text of the j-th reply. |
| `Server.Classify` | server/main.c:178-183 | A line is answered exactly when `sscanf` reads a number from it, and then with `is_fibonacci` of that number. |
| `Server.ClassesAll` | server/main.c:167-184 | Line j of a buffer is classified on its own, as line j. |
| `Server.Answer` | server/main.c:178-183 | Replies answer the lines in order, each after a successful send. The run stops at the first unreadable line or failed send, and nothing is sent for that line or any later one. |
| `Server.LinePass` | server/main.c:167-184 | One pass, stated on the lines of the buffer. It closes as too long exactly when there is no CRLF. Otherwise reply j answers line j, until the closing line; a surviving pass answered every line and keeps the tail. |
| `Server.ScanStep` | server/main.c:170-183 | A readable line with a successful send contributes `is_fibonacci(n)` in front of the replies of the rest of the scan. |
| `Server.FramePassIsLinePass` | server/main.c:167-184 | The `strstr` / `sscanf` / `send_message` loop from the start of the buffer does what `LinePass` states. |
| `Server.KeptTail` | server/main.c:185-188 | A surviving pass answered at least one line. Its buffer is the answered lines followed by the kept tail, the tail has no CRLF, is a suffix of the buffer and is at least three characters shorter. |
| `Server.SplitRequestIsRefused` | server/main.c:170-174 | The fragment `1` alone closes the connection as too long, while `13\r\n` whole is answered `true`. |
| `Server.WholeRequestIsAnswered` | server/main.c:167-184 | `13\r\n` gets one `true` reply and leaves nothing buffered. |
| `Server.Nulled` | server/main.c:170-183 | The offsets the scan writes NUL over: the first is the first CRLF from `begin`, and every one is a CRLF at or after `begin`. |
| `Server.NulledChain` | server/main.c:170-183 | Each NUL after the first is over the first CRLF after the one before it. |
| `Server.NulledCount` | server/main.c:176-183 | A pass writes one NUL per reply, and one more when it closes on an unknown line or a failed send. |
| `Server.NulledBeforeTail` | server/main.c:176-188 | On a surviving pass every NUL lies before the kept tail, which is no longer than the rest of the buffer. |
| `Server.ServeSlotNuls` | server/main.c:154-184 | On a closing pass the buffer holds the buffered and received bytes, with NUL over exactly the terminators the scan reached (one per reply, one more for an unknown line or failed send) and NUL after them. |
| `Server.ServeSlotMeans` | server/main.c:148-194 | After `process_new_data` the slot is well formed. A surviving pass leaves exactly the tail at the front, followed by NUL, and the connection open. A closing pass marks it closed and keeps `used`. |
| `Server.ServeSlotCloses` | server/main.c:154-163 | A `recv` of 0 or -1 marks the connection closed, changes nothing else and sends no reply. |
| `Server.Filled` | server/main.c:154-164 | The received bytes land after the buffered ones and are followed by NUL. |
| `Server.Refilled` | server/main.c:185-188 | The kept tail is moved to the front of the buffer and followed by NUL. |
| `Server.CleanStepsCompact` | server/main.c:196-206 | After s turns of the compaction loop, the first d entries are the open entries among the first s, in order; the listener and the entries not yet written are untouched. |
| `Server.CompactMembers` | server/main.c:199-203 | An entry survives compaction exactly when it was in the table and open. |
| `Server.CompactAppend` | server/main.c:199-203 | Compaction works entry by entry: compacting two runs one after the other is compacting each. |
| `Server.CompactOpen` | server/main.c:199-203 | A table with no closed entry is left as it is. |
| `Server.Server.constructor` | server/main.c:103-105 | The listener is in `sockets[0]` with `POLLIN`, the count is one, and every slot is empty and open. |
| `Server.Server.SendMessage` | server/main.c:127-146 | Returns 0 and records one packet of the reply text and one more message sent, when the send succeeds. Otherwise it returns -1 and changes nothing. |
| `Server.Server.AnswerLines` | server/main.c:167-184 | The scanning loop sends the packets of `FramePass` and counts them. It reports the closing reason, or the offset where the kept tail starts, and returns the buffer with NUL over each terminator it reached (`Nulled`). |
| `Server.Server.ServeBytes` | server/main.c:164-191 | With bytes received, the slot becomes `ServeSlot`, NULs over the terminators included, and the packets of the pass are sent and counted. |
| `Server.Server.ProcessNewData` | server/main.c:148-194 | `data[k]` becomes `ServeSlot` of its old value (with the NULs the scan wrote), no other slot changes, and the packets and count grow by the replies of `ServeData`. |
| `Server.Server.AcceptNewClient` | server/main.c:108-125 | A failed accept changes nothing. A successful one writes the descriptor with `POLLIN` at `sockets[number_of_sockets]`, zeroes `used` and `closed` of `data[number_of_sockets]` and counts one more socket. |
| `Server.Server.CleanClosedConnections` | server/main.c:196-206 | The arrays and the count become what the compaction loop computes, whose content `CleanStepsCompact` states. |
| `Client.RequestsAppend` | client/main.c:70-73 | The requests for a run of numbers followed by those of the next run are the requests for the whole run. |
| `Client.RequestLength` | client/main.c:71 | Every `int` prints with CRLF in at most 13 characters, so it fits the 22-character `message`. |
| `Client.Delivered` | client/main.c:70-73 | The number of messages of a portion sent before the first failed `send`. |
| `Client.Response` | client/main.c:97-100 | A response line is accepted exactly when it is `true` or `false`, and then as that word. |
| `Client.ResponseOfWord` | client/main.c:97-98 | The word for b reads back as b. |
| `Client.Decode` | client/main.c:92-107 | The inner loop reads at most `room` answers and stops inside the string. It dies only as too long (and only when no line was consumed) or on an unknown response. A pass from the start that does not die reads at least one answer. |
| `Client.DecodeMeans` | client/main.c:92-107 | Answer j is the response of line j. The loop dies as too long exactly when there is no CRLF, and on an unknown response only at a line that is not a response. Otherwise it reads min(lines, room) answers and leaves exactly the unread lines and the tail. |
| `Client.Rounds` | client/main.c:82-111 | A portion reads at most 1000 answers, finishes exactly when it has read them all, leaves a buffer with room for a reply, and dies only for a failed `recv`, a too-long message or an unknown response. |
| `Client.NumberedAt` | client/main.c:102-104 | The k-th `Output` note of portion i is about the number i*1000+k, with the k-th answer. |
| `Client.NumberedAppend` | client/main.c:102-104 | The notes of two runs of answers are the notes of their concatenation. |
| `Client.ScanMeans` | client/main.c:119-131 | Let the named arguments be the earlier URL and the arguments other than `-h` / `-v`. The scan rejects exactly when `-h` occurs or there are two named arguments. Otherwise verbose is set exactly when `-v` occurs, and the URL is the first named argument. |
| `Client.Options` | client/main.c:119-131 | The same properties for a fresh start from `argv[1]`. |
| `Client.Positionals` | client/main.c:127-129 | The positional arguments are exactly the arguments other than `-h` and `-v`. |
| `Client.HostAsWritten` | client/main.c:142 | The name `main` resolves is `argv[1]` whenever there is one. |
| `Client.HostAsWrittenIgnoresUrl` | client/main.c:142 | For `client -v localhost` the options choose `localhost`, but `argv[1]` is `-v`. |
| `Client.Host` | client/main.c:127-128 | With accepted options, the host is present exactly when there is a positional argument, and it is the only positional argument. |
| `Client.EventAt` | client/main.c:155-162 | Call p of the schedule sends or receives the next portion in its own count. |
| `Client.ScheduleCounts` | client/main.c:155-162 | A whole run sends 1000 portions and receives 1000 portions. |
| `Client.TwoInFlight` | client/main.c:155-162 | At most two portions are sent and not yet received. Each receive follows the send of the portion two ahead, and each send of portion k >= 2 follows the receive of k-2. |
| `Client.ReceiveOfTurn` | client/main.c:157-158 | Turn i of the loop starts by receiving portion i. |
| `Client.SendOfTurn` | client/main.c:157-159 | Turn i of the loop then sends portion i+2. |
| `Client.ExitOf` | client/main.c:57-64 | A call ends the run in failure exactly when it died in `die`, with that reason. |
| `Client.SendsCount` | client/main.c:155-162 | When every send so far was complete, the messages sent are the requests for 0 .. 1000*(portions sent)-1. |
| `Client.NotesCount` | client/main.c:155-162 | When every receive so far was complete, there are 1000 answers per portion received and the notes number them from 0. |
| `Client.RanInOrder` | client/main.c:155-165 | However a run ends, its messages are the requests for 0, 1, 2, ... with no gap. Its notes are numbered from 0 with no gap, unless the ignored `receive_portion(998)` found the connection closed. |
| `Client.SentInOrder` | client/main.c:155-162 | A log whose earlier sends were complete has sent the requests for 0, 1, 2, ... in order. |
| `Client.NotedInOrder` | client/main.c:155-162 | A log whose earlier receives were complete has issued notes for 0, 1, 2, ... in order. |
| `Client.RanToEnd` | client/main.c:155-165 | A run in which every call completed made 2000 calls, sent the requests for 0 .. 999999, and issued one note for each of them, the k-th about k. |
| `Client.Made` | client/main.c:66-112 | A scheduled call made in a state that has room for a reply has the shape of the call, and counts in range: no more messages than a portion, no more answers than asked for, and all of them exactly when `receive_portion` finished. |
| `Client.After` | client/main.c:108-109 | After a call the buffer still has room for a reply and the `recv` count has not gone down; a send leaves both alone. |
| `Client.FollowsSnoc` | client/main.c:155-165 | A call with the outcome the results give it, in the state the log left, extends a log that follows the results, and the state after it is that call's `After`. |
| `Client.FollowsAt` | client/main.c:155-165 | In a log that follows the results, call p has the outcome the results give it in the state the first p calls left. |
| `Client.StepAt` | client/main.c:155-165 | In a scheduled log that follows the results, call p is the p-th call of the schedule, made in the state the first p calls left. |
| `Client.SamePrefix` | client/main.c:155-165 | Two scheduled logs that follow the same results from the same state agree on their common length. |
| `Client.PrefixRun` | client/main.c:155-165 | A run that `Ran` accepts is not a proper prefix of another accepted run, and their exits agree. |
| `Client.RunDetermined` | client/main.c:155-165 | Two runs that `Ran` accepts and that follow the same `send` and `recv` results from the same buffer and `recv` count are the same run, with the same exit. |
| `Client.SentStep` | client/main.c:66-74 | Logging a send made with its outcome: the messages grow by the requests it delivered, the notes and the buffer stay, the log still follows the results, and the run stops there exactly when a `send` failed. |
| `Client.Client.constructor` | client/main.c:26-30 | The globals start at zero: nothing buffered, no URL, not verbose. |
| `Client.Client.ProcessArguments` | client/main.c:119-131 | Returns the usage exit exactly when the scan rejects; otherwise it sets `verbose` and `server_url` as the scan says. |
| `Client.Client.PrintRequest` | client/main.c:71 | `message` holds the `%d` text of n and CRLF, followed by NUL, and `printed` is its length. |
| `Client.Client.SendPortion` | client/main.c:66-74 | The messages sent are the requests for i*1000 .. in order, up to the first failed `send`. The call dies exactly when a send failed. |
| `Client.Client.NoteOutput` | client/main.c:102-104 | One note for the next number is appended. |
| `Client.Client.Store` | client/main.c:84-90 | The received bytes follow the buffered ones and are followed by NUL. |
| `Client.Client.AnswerLines` | client/main.c:92-107 | The inner loop issues the notes of `Decode`, numbered on from j0, and reports its fatal outcome or where it stopped. |
| `Client.Client.PassBytes` | client/main.c:90-109 | After one `recv`, the notes of `Decode` are issued. The unread rest is moved to the front of the buffer, with `used` its length, unless the pass died. |
| `Client.Client.ReceivePortion` | client/main.c:76-112 | Status, remaining buffer, notes and `recv` count are those of `Rounds` on the buffer it started with. |
| `Client.Client.SendNext` | client/main.c:155-159 | The scheduled `send_portion(i)` is appended to the log as `Sent(i, Delivered(sendOk, i, 1000))`, the number of messages before the first failed `send`. The log still follows the results, the buffer is untouched, and a failed send ends the run. |
| `Client.Client.ReceiveNext` | client/main.c:158 | The scheduled `receive_portion(i)` is appended to the log with the status and answers `Rounds` reads from the buffer it started with and the next `recv` results; the buffer and the `recv` count become what `Rounds` leaves. A call that does not finish ends the run, unless it is `receive_portion(998)`. |
| `Client.Client.SendAhead` | client/main.c:159 | `send_portion(i + 2)` as in `SendNext`; a failed send ends the run with `send failed`. |
| `Client.Client.SendFirst` | client/main.c:155-156 | `send_portion(0)` and `send_portion(1)`: a log that follows the `send` results, which ends the run on a failed send and otherwise has two complete calls. |
| `Client.Client.Turn` | client/main.c:157-160 | One turn of the loop, ending the run or extending by two calls a log in which every call completed; the log still follows the results. |
| `Client.Client.Turns` | client/main.c:157-162 | The loop and the two final receives leave a log that `Ran` accepts and that follows the results. |
| `Client.Client.Finish` | client/main.c:161-165 | The last two receives, the second regardless of how the first ended, each with the outcome the results give it. |
| `Client.Client.LastReceive` | client/main.c:162 | `receive_portion(999)` with the outcome the results give it; its status decides the exit. |
| `Client.Client.Exchange` | client/main.c:155-165 | The whole schedule leaves a log that `Ran` accepts and that follows the `send` and `recv` results from the buffer and `recv` count it started with, so by `RunDetermined` it is the only such run. Messages and notes are those of the log. |
| `Client.Client.Run` | client/main.c:133-166 | The usage exit when the arguments are rejected. Otherwise, in this order: no socket, no host (`argv[1]` missing or not resolving, as the code looks up `argv[1]`), no connection, each with an empty log. Otherwise a run of the schedule that `Ran` accepts and that follows the `send` and `recv` results, whose messages and notes are those of its log. |
| `Protocol.ConcatTerminated` | client/main.c:70-73 | Sending CRLF-terminated lines one after the other sends their join. |
| `Protocol.RequestsAreNumerals` | client/main.c:71 | A request is the `%d` text of its number followed by CRLF. |
| `Protocol.RequestLines` | server/main.c:167-184 | The server splits a run of the client's requests into exactly their numerals, with nothing left over. |
| `Protocol.NumeralsParse` | server/main.c:178 | `sscanf` reads each numeral back as its number. |
| `Protocol.ServerAnswersRequests` | server/main.c:167-184 | When every send succeeds, a pass over a non-empty run of requests replies to each number, in order, with `is_fibonacci` of that number, and keeps nothing. |
| `Protocol.ReplyIsWord` | server/main.c:130-134 | The server's reply is the client's response word followed by CRLF. |
| `Protocol.ReplyLines` | client/main.c:92-107 | The client splits a run of replies into exactly their words. |
| `Protocol.ClientReadsReplies` | client/main.c:92-107 | With room for them, the client reads a non-empty run of replies back as exactly those answers and consumes every byte. |
| `Protocol.RoundTrip` | client/main.c:66-112 | For a run of requests of any length that one server scan answers, one client pass over the replies reads back the answer `is_fibonacci(first + j)` for the j-th number, and nothing is left. |

## Left out

- The server's `main` poll loop, `prepare_server`, and the calls to `socket`,
  `bind`, `listen`, `accept` and `poll`. They are I/O; the table operations
  take the results of these calls as parameters. The loop also uses an
  undefined `ONE_SECOND`.
- `show_stats_if_ready`: wall-clock time and `double` arithmetic. It also
  resets `messages_sent`, which the model only ever increments.
- Logging: `print_timestamp`, `vnote`, `note`. The text printed by `die` and
  the `Debug` / `Info` messages are not modelled; `die` is a fatal outcome.
  The client's `Output` notes are modelled as the sequence `reports` whatever
  the `verbose` flag, which only decides whether they are printed.
- Fibonacci.IsFibonacci: the floating-point `floor(sqrt(n))` in `is_square`
  is replaced by an exact integer square root, and `5 * n * n` is computed
  without overflow. The two agree on `Fibonacci.ExactRange` (5n^2+4 below
  2^53), which holds for every number the client sends
  (`Fibonacci.ClientNumbersExact`); outside it the model may answer
  differently from the C code.
- CStrings.ParseLong: the range of `sscanf("%ld")` is not modelled; it reads
  unbounded integers, and overflow of `long` is not described.
- Bytes containing NUL, at which `strstr`, `strcmp` and `sscanf` stop. On the
  server, `Server.Receivable` requires neither the buffered nor the received
  bytes to contain NUL. On the client, `Client.Honest` requires the same of
  the received bytes.
- Partial sends: a `send` either writes its whole message or fails (-1).
- `close(fd)` at the end of the client's `main`.
- The client's gethostbyname call is described by the `resolves` parameter,
  applied to `argv[1]` as the code does (`Client.HostAsWritten`); see
  Findings. When there is no `argv[1]`, the call `gethostbyname(NULL)` is
  modelled as a failed resolution.
- The client's NUL over each response terminator (client/main.c:96): the
  client's buffer is described up to `used` only, and those NULs lie before
  the unread bytes that are moved to the front.
- Protocol.RoundTrip: one server scan and one client pass over a run of any
  length. In the programs the client's 22-character buffer holds at most
  three replies, so a portion takes many passes; the model does not compose
  those passes, or the server's buffering across `recv` calls, into one
  exchange.
- Server.Server.AcceptNewClient: it requires `number_of_sockets` to be below
  the size of `data`. The C code has no check; past that size it writes out of
  bounds, which the model does not describe.
- Server.Server.ProcessNewData: it requires the received bytes to fit in the
  buffer before its final NUL (`Server.Receivable`). This is the capacity
  `recv` is asked for, `1023 - used`; the model does not derive it from a
  `recv` call.
- Server.Server.ProcessNewData and Server.Server.ServeBytes: `Receivable` also
  requires the buffered prefix `buffer[..used]` to hold no NUL. A slot the
  server itself closed can break this. When a terminator straddles the kept
  tail and the new bytes (tail `12\r`, then `\n`), the scan writes its NUL
  inside the old `used` bytes. If the pass then closes on an unknown line or
  a failed send, `used` stays as it was, and `buffer[..used]` ends in that
  NUL. The accept quirk above can hand such a slot to a new client, whose
  bytes C's `strstr` would stop at the NUL. The model does not describe
  serving that slot again.
- Client.Client.SendPortion: it requires `i * 1000 + 999` to fit in `int`
  (`Client.PortionInRange`). This covers every portion `main` sends; wrap-around
  is not modelled.
- Client.Rounds: `recv(t, m)` is required to return at most m bytes
  (`Client.Honest`), which is the capacity `21 - used` the code asks for.
- Client.Client.Run: `log` is a ghost record of the calls made. The exit
  status of `main` after a closed connection is 0, like a complete run
  (`Success`).

## Findings

| source | as written | input that shows it | evidently intended | confidence | as-written member | corrected member |
|---|---|---|---|---|---|---|
| client/main.c:142 | `main` resolves `argv[1]`, the first command-line argument, and never uses the `server_url` that `process_arguments` chose | `fibonacci-client -v localhost`: the options pick `localhost`, but `gethostbyname` is asked for `-v` | resolve `server_url`, the single positional argument, which `Client.Host` states (`Client.Client.Run` models the code as written and looks up `argv[1]`) | not executed | `Client.HostAsWrittenIgnoresUrl` | `Client.Host` |
