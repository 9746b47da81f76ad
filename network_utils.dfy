/**
 * The two-node protocol of network_utils.c. The coordinator (start_server)
 * sends one request `PROCESS <in> <out> <start> <end>` and reads one reply;
 * the helper (start_client) prompts its operator until a session succeeds,
 * processes the frames it is given and answers `COMPLETED`.
 *
 * Sockets are not modelled: each socket call appears as its outcome, and a
 * read as the bytes it returned.
 */
module NetworkUtils {
  import opened Wrappers
  import opened CText
  import opened Partition
  import opened HandleMotion

  /** The size of the request and reply buffers. */
  const BufferSize := 1024
  /** The helper's acknowledgment. */
  const CompletedToken := "COMPLETED"
  /** The word that starts every request. */
  const RequestKeyword := "PROCESS"

  /** What the coordinator hands over: two directories and a closed frame range. */
  datatype Task = Task(input: string, output: string, start: int, end: int)

  /** The request before snprintf's cut. */
  function RequestText(t: Task): string {
    RequestKeyword + " " + t.input + " " + t.output + " " + IntToDec(t.start) + " " + IntToDec(t.end)
  }

  /** The request snprintf leaves in the 1024-byte buffer: at most 1023 characters of RequestText. */
  function FormatRequest(t: Task): (msg: string)
    ensures |msg| <= BufferSize - 1
    ensures |msg| <= |RequestText(t)| && msg == RequestText(t)[..|msg|]
    ensures |RequestText(t)| <= BufferSize - 1 ==> msg == RequestText(t)
  {
    Truncate(RequestText(t), BufferSize - 1)
  }

  /** The fields sscanf assigned, in order; it stops at the first one that fails. */
  datatype Scanned = Scanned(input: Option<string>, output: Option<string>, start: Option<int>, end: Option<int>)

  /** sscanf(buf, "PROCESS %s %s %d %d", ...) on the C string buf. */
  function ScanRequest(buf: string): (sc: Scanned)
    ensures sc.output.Some? ==> sc.input.Some?
    ensures sc.start.Some? ==> sc.output.Some?
    ensures sc.end.Some? ==> sc.start.Some?
  {
    if |buf| >= |RequestKeyword| && buf[..|RequestKeyword|] == RequestKeyword then ScanFields(buf[|RequestKeyword|..])
    else Scanned(None, None, None, None)
  }

  /** The four conversions after the literal PROCESS, each reading on from where the last stopped. */
  function ScanFields(r0: string): (sc: Scanned)
    ensures sc.output.Some? ==> sc.input.Some?
    ensures sc.start.Some? ==> sc.output.Some?
    ensures sc.end.Some? ==> sc.start.Some?
  {
    match ScanToken(r0)
    case None => Scanned(None, None, None, None)
    case Some((input, r1)) =>
      match ScanToken(r1)
      case None => Scanned(Some(input), None, None, None)
      case Some((output, r2)) =>
        match ScanInt(r2)
        case None => Scanned(Some(input), Some(output), None, None)
        case Some((start, r3)) =>
          match ScanInt(r3)
          case None => Scanned(Some(input), Some(output), Some(start), None)
          case Some((end, _)) => Scanned(Some(input), Some(output), Some(start), Some(end))
  }

  /**
   * The task the helper goes on to process: the fields sscanf assigned, and
   * for each one it did not assign, whatever the uninitialised variable held
   * (given here as `uninit`; the helper does not check sscanf's result).
   */
  function Resolve(sc: Scanned, uninit: Task): Task {
    Task(if sc.input.Some? then sc.input.value else uninit.input,
         if sc.output.Some? then sc.output.value else uninit.output,
         if sc.start.Some? then sc.start.value else uninit.start,
         if sc.end.Some? then sc.end.value else uninit.end)
  }

  /**
   * The request reads back as the task it was made from when both paths are
   * words (non-empty, no white space, no NUL) and the text fits the buffer;
   * it is also its own C string, so the helper sees all of it.
   */
  lemma RequestRoundTrip(t: Task)
    requires IsWord(t.input) && IsWord(t.output)
    requires |RequestText(t)| <= BufferSize - 1
    ensures CString(FormatRequest(t)) == FormatRequest(t)
    ensures ScanRequest(FormatRequest(t)) == Scanned(Some(t.input), Some(t.output), Some(t.start), Some(t.end))
    ensures forall uninit :: Resolve(ScanRequest(FormatRequest(t)), uninit) == t
  {
    var ds, de := IntToDec(t.start), IntToDec(t.end);
    var tail4 := " " + de;
    var tail3 := " " + ds + tail4;
    var tail2 := " " + t.output + tail3;
    var tail1 := " " + t.input + tail2;
    var msg := FormatRequest(t);
    assert msg == RequestKeyword + tail1;
    ScanTokenAfterBlank(t.input, tail2, tail1);
    ScanTokenAfterBlank(t.output, tail3, tail2);
    ScanIntAfterBlank(t.start, tail4, tail3);
    ScanIntAtEnd(t.end, tail4);
    ScanRequestOfFields(msg, tail1, t, tail2, tail3, tail4, []);
    NoNulInRequest(t);
  }

  /** sscanf assigns all four fields when each conversion finds its field in turn. */
  lemma ScanRequestOfFields(buf: string, r0: string, t: Task, r1: string, r2: string, r3: string, r4: string)
    requires buf == RequestKeyword + r0
    requires ScanToken(r0) == Some((t.input, r1))
    requires ScanToken(r1) == Some((t.output, r2))
    requires ScanInt(r2) == Some((t.start, r3))
    requires ScanInt(r3) == Some((t.end, r4))
    ensures ScanRequest(buf) == Scanned(Some(t.input), Some(t.output), Some(t.start), Some(t.end))
  {
    assert buf[..|RequestKeyword|] == RequestKeyword && buf[|RequestKeyword|..] == r0;
  }

  lemma NoNulInRequest(t: Task)
    requires IsWord(t.input) && IsWord(t.output)
    ensures forall i :: 0 <= i < |RequestText(t)| ==> RequestText(t)[i] != '\0'
    ensures CString(FormatRequest(t)) == FormatRequest(t)
  {
    var msg := FormatRequest(t);
    var c := CString(msg);
    if |c| < |msg| {
      assert msg[|c|] == RequestText(t)[|c|];
    }
  }

  /** The outcome of the read that waits for a message. */
  datatype ReadOutcome = ReadError | Received(data: string)

  /** read() returned more than 0 bytes. */
  predicate ReadSucceeded(r: ReadOutcome) {
    r.Received? && |r.data| > 0
  }

  /** How the coordinator takes the helper's reply. */
  datatype Ack = Acknowledged | Unexpected(text: string) | NoReply

  /**
   * A reply of at least one byte whose C string is COMPLETED is success; any
   * other reply of at least one byte is unexpected (logged, not retried);
   * a read of 0 bytes or an error is a failure.
   */
  function ClassifyReply(reply: ReadOutcome): Ack {
    if !ReadSucceeded(reply) then NoReply
    else if CString(reply.data) == CompletedToken then Acknowledged
    else Unexpected(CString(reply.data))
  }

  /**
   * The helper's acknowledgment is recognised, as is anything that carries
   * the same C string (bytes after a NUL are ignored by strcmp); anything else
   * that arrives is not.
   */
  lemma AcknowledgmentRecognised(data: string)
    requires |data| > 0
    ensures ClassifyReply(Received(data)) == Acknowledged <==> CString(data) == CompletedToken
    ensures ClassifyReply(Received(CompletedToken)) == Acknowledged
    ensures ClassifyReply(Received(CompletedToken + "\0" + data)) == Acknowledged
  {
    CStringOfPlain(CompletedToken);
    CStringStopsAtNul(CompletedToken, data);
  }

  /** The three ways a reply is taken are exclusive, and an unexpected reply is logged as the C string it carried. */
  lemma ReplyClasses(reply: ReadOutcome)
    ensures ClassifyReply(reply) == NoReply <==> !ReadSucceeded(reply)
    ensures ClassifyReply(reply) == Acknowledged <==> ReadSucceeded(reply) && CString(reply.data) == CompletedToken
    ensures ClassifyReply(reply).Unexpected? <==> ReadSucceeded(reply) && CString(reply.data) != CompletedToken
    ensures ClassifyReply(reply).Unexpected? ==> ClassifyReply(reply).text == CString(reply.data) != CompletedToken
  {
  }

  lemma CStringOfPlain(s: string)
    requires forall i :: 0 <= i < |s| ==> s[i] != '\0'
    ensures CString(s) == s
  {
  }

  lemma CStringStopsAtNul(s: string, rest: string)
    requires forall i :: 0 <= i < |s| ==> s[i] != '\0'
    ensures CString(s + "\0" + rest) == s
  {
    var buf := s + "\0" + rest;
    assert buf[..|s|] == s;
    assert buf[|s|] == '\0';
  }

  /** The socket calls start_server makes before it sends the request. */
  datatype Setup = Setup(socketFd: int, optionsSet: bool, bound: bool, listening: bool, clientFd: int)

  /** The step at which start_server gave up and exited the program. */
  datatype Step = SocketStep | OptionsStep | BindStep | ListenStep | AcceptStep

  datatype ServerOutcome = Exited(at: Step) | Finished(sent: string, ack: Ack)

  /**
   * start_server as written: socket() is taken to have failed only when it
   * returns 0, so a failed socket() (-1) goes on to setsockopt, which fails on
   * the bad descriptor, and the program exits reporting the options step.
   */
  function StartServerAsWritten(input: string, output: string, startFrame: int, endFrame: int,
                                setup: Setup, reply: ReadOutcome): (r: ServerOutcome)
    ensures setup.socketFd == 0 ==> r == Exited(SocketStep)
    ensures setup.socketFd < 0 ==> r == Exited(OptionsStep)
    ensures setup.socketFd > 0 ==> r == StartServer(input, output, startFrame, endFrame, setup, reply)
  {
    if setup.socketFd == 0 then Exited(SocketStep)
    else if setup.socketFd < 0 || !setup.optionsSet then Exited(OptionsStep)
    else if !setup.bound then Exited(BindStep)
    else if !setup.listening then Exited(ListenStep)
    else if setup.clientFd < 0 then Exited(AcceptStep)
    else Finished(FormatRequest(Task(input, output, startFrame, endFrame)), ClassifyReply(reply))
  }

  /** A socket() that fails returns -1, which the as-written test lets through. */
  lemma SocketFailureMisreported(input: string, output: string, startFrame: int, endFrame: int, reply: ReadOutcome)
    ensures StartServerAsWritten(input, output, startFrame, endFrame, Setup(-1, true, true, true, 4), reply)
         == Exited(OptionsStep)
    ensures StartServer(input, output, startFrame, endFrame, Setup(-1, true, true, true, 4), reply)
         == Exited(SocketStep)
  {
  }

  /**
   * start_server with the socket test as intended (a negative descriptor is a
   * failure): any failing setup step ends the program at that step, with no
   * retry; otherwise the request for [startFrame, endFrame] is sent and the
   * reply is classified.
   */
  function StartServer(input: string, output: string, startFrame: int, endFrame: int,
                       setup: Setup, reply: ReadOutcome): (r: ServerOutcome)
    ensures r == Exited(SocketStep) <==> setup.socketFd < 0
    ensures r.Finished? <==> setup.socketFd >= 0 && setup.optionsSet && setup.bound && setup.listening && setup.clientFd >= 0
    ensures r.Finished? ==>
              r.sent == FormatRequest(Task(input, output, startFrame, endFrame)) && r.ack == ClassifyReply(reply)
  {
    if setup.socketFd < 0 then Exited(SocketStep)
    else if !setup.optionsSet then Exited(OptionsStep)
    else if !setup.bound then Exited(BindStep)
    else if !setup.listening then Exited(ListenStep)
    else if setup.clientFd < 0 then Exited(AcceptStep)
    else Finished(FormatRequest(Task(input, output, startFrame, endFrame)), ClassifyReply(reply))
  }

  /** The outcome of one connection attempt after the operator typed `connect`. */
  datatype Attempt = SocketFailed | AddressRejected | ConnectFailed | Connected(request: ReadOutcome)

  /** One pass of start_client's loop: what the operator typed, and what the attempt led to. */
  datatype Entry = Entry(token: string, attempt: Attempt)

  datatype ClientOutcome =
    | WentHome
    | Served(task: Task, saved: Saved, ack: string)
    | InputEnded  // the script ran out: stands for the source's loop prompting forever

  /** A connection that got a request of at least one byte. */
  predicate SessionOpens(a: Attempt) {
    a.Connected? && ReadSucceeded(a.request)
  }

  /** An entry that ends the loop: `home`, or `connect` followed by a session that opens. */
  predicate Decisive(e: Entry) {
    e.token == "home" || (e.token == "connect" && SessionOpens(e.attempt))
  }

  /** What a decisive entry ends with: home, or the processed task and the acknowledgment. */
  function Settle(e: Entry, store: Store, uninit: Task): ClientOutcome
    requires Decisive(e) && Consistent(store)
  {
    if e.token == "home" then WentHome
    else
      var task := Resolve(ScanRequest(CString(e.attempt.request.data)), uninit);
      Served(task, Masks(store, Span(task.start, task.end)), CompletedToken)
  }

  /** start_client over a script of operator input and network outcomes. */
  function ClientRun(script: seq<Entry>, store: Store, uninit: Task): ClientOutcome
    requires Consistent(store)
    decreases |script|
  {
    if script == [] then InputEnded
    else if Decisive(script[0]) then Settle(script[0], store, uninit)
    else ClientRun(script[1..], store, uninit)
  }

  /**
   * start_client: prompts until `home` (return without connecting) or a
   * session that opens; any other token re-prompts, and a socket, address,
   * connect or read failure goes back to the prompt. A session parses the
   * request, processes [start, end] (total end + 1 from start) and answers
   * COMPLETED, which ends the loop.
   */
  method StartClient(script: seq<Entry>, store: Store, numThreads: int, uninit: Task) returns (outcome: ClientOutcome)
    requires numThreads >= 1 && Consistent(store)
    ensures outcome == ClientRun(script, store, uninit)
  {
    var k := 0;
    while k < |script|
      invariant 0 <= k <= |script|
      invariant ClientRun(script[k..], store, uninit) == ClientRun(script, store, uninit)
    {
      assert script[k..][1..] == script[k + 1..];
      var entry := script[k];
      k := k + 1;
      if entry.token == "home" {
        return WentHome;
      } else if entry.token != "connect" {
        continue;  // invalid input: prompt again
      }
      match entry.attempt {
        case SocketFailed =>
          continue;
        case AddressRejected =>
          continue;
        case ConnectFailed =>
          continue;
        case Connected(request) =>
          if !ReadSucceeded(request) {
            continue;
          }
          var task := Resolve(ScanRequest(CString(request.data)), uninit);
          var saved := ProcessFramesWithThreads(store, task.end + 1, task.start, numThreads);
          var ack := CompletedToken;
          return Served(task, saved, ack);
      }
    }
    return InputEnded;
  }

  /**
   * The loop's outcome is settled by the first entry that is `home` or a
   * session that opens; every entry before it (an invalid token or a failed
   * attempt) just goes back to the prompt.
   */
  lemma {:induction false} FirstDecisiveEntrySettles(script: seq<Entry>, store: Store, uninit: Task, k: int)
    requires Consistent(store)
    requires 0 <= k < |script| && Decisive(script[k])
    requires forall j :: 0 <= j < k ==> !Decisive(script[j])
    ensures ClientRun(script, store, uninit) == Settle(script[k], store, uninit)
    decreases k
  {
    if k > 0 {
      FirstDecisiveEntrySettles(script[1..], store, uninit, k - 1);
    }
  }

  /** Without `home` or a session that opens the loop never ends (here: runs out of input). */
  lemma {:induction false} NoDecisiveEntryNeverEnds(script: seq<Entry>, store: Store, uninit: Task)
    requires Consistent(store)
    requires forall j :: 0 <= j < |script| ==> !Decisive(script[j])
    ensures ClientRun(script, store, uninit) == InputEnded
    decreases |script|
  {
    if script != [] {
      NoDecisiveEntryNeverEnds(script[1..], store, uninit);
    }
  }

  /**
   * A served session processes exactly [start, end] of the task it parsed,
   * and its acknowledgment is the one the coordinator recognises.
   */
  lemma ServedSessionAcknowledges(script: seq<Entry>, store: Store, uninit: Task)
    requires Consistent(store)
    requires ClientRun(script, store, uninit).Served?
    ensures var o := ClientRun(script, store, uninit);
            o.ack == CompletedToken
            && o.saved == Masks(store, Span(o.task.start, o.task.end))
            && ClassifyReply(Received(o.ack)) == Acknowledged
  {
    AcknowledgmentRecognised(CompletedToken);
    ServedShape(script, store, uninit);
  }

  lemma {:induction false} ServedShape(script: seq<Entry>, store: Store, uninit: Task)
    requires Consistent(store)
    requires ClientRun(script, store, uninit).Served?
    ensures var o := ClientRun(script, store, uninit);
            o.ack == CompletedToken && o.saved == Masks(store, Span(o.task.start, o.task.end))
    decreases |script|
  {
    if !Decisive(script[0]) {
      ServedShape(script[1..], store, uninit);
    }
  }
}
