/**
 * The driver logic of main.c: server mode splits the counted frames between
 * the coordinator and a helper process that runs client mode on the same host;
 * option 2 processes the whole directory in one process; and the accept rules
 * of the interactive prompts.
 */
module ServerMode {
  import opened Wrappers
  import opened CText
  import opened Partition
  import opened HandleMotion
  import opened NetworkUtils

  /** half_frames = total_frames / 2: the coordinator keeps the smaller half. */
  function SplitPoint(totalFrames: int): (half: int)
    requires totalFrames > 0
    ensures 0 <= half && 2 * half <= totalFrames <= 2 * half + 1
  {
    TruncDiv(totalFrames, 2)
  }

  /** The coordinator's range [0, half - 1] and the helper's [half, total - 1] split [0, total - 1]. */
  lemma SplitCoversAll(totalFrames: int)
    requires totalFrames > 0
    ensures Span(0, SplitPoint(totalFrames) - 1) !! Span(SplitPoint(totalFrames), totalFrames - 1)
    ensures Span(0, SplitPoint(totalFrames) - 1) + Span(SplitPoint(totalFrames), totalFrames - 1)
         == Span(0, totalFrames - 1)
  {
    SpanJoin(0, SplitPoint(totalFrames), totalFrames - 1);
  }

  /** The masks of the two halves together are the masks of every frame. */
  lemma SplitMasksAll(store: Store, totalFrames: int)
    requires Consistent(store) && totalFrames > 0
    ensures Masks(store, Span(0, SplitPoint(totalFrames) - 1))
          + Masks(store, Span(SplitPoint(totalFrames), totalFrames - 1))
         == Masks(store, Span(0, totalFrames - 1))
  {
    var half := SplitPoint(totalFrames);
    SplitCoversAll(totalFrames);
    MasksUnion(store, Span(0, half - 1), Span(half, totalFrames - 1));
  }

  /** Ten frames: the coordinator takes [0, 4] and asks the helper for [5, 9]. */
  lemma TenFramesSplit()
    ensures SplitPoint(10) == 5
    ensures RequestText(Task("frames", "motion", 5, 9)) == "PROCESS frames motion 5 9"
  {
    assert IntToDec(5) == "5" && IntToDec(9) == "9";
  }

  datatype ModeOutcome =
    | NoFrames
    | Ran(local: Saved, server: ServerOutcome)

  /**
   * start_server_mode: with no frames counted (0, or -1 for a directory that
   * does not open) it only reports the error; otherwise it processes
   * [0, half - 1] itself (total half, start 0) and then runs start_server,
   * as written, for [half, total - 1].
   */
  method StartServerMode(store: Store, listing: Option<seq<string>>, patternCompiles: bool, numThreads: int,
                         input: string, output: string, setup: Setup, reply: ReadOutcome)
    returns (outcome: ModeOutcome)
    requires numThreads >= 1 && Consistent(store)
    ensures outcome.NoFrames? <==> FrameCount(listing, patternCompiles) <= 0
    ensures outcome.Ran? ==>
              var total := FrameCount(listing, patternCompiles);
              && outcome.local == Masks(store, Span(0, SplitPoint(total) - 1))
              && outcome.server == StartServerAsWritten(input, output, SplitPoint(total), total - 1, setup, reply)
  {
    var totalFrames := CountFramesInDirectory(listing, patternCompiles);
    if totalFrames <= 0 {
      return NoFrames;
    }
    var halfFrames := totalFrames / 2;
    assert halfFrames == SplitPoint(totalFrames);
    var local := ProcessFramesWithThreads(store, halfFrames, 0, numThreads);
    var server := StartServerAsWritten(input, output, halfFrames, totalFrames - 1, setup, reply);
    return Ran(local, server);
  }

  /**
   * The whole coordinator/helper run. The helper connects to 127.0.0.1, so it
   * runs on the same host and reads the same frame directory: one store serves
   * both. When the coordinator's setup succeeds (with socket() returning a
   * descriptor above 0, which the as-written test needs) and the
   * helper's first entry that ends its loop is a `connect` whose session
   * receives the coordinator's request, the helper processes exactly
   * [half, total - 1], the two halves together are the masks of every frame,
   * and the helper's COMPLETED is taken as success.
   */
  lemma TwoNodeSession(store: Store, input: string, output: string, totalFrames: int, setup: Setup,
                       script: seq<Entry>, k: int, uninit: Task)
    requires Consistent(store) && totalFrames > 0
    requires IsWord(input) && IsWord(output)
    requires |RequestText(Task(input, output, SplitPoint(totalFrames), totalFrames - 1))| <= BufferSize - 1
    requires setup.socketFd > 0 && setup.optionsSet && setup.bound && setup.listening && setup.clientFd >= 0
    requires 0 <= k < |script| && forall j :: 0 <= j < k ==> !Decisive(script[j])
    requires script[k] == Entry("connect", Connected(Received(
               StartServerAsWritten(input, output, SplitPoint(totalFrames), totalFrames - 1, setup, ReadError).sent)))
    ensures var half := SplitPoint(totalFrames);
            var helper := ClientRun(script, store, uninit);
            && helper == Served(Task(input, output, half, totalFrames - 1),
                                Masks(store, Span(half, totalFrames - 1)), CompletedToken)
            && Masks(store, Span(0, half - 1)) + helper.saved == Masks(store, Span(0, totalFrames - 1))
            && StartServerAsWritten(input, output, half, totalFrames - 1, setup, Received(helper.ack)).ack == Acknowledged
  {
    var half := SplitPoint(totalFrames);
    var task := Task(input, output, half, totalFrames - 1);
    var msg := FormatRequest(task);
    RequestRoundTrip(task);
    assert |msg| > 0 by {
      assert msg == RequestText(task);
      assert |RequestText(task)| >= |RequestKeyword|;
    }
    assert Decisive(script[k]);
    FirstDecisiveEntrySettles(script, store, uninit, k);
    assert Resolve(ScanRequest(CString(msg)), uninit) == task;
    SplitMasksAll(store, totalFrames);
    AcknowledgmentRecognised(CompletedToken);
  }

  /**
   * Option 2 of the menu: the count goes to the partitioner unchecked, with
   * start 0, so all of [0, count - 1] is processed; a count of -1 gives an
   * empty range and nothing is written.
   */
  method DetectMotion(store: Store, listing: Option<seq<string>>, patternCompiles: bool, numThreads: int)
    returns (saved: Saved)
    requires numThreads >= 1 && Consistent(store)
    ensures saved == Masks(store, Span(0, FrameCount(listing, patternCompiles) - 1))
    ensures FrameCount(listing, patternCompiles) == -1 ==> saved == map[]
  {
    var totalFrames := CountFramesInDirectory(listing, patternCompiles);
    saved := ProcessFramesWithThreads(store, totalFrames, 0, numThreads);
    assert totalFrames == -1 ==> Span(0, totalFrames - 1) == {};
  }

  /**
   * One answer to prompt_positive_int: `home` returns 0, a token whose %d
   * conversion succeeds with a value above 0 returns that value, and anything
   * else (None) makes it ask again.
   */
  function PositiveIntReply(token: string): (r: Option<int>)
    ensures r == Some(0) <==> token == "home"
    ensures r.Some? && token != "home" ==> ScanInt(token).Some? && r.value == ScanInt(token).value.0 > 0
    ensures r.None? <==> token != "home" && (ScanInt(token).None? || ScanInt(token).value.0 <= 0)
  {
    if token == "home" then Some(0)
    else
      match ScanInt(token)
      case Some((value, _)) => if value > 0 then Some(value) else None
      case None => None
  }

  /** A number as printf writes it is accepted exactly when it is positive. */
  lemma PositiveIntOfDec(n: int)
    ensures PositiveIntReply(IntToDec(n)) == if n > 0 then Some(n) else None
  {
    ScanIntOfDec(n, []);
    assert IntToDec(n) + [] == IntToDec(n);
    var d := IntToDec(n);
    if n >= 0 {
      assert d == NatToDec(n) && IsDigit(d[0]);
    }
    assert d[0] != "home"[0];
  }

  /**
   * One answer to prompt_resolution: `home` returns 0 (Some(false)), a token
   * containing an `x` is accepted (Some(true)), and anything else makes it
   * ask again.
   */
  function ResolutionReply(token: string): (r: Option<bool>)
    ensures r == Some(false) <==> token == "home"
    ensures r == Some(true) <==> token != "home" && 'x' in token
    ensures r.None? <==> token != "home" && 'x' !in token
  {
    if token == "home" then Some(false)
    else if 'x' in token then Some(true)
    else None
  }

  /** The result of stat on a path, and whether mkdir succeeds when it is missing. */
  datatype PathStatus = IsDirectory | NotDirectory | Missing(mkdirSucceeds: bool)

  /**
   * validate_or_create_directory: 0 for `home`, 1 for an existing directory
   * or one it creates, -1 for a path that is not a directory or that mkdir
   * cannot create.
   */
  function ValidateOrCreateDirectory(name: string, status: PathStatus): (r: int)
    ensures r == 0 <==> name == "home"
    ensures r == 1 <==> name != "home" && (status.IsDirectory? || status == Missing(true))
    ensures r == -1 <==> name != "home" && (status.NotDirectory? || status == Missing(false))
  {
    if name == "home" then 0
    else if status.NotDirectory? then -1
    else if status.Missing? && !status.mkdirSucceeds then -1
    else 1
  }
}
