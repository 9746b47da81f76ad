/**
 * Motion detection over a frame directory (handle_motion.c).
 *
 * The input directory is modelled as the frames that load: a map from frame
 * index to the frame's grayscale buffer. The output directory is modelled as
 * the motion masks that were saved, keyed by frame index. Worker threads run
 * one after the other; their ranges are disjoint, so the order does not show
 * in the result.
 */
module HandleMotion {
  import opened Wrappers
  import opened CText
  import opened ImageUtils
  import opened Partition

  /** The fixed threshold process_frame_batch passes to apply_threshold. */
  const MotionThreshold: byte := 20

  /** A decoded frame, already converted to grayscale. */
  datatype Frame = Frame(width: nat, height: nat, gray: seq<byte>)

  /** Frames that load, by index. An index that is absent fails to load. */
  type Store = map<int, Frame>

  /** The saved motion masks, by frame index. */
  type Saved = map<int, seq<byte>>

  /**
   * What process_frame_batch needs of its input: every buffer holds
   * width * height pixels, and a frame and its predecessor have the same
   * size (the predecessor's size is the one used for the difference).
   */
  predicate Consistent(store: Store) {
    && (forall i | i in store :: |store[i].gray| == store[i].width * store[i].height)
    && (forall i, j | i in store && j in store && j == i + 1 ::
          store[i].width == store[j].width && store[i].height == store[j].height)
  }

  /** The mask saved for a frame: the thresholded difference from its predecessor. */
  function MotionMask(prev: Frame, cur: Frame): seq<byte>
    requires |prev.gray| == |cur.gray|
  {
    Threshold(Difference(prev.gray, cur.gray), MotionThreshold)
  }

  /**
   * The masks that processing the indices in `indices` saves: index i gets
   * one exactly when frame i and frame i - 1 both load.
   */
  function Masks(store: Store, indices: set<int>): Saved
    requires Consistent(store)
  {
    map i | i in indices && i in store && i - 1 in store :: MotionMask(store[i - 1], store[i])
  }

  /** load_jpeg followed by rgb_to_grayscale: a fresh buffer holding the frame's grayscale pixels. */
  method LoadGray(f: Frame) returns (gray: array<byte>)
    ensures fresh(gray) && gray[..] == f.gray
  {
    gray := new byte[|f.gray|](k requires 0 <= k < |f.gray| => f.gray[k]);
  }

  /** What process_frame_batch reports for one index. */
  datatype Event =
    | Skipped(index: int)       // the frame does not load: "Skipping..."
    | NoReference(index: int)   // the previous frame does not load: nothing is written
    | MaskWritten(index: int)   // the mask is saved

  /** The report for index i, decided by which of frames i and i - 1 load. */
  function EventFor(store: Store, i: int): (e: Event)
    ensures e.index == i
    ensures e.Skipped? <==> i !in store
    ensures e.MaskWritten? <==> i in store && i - 1 in store
  {
    if i !in store then Skipped(i)
    else if i - 1 !in store then NoReference(i)
    else MaskWritten(i)
  }

  /** The reports of a batch over [lo, hi], one per index, in increasing order of index. */
  function BatchLog(store: Store, lo: int, hi: int): (log: seq<Event>)
    ensures |log| == if hi < lo then 0 else hi - lo + 1
    ensures forall k :: 0 <= k < |log| ==> log[k] == EventFor(store, lo + k)
    decreases hi - lo
  {
    if hi < lo then [] else BatchLog(store, lo, hi - 1) + [EventFor(store, hi)]
  }

  /**
   * process_frame_batch: visits r.start, r.start + 1, ..., r.end; skips an
   * index whose frame does not load; saves nothing when the previous frame
   * does not load; otherwise saves the thresholded difference. The log lists
   * what it reports for each index, in the order it visits them.
   */
  method ProcessFrameBatch(store: Store, r: Range) returns (saved: Saved, log: seq<Event>)
    requires Consistent(store)
    ensures saved == Masks(store, Members(r))
    ensures log == BatchLog(store, r.start, r.end)
  {
    saved, log := map[], [];
    var i := r.start;
    while i <= r.end
      invariant r.start <= i <= if r.end < r.start then r.start else r.end + 1
      invariant saved == Masks(store, Span(r.start, i - 1))
      invariant log == BatchLog(store, r.start, i - 1)
    {
      MasksExtend(store, r.start, i);
      if i in store {
        var frame := store[i];
        var frameWidth, frameHeight := frame.width, frame.height;
        var grayFrame := LoadGray(frame);
        if i - 1 in store {
          var prevFrame := store[i - 1];
          frameWidth, frameHeight := prevFrame.width, prevFrame.height;
          var motion := CompareFrames(prevFrame, grayFrame, frameWidth, frameHeight);
          saved := saved[i := motion[..]];
          log := log + [MaskWritten(i)];
        } else {
          log := log + [NoReference(i)];
        }
      } else {
        log := log + [Skipped(i)];
      }
      i := i + 1;
    }
    assert Span(r.start, i - 1) == Members(r);
  }

  /** A batch's log reports a written mask for exactly the indices whose mask is saved. */
  lemma LogAgreesWithMasks(store: Store, lo: int, hi: int)
    requires Consistent(store)
    ensures forall k :: 0 <= k < |BatchLog(store, lo, hi)| ==>
              (BatchLog(store, lo, hi)[k].MaskWritten? <==> lo + k in Masks(store, Span(lo, hi)))
  {
  }

  /**
   * The branch of process_frame_batch taken when the previous frame loads:
   * its gray image, the difference with the current one and the threshold
   * at MotionThreshold, over the previous frame's dimensions. Gives the mask
   * that is saved.
   */
  method CompareFrames(prevFrame: Frame, grayFrame: array<byte>, frameWidth: int, frameHeight: int)
    returns (motion: array<byte>)
    requires frameWidth == prevFrame.width && frameHeight == prevFrame.height
    requires |prevFrame.gray| == prevFrame.width * prevFrame.height == grayFrame.Length
    ensures motion[..] == Threshold(Difference(prevFrame.gray, old(grayFrame[..])), MotionThreshold)
    ensures grayFrame[..] == old(grayFrame[..])
  {
    var prevGray := LoadGray(prevFrame);
    var n := frameWidth * frameHeight;
    assert PixelCount(frameWidth, frameHeight) == n;
    var diff := new byte[n];
    ComputeDifference(prevGray, grayFrame, diff, frameWidth, frameHeight);
    assert diff[..] == Difference(prevFrame.gray, grayFrame[..]) by {
      assert diff[..] == diff[..n];
      assert prevGray[..n] == prevFrame.gray && grayFrame[..n] == grayFrame[..];
    }
    motion := new byte[n];
    ApplyThreshold(diff, motion, frameWidth, frameHeight, MotionThreshold);
    assert motion[..] == motion[..n] && diff[..n] == diff[..];
  }

  /** Taking one more index into a span adds its mask when it has one. */
  lemma MasksExtend(store: Store, lo: int, i: int)
    requires Consistent(store) && lo <= i
    ensures Masks(store, Span(lo, i))
         == if i in store && i - 1 in store
            then Masks(store, Span(lo, i - 1))[i := MotionMask(store[i - 1], store[i])]
            else Masks(store, Span(lo, i - 1))
  {
  }

  /** The masks of two index sets together are the masks of their union. */
  lemma MasksUnion(store: Store, a: set<int>, b: set<int>)
    requires Consistent(store)
    ensures Masks(store, a) + Masks(store, b) == Masks(store, a + b)
  {
    var m1, m2, m := Masks(store, a), Masks(store, b), Masks(store, a + b);
    assert (m1 + m2).Keys == m.Keys;
    forall i | i in m
      ensures (m1 + m2)[i] == m[i]
    {
    }
  }

  /**
   * process_frames_with_threads: splits [startFrame, totalFrames - 1] among
   * numThreads workers (numThreads >= 1, which get_cpu_cores guarantees) and
   * runs each worker's batch. The result is the masks of the whole range,
   * whatever numThreads is.
   */
  method ProcessFramesWithThreads(store: Store, totalFrames: int, startFrame: int, numThreads: int)
    returns (saved: Saved)
    requires numThreads >= 1
    requires Consistent(store)
    ensures saved == Masks(store, Span(startFrame, totalFrames - 1))
  {
    var ranges := AssignRanges(totalFrames, startFrame, numThreads);
    saved := map[];
    var i := 0;
    while i < numThreads
      invariant 0 <= i <= numThreads
      invariant forall k :: 0 <= k < numThreads ==> ranges[k] == ThreadRange(totalFrames, startFrame, numThreads, k)
      invariant saved == Masks(store, CoveredUpTo(totalFrames, startFrame, numThreads, i))
    {
      var batch, _ := ProcessFrameBatch(store, ranges[i]);
      MasksOfNextThread(store, totalFrames, startFrame, numThreads, i, saved, batch);
      saved := saved + batch;
      i := i + 1;
    }
    MasksOfAllThreads(store, totalFrames, startFrame, numThreads);
  }

  /** Adding thread i's masks to those of threads 0 .. i-1 gives those of threads 0 .. i. */
  lemma MasksOfNextThread(store: Store, totalFrames: int, startFrame: int, numThreads: int, i: nat,
                          before: Saved, batch: Saved)
    requires Consistent(store) && i < numThreads
    requires before == Masks(store, CoveredUpTo(totalFrames, startFrame, numThreads, i))
    requires batch == Masks(store, Members(ThreadRange(totalFrames, startFrame, numThreads, i)))
    ensures before + batch == Masks(store, CoveredUpTo(totalFrames, startFrame, numThreads, i + 1))
  {
    MasksUnion(store, CoveredUpTo(totalFrames, startFrame, numThreads, i),
               Members(ThreadRange(totalFrames, startFrame, numThreads, i)));
  }

  /** The masks of all threads' ranges are the masks of [startFrame, totalFrames - 1]. */
  lemma MasksOfAllThreads(store: Store, totalFrames: int, startFrame: int, numThreads: int)
    requires Consistent(store) && numThreads >= 1
    ensures Masks(store, CoveredUpTo(totalFrames, startFrame, numThreads, numThreads))
         == Masks(store, Span(startFrame, totalFrames - 1))
  {
    PartitionCovers(totalFrames, startFrame, numThreads);
  }

  /** Frame 0 has no predecessor among frames numbered from 0, so it never gets a mask. */
  lemma FirstFrameHasNoMask(store: Store, indices: set<int>)
    requires Consistent(store)
    requires forall i | i in store :: i >= 0
    ensures 0 !in Masks(store, indices)
  {
  }

  /** A frame that does not load loses its own mask and its successor's. */
  lemma MissingFrameLosesTwoMasks(store: Store, indices: set<int>, k: int)
    requires Consistent(store) && k !in store
    ensures k !in Masks(store, indices) && k + 1 !in Masks(store, indices)
  {
  }

  /** Every saved mask is binary and has its frame's pixel count. */
  lemma MasksAreBinary(store: Store, indices: set<int>, i: int)
    requires Consistent(store) && i in Masks(store, indices)
    ensures |Masks(store, indices)[i]| == store[i].width * store[i].height
    ensures forall p :: 0 <= p < |Masks(store, indices)[i]| ==>
              Masks(store, indices)[i][p] == 0 || Masks(store, indices)[i][p] == 255
  {
    ThresholdIsBinary(Difference(store[i - 1].gray, store[i].gray), MotionThreshold);
  }

  /**
   * Ten frames that all load, processed from 0: masks for exactly 1..9, on one
   * thread or on four.
   */
  lemma TenFramesGiveNineMasks(store: Store)
    requires Consistent(store)
    requires store.Keys == Span(0, 9)
    ensures Masks(store, Span(0, 9)).Keys == Span(1, 9)
  {
  }

  /** Five frames with frame 3 missing: masks for 1 and 2 only. */
  lemma MissingFrameThreeOfFive(store: Store)
    requires Consistent(store)
    requires store.Keys == {0, 1, 2, 4}
    ensures Masks(store, Span(0, 4)).Keys == {1, 2}
  {
  }

  /** The file name of frame i: `frame_<i>.jpg`. */
  function FrameName(i: int): string {
    "frame_" + IntToDec(i) + ".jpg"
  }

  /**
   * The regular expression ^frame_[0-9]+\.jpg$ of count_frames_in_directory:
   * "frame_", one or more digits, ".jpg", nothing else.
   */
  predicate IsFrameName(name: string) {
    && |name| >= 11
    && name[..6] == "frame_"
    && name[|name| - 4..] == ".jpg"
    && AllDigits(name[6..|name| - 4])
  }

  /** frame_<i>.jpg matches the pattern exactly when i >= 0 (a minus sign is not a digit). */
  lemma FrameNameMatches(i: int)
    ensures IsFrameName(FrameName(i)) <==> i >= 0
  {
    var d := IntToDec(i);
    var name := FrameName(i);
    assert name[..6] == "frame_";
    assert name[6..|name| - 4] == d;
    assert name[|name| - 4..] == ".jpg";
  }

  /**
   * The path snprintf builds for frame i of dir: `<dir>/frame_<i>.jpg`, cut to
   * the 255 characters a 256-byte buffer holds.
   */
  function FramePath(dir: string, i: int): string {
    Truncate(dir + "/" + FrameName(i), 255)
  }

  /** While a path is not cut, different frames have different paths. */
  lemma FramePathInjective(dir: string, i: int, j: int)
    requires |dir + "/" + FrameName(i)| <= 255 && |dir + "/" + FrameName(j)| <= 255
    requires FramePath(dir, i) == FramePath(dir, j)
    ensures i == j
  {
    var p, q := dir + "/" + FrameName(i), dir + "/" + FrameName(j);
    var di, dj := IntToDec(i), IntToDec(j);
    assert p == (dir + "/frame_") + di + ".jpg";
    assert q == (dir + "/frame_") + dj + ".jpg";
    var k := |dir + "/frame_"|;
    assert p[k..|p| - 4] == di;
    assert q[k..|q| - 4] == dj;
    IntToDecInjective(i, j);
  }

  /** The indices of the entries of a listing whose names match the frame pattern. */
  function MatchingEntries(names: seq<string>, upTo: int): set<int>
    requires 0 <= upTo <= |names|
  {
    set k | 0 <= k < upTo && IsFrameName(names[k])
  }

  /**
   * What count_frames_in_directory returns for a listing (None: the directory
   * does not open) and whether the pattern compiles.
   */
  function FrameCount(listing: Option<seq<string>>, patternCompiles: bool): (count: int)
    ensures count >= -1
    ensures count == -1 <==> listing.None? || !patternCompiles
  {
    if listing.None? || !patternCompiles then -1 else |MatchingEntries(listing.value, |listing.value|)|
  }

  /**
   * count_frames_in_directory: -1 when the directory cannot be opened or the
   * pattern does not compile; otherwise it counts the matching entries one
   * directory entry at a time.
   */
  method CountFramesInDirectory(listing: Option<seq<string>>, patternCompiles: bool) returns (count: int)
    ensures count == FrameCount(listing, patternCompiles)
  {
    if listing.None? {
      return -1;
    }
    if !patternCompiles {
      return -1;
    }
    var names := listing.value;
    count := 0;
    var k := 0;
    while k < |names|
      invariant 0 <= k <= |names|
      invariant count == |MatchingEntries(names, k)|
    {
      if IsFrameName(names[k]) {
        assert MatchingEntries(names, k + 1) == MatchingEntries(names, k) + {k};
        count := count + 1;
      } else {
        assert MatchingEntries(names, k + 1) == MatchingEntries(names, k);
      }
      k := k + 1;
    }
  }
}
