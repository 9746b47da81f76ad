/**
 * The work split of process_frames_with_threads (handle_motion.c): the
 * frames [startFrame, totalFrames - 1] are cut into numThreads contiguous
 * ranges of framesPerThread frames each, the last range running on to
 * totalFrames - 1 and so absorbing the remainder.
 */
module Partition {

  /** A closed interval [start, end] of frame indices; empty when end < start. */
  datatype Range = Range(start: int, end: int)

  /** The indices lo..hi inclusive. */
  function Span(lo: int, hi: int): (s: set<int>)
    ensures forall x :: x in s <==> lo <= x <= hi
    decreases hi - lo
  {
    if hi < lo then {} else Span(lo, hi - 1) + {hi}
  }

  function Members(r: Range): set<int> {
    Span(r.start, r.end)
  }

  /** Two adjacent spans make one. */
  lemma SpanJoin(lo: int, mid: int, hi: int)
    requires lo <= mid <= hi + 1
    ensures Span(lo, mid - 1) + Span(mid, hi) == Span(lo, hi)
  {
  }

  /**
   * C's `/` on int, which truncates toward zero; Dafny's `/` rounds down
   * instead, so the two differ on a negative dividend.
   */
  function TruncDiv(a: int, b: int): (q: int)
    requires b > 0
    ensures a >= 0 ==> 0 <= q * b <= a < q * b + b
    ensures a < 0 ==> q * b - b < a <= q * b <= 0
  {
    if a >= 0 then
      DivisionBounds(a, b);
      a / b
    else
      DivisionBounds(-a, b);
      assert -((-a) / b) * b == -(((-a) / b) * b);
      -((-a) / b)
  }

  lemma DivisionBounds(a: nat, b: int)
    requires b > 0
    ensures 0 <= (a / b) * b <= a < (a / b) * b + b
  {
    assert a == (a / b) * b + a % b;
  }

  function FramesPerThread(totalFrames: int, startFrame: int, numThreads: int): int
    requires numThreads >= 1
  {
    TruncDiv(totalFrames - startFrame, numThreads)
  }

  /** The range thread i is given. */
  function ThreadRange(totalFrames: int, startFrame: int, numThreads: int, i: int): Range
    requires 0 <= i < numThreads
  {
    var f := FramesPerThread(totalFrames, startFrame, numThreads);
    Range(startFrame + i * f,
          if i == numThreads - 1 then totalFrames - 1 else startFrame + (i + 1) * f - 1)
  }

  /** The loop of process_frames_with_threads that fills the thread_data array. */
  method AssignRanges(totalFrames: int, startFrame: int, numThreads: int) returns (ranges: array<Range>)
    requires numThreads >= 1
    ensures ranges.Length == numThreads
    ensures forall i :: 0 <= i < numThreads ==> ranges[i] == ThreadRange(totalFrames, startFrame, numThreads, i)
  {
    ranges := new Range[numThreads];
    var framesPerThread := TruncDiv(totalFrames - startFrame, numThreads);
    for i := 0 to numThreads
      invariant forall k :: 0 <= k < i ==> ranges[k] == ThreadRange(totalFrames, startFrame, numThreads, k)
    {
      ranges[i] := Range(startFrame + i * framesPerThread,
                         if i == numThreads - 1 then totalFrames - 1
                         else startFrame + (i + 1) * framesPerThread - 1);
    }
  }

  /** The indices given to threads 0 .. k-1 together. */
  function CoveredUpTo(totalFrames: int, startFrame: int, numThreads: int, k: nat): set<int>
    requires numThreads >= 1 && k <= numThreads
  {
    if k == 0 then {}
    else
      CoveredUpTo(totalFrames, startFrame, numThreads, k - 1)
      + Members(ThreadRange(totalFrames, startFrame, numThreads, k - 1))
  }

  /** The ranges of the first k < numThreads threads fill [startFrame, startFrame + k * framesPerThread - 1]. */
  lemma {:induction false} PrefixCovered(totalFrames: int, startFrame: int, numThreads: int, k: nat)
    requires numThreads >= 1 && k < numThreads
    ensures CoveredUpTo(totalFrames, startFrame, numThreads, k)
         == Span(startFrame, startFrame + k * FramesPerThread(totalFrames, startFrame, numThreads) - 1)
  {
    var f := FramesPerThread(totalFrames, startFrame, numThreads);
    if k > 0 {
      PrefixCovered(totalFrames, startFrame, numThreads, k - 1);
      assert k * f == (k - 1) * f + f;
      if f >= 0 {
        assert (k - 1) * f >= 0;
        SpanJoin(startFrame, startFrame + (k - 1) * f, startFrame + k * f - 1);
      } else {
        assert (k - 1) * f <= 0;
      }
    }
  }

  /**
   * The ranges of all threads together are exactly [startFrame, totalFrames - 1],
   * for every numThreads >= 1. When totalFrames < startFrame both sides are empty.
   */
  lemma PartitionCovers(totalFrames: int, startFrame: int, numThreads: int)
    requires numThreads >= 1
    ensures CoveredUpTo(totalFrames, startFrame, numThreads, numThreads) == Span(startFrame, totalFrames - 1)
  {
    var f := FramesPerThread(totalFrames, startFrame, numThreads);
    var n := numThreads;
    var a := totalFrames - startFrame;
    PrefixCovered(totalFrames, startFrame, n, n - 1);
    var last := ThreadRange(totalFrames, startFrame, n, n - 1);
    assert last == Range(startFrame + (n - 1) * f, totalFrames - 1);
    assert (n - 1) * f == f * n - f;
    if a >= 0 {
      assert 0 <= f * n <= a;
      assert 0 <= f;
      assert (n - 1) * f >= 0;
      SpanJoin(startFrame, startFrame + (n - 1) * f, totalFrames - 1);
    } else {
      assert f * n - n < a <= f * n <= 0;
      assert f <= 0;
      assert (n - 1) * f <= 0;
      assert Members(last) == {};
    }
  }

  /** Two different threads never share an index. */
  lemma PartitionDisjoint(totalFrames: int, startFrame: int, numThreads: int, i: int, j: int)
    requires 0 <= i < numThreads && 0 <= j < numThreads && i != j
    ensures Members(ThreadRange(totalFrames, startFrame, numThreads, i))
         !! Members(ThreadRange(totalFrames, startFrame, numThreads, j))
  {
    var f := FramesPerThread(totalFrames, startFrame, numThreads);
    var lo, hi := if i < j then i else j, if i < j then j else i;
    var a := ThreadRange(totalFrames, startFrame, numThreads, lo);
    var b := ThreadRange(totalFrames, startFrame, numThreads, hi);
    assert a.end == startFrame + lo * f + f - 1;
    if f >= 0 {
      assert lo * f + f <= hi * f;
      assert a.end < b.start;
    } else {
      assert a.end < a.start;
    }
  }

  /** Consecutive ranges are adjacent: each starts right after its predecessor ends. */
  lemma RangesAdjacent(totalFrames: int, startFrame: int, numThreads: int, i: int)
    requires 0 <= i && i + 1 < numThreads
    ensures ThreadRange(totalFrames, startFrame, numThreads, i).end + 1
         == ThreadRange(totalFrames, startFrame, numThreads, i + 1).start
  {
  }

  /** Every index of [startFrame, totalFrames - 1] belongs to exactly one thread. */
  lemma EveryFrameOnce(totalFrames: int, startFrame: int, numThreads: int, x: int)
    requires numThreads >= 1 && startFrame <= x < totalFrames
    ensures exists i :: 0 <= i < numThreads && x in Members(ThreadRange(totalFrames, startFrame, numThreads, i))
    ensures forall i, j ::
              (0 <= i < numThreads && 0 <= j < numThreads
               && x in Members(ThreadRange(totalFrames, startFrame, numThreads, i))
               && x in Members(ThreadRange(totalFrames, startFrame, numThreads, j))) ==> i == j
  {
    PartitionCovers(totalFrames, startFrame, numThreads);
    CoveredHasOwner(totalFrames, startFrame, numThreads, numThreads, x);
    forall i, j | 0 <= i < numThreads && 0 <= j < numThreads && i != j
      ensures !(x in Members(ThreadRange(totalFrames, startFrame, numThreads, i))
                && x in Members(ThreadRange(totalFrames, startFrame, numThreads, j)))
    {
      PartitionDisjoint(totalFrames, startFrame, numThreads, i, j);
    }
  }

  lemma {:induction false} CoveredHasOwner(totalFrames: int, startFrame: int, numThreads: int, k: nat, x: int)
    requires numThreads >= 1 && k <= numThreads
    requires x in CoveredUpTo(totalFrames, startFrame, numThreads, k)
    ensures exists i :: 0 <= i < k && x in Members(ThreadRange(totalFrames, startFrame, numThreads, i))
  {
    if x !in Members(ThreadRange(totalFrames, startFrame, numThreads, k - 1)) {
      CoveredHasOwner(totalFrames, startFrame, numThreads, k - 1, x);
    }
  }

  /**
   * With totalFrames >= startFrame every thread but the last gets framesPerThread
   * = (totalFrames - startFrame) / numThreads frames, and the last gets those
   * plus the remainder (totalFrames - startFrame) % numThreads.
   */
  lemma LastRangeAbsorbsRemainder(totalFrames: int, startFrame: int, numThreads: int)
    requires numThreads >= 1 && totalFrames >= startFrame
    ensures FramesPerThread(totalFrames, startFrame, numThreads) == (totalFrames - startFrame) / numThreads
    ensures forall i :: 0 <= i < numThreads - 1 ==>
              var r := ThreadRange(totalFrames, startFrame, numThreads, i);
              r.end - r.start + 1 == FramesPerThread(totalFrames, startFrame, numThreads)
    ensures var r := ThreadRange(totalFrames, startFrame, numThreads, numThreads - 1);
            r.end - r.start + 1
            == FramesPerThread(totalFrames, startFrame, numThreads) + (totalFrames - startFrame) % numThreads
  {
    var f := FramesPerThread(totalFrames, startFrame, numThreads);
    var n := numThreads;
    assert f == (totalFrames - startFrame) / n;
    assert totalFrames - startFrame == n * f + (totalFrames - startFrame) % n;
    assert (n - 1) * f == n * f - f;
    forall i | 0 <= i < n - 1
      ensures var r := ThreadRange(totalFrames, startFrame, n, i); r.end - r.start + 1 == f
    {
      assert (i + 1) * f == i * f + f;
    }
  }

  /** With fewer frames than threads every range but the last is empty and the last holds them all. */
  lemma FewerFramesThanThreads(totalFrames: int, startFrame: int, numThreads: int)
    requires 0 <= totalFrames - startFrame < numThreads
    ensures forall i :: 0 <= i < numThreads - 1 ==> Members(ThreadRange(totalFrames, startFrame, numThreads, i)) == {}
    ensures ThreadRange(totalFrames, startFrame, numThreads, numThreads - 1) == Range(startFrame, totalFrames - 1)
  {
    assert FramesPerThread(totalFrames, startFrame, numThreads) == 0;
  }

  /** 10 frames on 4 threads: framesPerThread 2 and ranges [0,1], [2,3], [4,5], [6,9]. */
  lemma TenFramesOnFourThreads()
    ensures FramesPerThread(10, 0, 4) == 2
    ensures ThreadRange(10, 0, 4, 0) == Range(0, 1)
    ensures ThreadRange(10, 0, 4, 1) == Range(2, 3)
    ensures ThreadRange(10, 0, 4, 2) == Range(4, 5)
    ensures ThreadRange(10, 0, 4, 3) == Range(6, 9)
  {
  }

  /**
   * A count of -1 (the directory could not be read) passed on unchecked with
   * start 0 gives every thread an empty range; truncating division makes
   * framesPerThread 0 for two or more threads and -1 for one.
   */
  lemma FailedCountGivesEmptyRanges(numThreads: int)
    requires numThreads >= 1
    ensures FramesPerThread(-1, 0, numThreads) == if numThreads == 1 then -1 else 0
    ensures forall i :: 0 <= i < numThreads ==> Members(ThreadRange(-1, 0, numThreads, i)) == {}
  {
  }
}
