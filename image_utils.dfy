/**
 * The pixel kernels of image_utils.c: the absolute difference of two
 * grayscale buffers and the binary threshold, each filling a caller-supplied
 * output buffer one pixel at a time; and the core count that sizes the
 * worker pool.
 */
module ImageUtils {
  import opened Wrappers

  /** An 8-bit intensity: C's unsigned char. */
  type byte = x: int | 0 <= x < 256

  /** The value C stores when an int is assigned to an unsigned char: reduction modulo 256. */
  function ToByte(x: int): byte {
    x % 256
  }

  function Abs(x: int): nat {
    if x < 0 then -x else x
  }

  /** The number of pixels a loop `for (i = 0; i < width * height; i++)` visits. */
  function PixelCount(width: int, height: int): nat {
    if width * height > 0 then width * height else 0
  }

  /**
   * One pixel of compute_difference: both bytes are promoted to int, abs is
   * taken of their difference and the result is stored back into a byte.
   * The store never wraps: the result is the exact distance of the two values.
   */
  function PixelDiff(a: byte, b: byte): (d: byte)
    ensures d == Abs(a as int - b as int)
    ensures d == 0 <==> a == b
  {
    ToByte(Abs(a as int - b as int))
  }

  /** One pixel of apply_threshold. */
  function PixelThreshold(v: byte, t: byte): byte {
    if v > t then 255 else 0
  }

  /** The buffer compute_difference writes, as a value. */
  function Difference(a: seq<byte>, b: seq<byte>): (r: seq<byte>)
    requires |a| == |b|
    ensures |r| == |a|
  {
    seq(|a|, i requires 0 <= i < |a| => PixelDiff(a[i], b[i]))
  }

  /** The buffer apply_threshold writes, as a value. */
  function Threshold(s: seq<byte>, t: byte): (r: seq<byte>)
    ensures |r| == |s|
  {
    seq(|s|, i requires 0 <= i < |s| => PixelThreshold(s[i], t))
  }

  /**
   * compute_difference: output[i] receives |img1[i] - img2[i]| for every
   * i < width * height; output entries from width * height on keep their
   * values. The output buffer may be one of the inputs.
   */
  method ComputeDifference(img1: array<byte>, img2: array<byte>, output: array<byte>, width: int, height: int)
    requires PixelCount(width, height) <= img1.Length
    requires PixelCount(width, height) <= img2.Length
    requires PixelCount(width, height) <= output.Length
    modifies output
    ensures output[..PixelCount(width, height)]
         == Difference(old(img1[..PixelCount(width, height)]), old(img2[..PixelCount(width, height)]))
    ensures output[PixelCount(width, height)..] == old(output[PixelCount(width, height)..])
    ensures img1 != output ==> img1[..] == old(img1[..])
    ensures img2 != output ==> img2[..] == old(img2[..])
  {
    var n := width * height;
    var i := 0;
    while i < n
      invariant 0 <= i <= PixelCount(width, height)
      invariant forall k :: 0 <= k < i ==> output[k] == PixelDiff(old(img1[k]), old(img2[k]))
      invariant forall k :: i <= k < output.Length ==> output[k] == old(output[k])
      invariant forall k :: i <= k < img1.Length ==> img1[k] == old(img1[k])
      invariant forall k :: i <= k < img2.Length ==> img2[k] == old(img2[k])
    {
      output[i] := ToByte(Abs(img1[i] as int - img2[i] as int));
      i := i + 1;
    }
  }

  /**
   * apply_threshold: output[i] receives 255 when input[i] > threshold and 0
   * otherwise, for every i < width * height; output entries from
   * width * height on keep their values. The output buffer may be the input.
   */
  method ApplyThreshold(input: array<byte>, output: array<byte>, width: int, height: int, threshold: byte)
    requires PixelCount(width, height) <= input.Length
    requires PixelCount(width, height) <= output.Length
    modifies output
    ensures output[..PixelCount(width, height)] == Threshold(old(input[..PixelCount(width, height)]), threshold)
    ensures output[PixelCount(width, height)..] == old(output[PixelCount(width, height)..])
    ensures input != output ==> input[..] == old(input[..])
  {
    var n := width * height;
    var i := 0;
    while i < n
      invariant 0 <= i <= PixelCount(width, height)
      invariant forall k :: 0 <= k < i ==> output[k] == PixelThreshold(old(input[k]), threshold)
      invariant forall k :: i <= k < output.Length ==> output[k] == old(output[k])
      invariant forall k :: i <= k < input.Length ==> input[k] == old(input[k])
    {
      output[i] := if input[i] > threshold then 255 else 0;
      i := i + 1;
    }
  }

  /** The difference does not depend on the order of its inputs. */
  lemma DifferenceSymmetric(a: seq<byte>, b: seq<byte>)
    requires |a| == |b|
    ensures Difference(a, b) == Difference(b, a)
  {
  }

  /** A pixel of the difference is 0 exactly where the two inputs agree. */
  lemma DifferenceZeroIffEqual(a: seq<byte>, b: seq<byte>, i: int)
    requires |a| == |b| && 0 <= i < |a|
    ensures Difference(a, b)[i] == 0 <==> a[i] == b[i]
  {
  }

  /** A buffer differenced with itself is all zeros. */
  lemma DifferenceWithSelf(a: seq<byte>)
    ensures Difference(a, a) == seq(|a|, i => 0)
  {
  }

  /** The threshold's output is binary. */
  lemma ThresholdIsBinary(s: seq<byte>, t: byte)
    ensures forall i :: 0 <= i < |s| ==> Threshold(s, t)[i] == 0 || Threshold(s, t)[i] == 255
  {
  }

  /** The test is strict: a value equal to the threshold maps to 0. */
  lemma ThresholdIsStrict(s: seq<byte>, t: byte)
    ensures forall i :: 0 <= i < |s| ==> (Threshold(s, t)[i] == 255 <==> s[i] > t)
    ensures forall i :: 0 <= i < |s| ==> (Threshold(s, t)[i] == 0 <==> s[i] <= t)
  {
  }

  /** Thresholding a thresholded buffer again with the same t < 255 changes nothing. */
  lemma ThresholdIdempotent(s: seq<byte>, t: byte)
    requires t < 255
    ensures Threshold(Threshold(s, t), t) == Threshold(s, t)
  {
  }

  /** With t = 255 nothing passes the strict test, so a second pass clears the buffer. */
  lemma ThresholdAtMaximumClears(s: seq<byte>)
    ensures Threshold(s, 255) == seq(|s|, i => 0)
  {
  }

  /**
   * get_cpu_cores: the online core count when it is at least 1; below that
   * the program exits (None). Every worker pool is therefore at least 1 strong.
   */
  function CpuCores(online: int): (r: Option<int>)
    ensures r.Some? <==> online >= 1
    ensures r.Some? ==> r.value == online && r.value >= 1
  {
    if online < 1 then None else Some(online)
  }
}
