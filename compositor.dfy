/**
 * The side-by-side compositor of `combine_videos` (sync.py, lines 117-125),
 * as a pure specification: output frame `i` puts base frame
 * `i mod |base|` on the left of generated frame `i`.
 */
module Compositor {
  import opened Wrappers
  import opened Frames

  /** Why composition stops. */
  datatype CompositionError =
    | EmptyBase                 // `base[0]` (line 117) on an empty sequence
    | HeightMismatch(index: nat) // `hconcat` (line 125) on frames of unequal height

  /**
   * The base index used for output frame `i`: Python's `i % n`, which for
   * a non-negative `i` and positive `n` agrees with Dafny's `%`.
   */
  function CyclicIndex(i: nat, n: nat): (k: nat)
    requires n > 0
    ensures k < n
    ensures i < n ==> k == i
  {
    i % n
  }

  /** Output indices `n` apart use the same base frame. */
  lemma {:induction false} CyclicIndexWraps(i: nat, n: nat)
    requires n > 0
    ensures CyclicIndex(i + n, n) == CyclicIndex(i, n)
  {
    var q, r := i / n, i % n;
    assert i + n == (q + 1) * n + r;
    ModOfMultiplePlus(i + n, q + 1, n, r);
  }

  /** `q * n + r` leaves remainder `r` when `r` is below `n`. */
  lemma ModOfMultiplePlus(x: nat, q: nat, n: nat, r: nat)
    requires n > 0 && r < n && x == q * n + r
    ensures x % n == r
  {
    var q2, r2 := x / n, x % n;
    assert x == q2 * n + r2;
    if q2 > q {
      AtLeastOneMultiple(q2 - q, n);
    } else if q2 < q {
      AtLeastOneMultiple(q - q2, n);
    }
  }

  lemma {:induction false} AtLeastOneMultiple(a: nat, n: nat)
    requires a >= 1
    ensures a * n >= n
  {
    if a > 1 {
      AtLeastOneMultiple(a - 1, n);
      assert a * n == (a - 1) * n + n;
    }
  }

  /** The two frames placed side by side at output index `i` have equal heights. */
  predicate HeightsAgree(base: seq<Frame>, generated: seq<Frame>, i: nat)
    requires |base| > 0 && i < |generated|
  {
    Height(base[CyclicIndex(i, |base|)]) == Height(generated[i])
  }

  /** The first index at or after `j` whose frames cannot be concatenated, or `|generated|`. */
  function FirstMismatchFrom(base: seq<Frame>, generated: seq<Frame>, j: nat): (k: nat)
    requires |base| > 0 && j <= |generated|
    ensures j <= k <= |generated|
    ensures forall i :: j <= i < k ==> HeightsAgree(base, generated, i)
    ensures k < |generated| ==> !HeightsAgree(base, generated, k)
    decreases |generated| - j
  {
    if j == |generated| || !HeightsAgree(base, generated, j) then j
    else FirstMismatchFrom(base, generated, j + 1)
  }

  /** The index at which the writing loop raises, or `|generated|` when it runs to the end. */
  function FirstMismatch(base: seq<Frame>, generated: seq<Frame>): (k: nat)
    requires |base| > 0
    ensures k <= |generated|
    ensures forall i :: 0 <= i < k ==> HeightsAgree(base, generated, i)
    ensures k < |generated| ==> !HeightsAgree(base, generated, k)
  {
    FirstMismatchFrom(base, generated, 0)
  }

  /** Output frame `i`: the cycled base frame on the left, generated frame `i` on the right. */
  function ComposedFrame(base: seq<Frame>, generated: seq<Frame>, i: nat): Frame
    requires |base| > 0 && i < |generated| && HeightsAgree(base, generated, i)
  {
    HConcat(base[CyclicIndex(i, |base|)], generated[i])
  }

  /** The first `n` output frames, in index order. */
  function ComposedPrefix(base: seq<Frame>, generated: seq<Frame>, n: nat): (out: seq<Frame>)
    requires |base| > 0 && n <= FirstMismatch(base, generated)
    ensures |out| == n
  {
    seq(n, i requires 0 <= i < n => ComposedFrame(base, generated, i))
  }

  /**
   * The whole composed sequence, or the error that stops it: an empty
   * base fails before any frame (whatever `generated` is), and the first
   * height mismatch fails at its index.
   */
  function ComposeSequence(base: seq<Frame>, generated: seq<Frame>): (r: Result<seq<Frame>, CompositionError>)
    ensures |base| == 0 ==> r == Failure(EmptyBase)
    ensures r.Success? ==> |base| > 0 && |r.value| == |generated|
    ensures r.Failure? && r.error.HeightMismatch? ==> |base| > 0 && r.error.index < |generated|
  {
    if |base| == 0 then Failure(EmptyBase)
    else if FirstMismatch(base, generated) < |generated| then Failure(HeightMismatch(FirstMismatch(base, generated)))
    else Success(ComposedPrefix(base, generated, |generated|))
  }

  /** The output frames written before composition stops, in index order. */
  function WrittenFrames(base: seq<Frame>, generated: seq<Frame>): (out: seq<Frame>)
    requires |base| > 0
    ensures ComposeSequence(base, generated).Success? ==> out == ComposeSequence(base, generated).value
    ensures ComposeSequence(base, generated).Failure? ==>
              |out| == ComposeSequence(base, generated).error.index < |generated|
  {
    ComposedPrefix(base, generated, FirstMismatch(base, generated))
  }

  /**
   * When composition fails and when it succeeds: an empty base always
   * fails; otherwise it succeeds exactly when every output index pairs
   * frames of equal height, and a failure names the first index that does not.
   */
  lemma ComposeSequenceOutcome(base: seq<Frame>, generated: seq<Frame>)
    ensures ComposeSequence(base, generated) == Failure(EmptyBase) <==> |base| == 0
    ensures ComposeSequence(base, generated).Success? <==>
              |base| > 0 && forall i :: 0 <= i < |generated| ==> HeightsAgree(base, generated, i)
    ensures ComposeSequence(base, generated).Failure? && ComposeSequence(base, generated).error.HeightMismatch? ==>
              var k := ComposeSequence(base, generated).error.index;
              |base| > 0 && k < |generated| && !HeightsAgree(base, generated, k)
              && forall i :: 0 <= i < k ==> HeightsAgree(base, generated, i)
  {
  }

  /**
   * Every successful composition has one frame per generated frame, and
   * frame `i` splits into base frame `i mod |base|` on the left and
   * generated frame `i` on the right, with their common height and the
   * sum of their widths.
   */
  lemma ComposedFrameParts(base: seq<Frame>, generated: seq<Frame>, i: nat)
    requires ComposeSequence(base, generated).Success? && i < |generated|
    ensures var out := ComposeSequence(base, generated).value;
            var left := base[i % |base|];
            |out| == |generated|
            && LeftPart(out[i], Width(left)) == left
            && RightPart(out[i], Width(left)) == generated[i]
            && Height(out[i]) == Height(generated[i]) == Height(left)
            && Width(out[i]) == Width(left) + Width(generated[i])
  {
    var k := CyclicIndex(i, |base|);
    assert HeightsAgree(base, generated, i);
    SplitHConcat(base[k], generated[i]);
  }

  /**
   * Whether or not composition succeeds, every frame written before it
   * stops puts base frame `i mod |base|` on the left of generated frame `i`.
   */
  lemma WrittenFrameParts(base: seq<Frame>, generated: seq<Frame>, i: nat)
    requires |base| > 0 && i < |WrittenFrames(base, generated)|
    ensures var out := WrittenFrames(base, generated);
            var left := base[i % |base|];
            i < |generated|
            && LeftPart(out[i], Width(left)) == left
            && RightPart(out[i], Width(left)) == generated[i]
            && Height(out[i]) == Height(generated[i]) == Height(left)
            && Width(out[i]) == Width(left) + Width(generated[i])
  {
    assert i < FirstMismatch(base, generated);
    assert HeightsAgree(base, generated, i);
    SplitHConcat(base[CyclicIndex(i, |base|)], generated[i]);
  }

  /**
   * The base cycles: with three base frames and five generated frames,
   * output frames 3 and 4 show base frames 0 and 1 on the left.
   */
  lemma BaseWrapsAround(base: seq<Frame>, generated: seq<Frame>)
    requires |base| == 3 && |generated| == 5
    requires ComposeSequence(base, generated).Success?
    ensures var out := ComposeSequence(base, generated).value;
            LeftPart(out[3], Width(base[0])) == base[0]
            && LeftPart(out[4], Width(base[1])) == base[1]
  {
    ComposedFrameParts(base, generated, 3);
    ComposedFrameParts(base, generated, 4);
  }

  /**
   * The output length depends on `generated` only: two successful
   * compositions against the same generated frames have equal lengths,
   * however many base frames each had.
   */
  lemma LengthIgnoresBase(base1: seq<Frame>, base2: seq<Frame>, generated: seq<Frame>)
    requires ComposeSequence(base1, generated).Success? && ComposeSequence(base2, generated).Success?
    ensures |ComposeSequence(base1, generated).value| == |ComposeSequence(base2, generated).value| == |generated|
  {
  }

  /**
   * All base frames have the size of the first one, which is how a single
   * decoded stream looks.
   */
  predicate SameSize(base: seq<Frame>)
    requires |base| > 0
  {
    forall k :: 0 <= k < |base| ==> Width(base[k]) == Width(base[0]) && Height(base[k]) == Height(base[0])
  }

  /**
   * Output frame `i` has the size declared to the writer,
   * `(2 * base width, base height)`, exactly when generated frame `i` has
   * the size of the base frames.
   */
  lemma ComposedFrameFitsDeclaredSize(base: seq<Frame>, generated: seq<Frame>, i: nat)
    requires |base| > 0 && SameSize(base) && Height(base[0]) > 0
    requires i < |generated| && HeightsAgree(base, generated, i)
    ensures Width(ComposedFrame(base, generated, i)) == 2 * Width(base[0])
            && Height(ComposedFrame(base, generated, i)) == Height(base[0])
            <==>
            Width(generated[i]) == Width(base[0]) && Height(generated[i]) == Height(base[0])
  {
    var k := CyclicIndex(i, |base|);
    assert Width(base[k]) == Width(base[0]) && Height(base[k]) == Height(base[0]);
  }
}
