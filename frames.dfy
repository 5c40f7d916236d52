/**
 * Frames as grids of pixels, and the side-by-side concatenation that
 * `cv2.hconcat` performs on two of them (sync.py, line 125).
 */
module Frames {

  /** One pixel of a decoded image; its channels and colour order are not modelled. */
  type Pixel(==)

  /** The length of the first row; a grid with no rows has width 0. */
  function Width(g: seq<seq<Pixel>>): nat {
    if |g| == 0 then 0 else |g[0]|
  }

  /** Every row has the same length, as in a decoded image array. */
  predicate Rectangular(g: seq<seq<Pixel>>) {
    forall r :: 0 <= r < |g| ==> |g[r]| == Width(g)
  }

  /** A frame: a rectangular grid of rows, top row first. */
  type Frame = g: seq<seq<Pixel>> | Rectangular(g) witness []

  function Height(f: Frame): nat {
    |f|
  }

  /**
   * Horizontal concatenation: row r of the result is row r of `left`
   * followed by row r of `right`. Both frames must have the same height.
   */
  function HConcat(left: Frame, right: Frame): (c: Frame)
    requires Height(left) == Height(right)
    ensures Height(c) == Height(left)
    ensures Width(c) == Width(left) + Width(right)
  {
    seq(|left|, r requires 0 <= r < |left| => left[r] + right[r])
  }

  /** The first `w` columns of a frame. */
  function LeftPart(f: Frame, w: nat): (p: Frame)
    requires w <= Width(f)
    ensures Height(p) == Height(f)
    ensures Height(f) > 0 ==> Width(p) == w
  {
    seq(|f|, r requires 0 <= r < |f| => f[r][..w])
  }

  /** The columns of a frame from column `w` on. */
  function RightPart(f: Frame, w: nat): (p: Frame)
    requires w <= Width(f)
    ensures Height(p) == Height(f)
    ensures Height(f) > 0 ==> Width(p) == Width(f) - w
  {
    seq(|f|, r requires 0 <= r < |f| => f[r][w..])
  }

  /** Splitting a concatenated frame at the left frame's width gives back both frames. */
  lemma SplitHConcat(left: Frame, right: Frame)
    requires Height(left) == Height(right)
    ensures LeftPart(HConcat(left, right), Width(left)) == left
    ensures RightPart(HConcat(left, right), Width(left)) == right
  {
    var c := HConcat(left, right);
    var l := LeftPart(c, Width(left));
    var rt := RightPart(c, Width(left));
    forall r | 0 <= r < |left|
      ensures l[r] == left[r] && rt[r] == right[r]
    {
      assert c[r] == left[r] + right[r];
      assert |left[r]| == Width(left);
    }
  }

  /** Concatenating the two parts of a split frame gives back the frame. */
  lemma HConcatOfSplit(f: Frame, w: nat)
    requires w <= Width(f)
    ensures HConcat(LeftPart(f, w), RightPart(f, w)) == f
  {
    var c := HConcat(LeftPart(f, w), RightPart(f, w));
    forall r | 0 <= r < |f|
      ensures c[r] == f[r]
    {
      assert f[r] == f[r][..w] + f[r][w..];
    }
  }
}
