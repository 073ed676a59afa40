/** Max-projection of a camera frame onto its two axes.

    A frame is H rows of W non-negative pixel values, stored row-major as a
    2D numpy array is. The x signal holds one value per column (the largest
    pixel of that column), the y signal one value per row (the largest pixel
    of that row). The frame's smallest and largest pixels, which feed the
    default optimizer bounds, are defined here too, over all pixels at once.
 */
module Projection {

  /** A camera frame: rows of non-negative integer pixel values. */
  type Image = seq<seq<nat>>

  /** Number of rows (the first entry of the array's shape). */
  function Height(img: Image): nat { |img| }

  /** Number of columns (the second entry of the array's shape). */
  function Width(img: Image): nat { if |img| == 0 then 0 else |img[0]| }

  /** Every row has the same length, as in any 2D numpy array. */
  predicate Rectangular(img: Image) {
    forall j :: 0 <= j < |img| ==> |img[j]| == Width(img)
  }

  /** At least one row and one column: the frames numpy can reduce along both axes. */
  predicate NonEmpty(img: Image) { Height(img) > 0 && Width(img) > 0 }

  /** The larger of the frame's two dimensions. */
  function MaxDim(img: Image): nat {
    if Width(img) >= Height(img) then Width(img) else Height(img)
  }

  // ---------------------------------------------------------------------------
  // Extremes of a one-dimensional signal
  // ---------------------------------------------------------------------------

  /** m is no smaller than any entry of s and is itself an entry of s. */
  ghost predicate IsMaxOf(s: seq<nat>, m: nat) {
    && (forall k :: 0 <= k < |s| ==> s[k] <= m)
    && (exists k :: 0 <= k < |s| && s[k] == m)
  }

  /** m is no larger than any entry of s and is itself an entry of s. */
  ghost predicate IsMinOf(s: seq<nat>, m: nat) {
    && (forall k :: 0 <= k < |s| ==> m <= s[k])
    && (exists k :: 0 <= k < |s| && s[k] == m)
  }

  /** The largest entry of a non-empty signal. */
  function MaxOf(s: seq<nat>): (m: nat)
    requires |s| > 0
    ensures IsMaxOf(s, m)
  {
    if |s| == 1 then s[0]
    else
      var rest := MaxOf(s[1..]);
      assert rest in s;
      if s[0] >= rest then s[0] else rest
  }

  /** The smallest entry of a non-empty signal. */
  function MinOf(s: seq<nat>): (m: nat)
    requires |s| > 0
    ensures IsMinOf(s, m)
  {
    if |s| == 1 then s[0]
    else
      var rest := MinOf(s[1..]);
      assert rest in s;
      if s[0] <= rest then s[0] else rest
  }

  // ---------------------------------------------------------------------------
  // The two axis signals
  // ---------------------------------------------------------------------------

  /** Column i of the frame, top to bottom. */
  function Column(img: Image, i: nat): (c: seq<nat>)
    requires Rectangular(img) && i < Width(img)
    ensures |c| == Height(img)
    ensures forall j :: 0 <= j < |c| ==> c[j] == img[j][i]
  {
    seq(|img|, j requires 0 <= j < |img| => img[j][i])
  }

  /** The x signal, np.max(image, axis=0): one entry per column, the largest pixel of that column. */
  function ColumnMaxima(img: Image): (xs: seq<nat>)
    requires Rectangular(img) && Height(img) > 0
    ensures |xs| == Width(img)
    ensures forall i :: 0 <= i < |xs| ==> IsMaxOf(Column(img, i), xs[i])
  {
    seq(Width(img), i requires 0 <= i < Width(img) => MaxOf(Column(img, i)))
  }

  /** The y signal, np.max(image, axis=1): one entry per row, the largest pixel of that row. */
  function RowMaxima(img: Image): (ys: seq<nat>)
    requires Rectangular(img) && Width(img) > 0
    ensures |ys| == Height(img)
    ensures forall j :: 0 <= j < |ys| ==> IsMaxOf(img[j], ys[j])
  {
    seq(Height(img), j requires 0 <= j < Height(img) => MaxOf(img[j]))
  }

  // ---------------------------------------------------------------------------
  // Extremes of the whole frame (np.max(image), np.min(image))
  // ---------------------------------------------------------------------------

  /** All pixels of the frame, row after row. */
  function Flatten(img: Image): seq<nat> {
    if |img| == 0 then [] else img[0] + Flatten(img[1..])
  }

  /** m is no smaller than any pixel and is the value of some pixel. */
  ghost predicate IsImageMax(img: Image, m: nat) {
    && (forall j, i :: 0 <= j < |img| && 0 <= i < |img[j]| ==> img[j][i] <= m)
    && (exists j, i :: 0 <= j < |img| && 0 <= i < |img[j]| && img[j][i] == m)
  }

  /** m is no larger than any pixel and is the value of some pixel. */
  ghost predicate IsImageMin(img: Image, m: nat) {
    && (forall j, i :: 0 <= j < |img| && 0 <= i < |img[j]| ==> m <= img[j][i])
    && (exists j, i :: 0 <= j < |img| && 0 <= i < |img[j]| && img[j][i] == m)
  }

  lemma {:induction false} FlattenHasPixel(img: Image, j: nat, i: nat)
    requires j < |img| && i < |img[j]|
    ensures img[j][i] in Flatten(img)
  {
    assert Flatten(img) == img[0] + Flatten(img[1..]);
    if j == 0 {
      assert Flatten(img)[i] == img[0][i];
    } else {
      assert img[1..][j - 1] == img[j];
      FlattenHasPixel(img[1..], j - 1, i);
    }
  }

  lemma {:induction false} PixelOfFlatten(img: Image, x: nat)
    requires x in Flatten(img)
    ensures exists j, i :: 0 <= j < |img| && 0 <= i < |img[j]| && img[j][i] == x
  {
    assert |img| > 0;
    assert Flatten(img) == img[0] + Flatten(img[1..]);
    if x in img[0] {
      var i :| 0 <= i < |img[0]| && img[0][i] == x;
      assert img[0][i] == x;
    } else {
      PixelOfFlatten(img[1..], x);
      var j, i :| 0 <= j < |img[1..]| && 0 <= i < |img[1..][j]| && img[1..][j][i] == x;
      assert img[j + 1][i] == x;
    }
  }

  /** The largest entry of the flattened frame is the largest pixel. */
  lemma MaxOfFlattenIsImageMax(img: Image)
    requires |img| > 0 && |img[0]| > 0
    ensures |Flatten(img)| > 0
    ensures IsImageMax(img, MaxOf(Flatten(img)))
  {
    FlattenHasPixel(img, 0, 0);
    var flat := Flatten(img);
    var m := MaxOf(flat);
    forall j, i | 0 <= j < |img| && 0 <= i < |img[j]| ensures img[j][i] <= m {
      FlattenHasPixel(img, j, i);
    }
    PixelOfFlatten(img, m);
  }

  /** The smallest entry of the flattened frame is the smallest pixel. */
  lemma MinOfFlattenIsImageMin(img: Image)
    requires |img| > 0 && |img[0]| > 0
    ensures |Flatten(img)| > 0
    ensures IsImageMin(img, MinOf(Flatten(img)))
  {
    FlattenHasPixel(img, 0, 0);
    var flat := Flatten(img);
    var m := MinOf(flat);
    forall j, i | 0 <= j < |img| && 0 <= i < |img[j]| ensures m <= img[j][i] {
      FlattenHasPixel(img, j, i);
    }
    PixelOfFlatten(img, m);
  }

  /** np.max(image): the largest pixel of the frame. */
  function ImageMax(img: Image): (m: nat)
    requires Rectangular(img) && NonEmpty(img)
    ensures IsImageMax(img, m)
  {
    MaxOfFlattenIsImageMax(img);
    MaxOf(Flatten(img))
  }

  /** np.min(image): the smallest pixel of the frame. */
  function ImageMin(img: Image): (m: nat)
    requires Rectangular(img) && NonEmpty(img)
    ensures IsImageMin(img, m)
    ensures m <= ImageMax(img)
  {
    MinOfFlattenIsImageMin(img);
    MinOf(Flatten(img))
  }

  lemma ImageMaxUnique(img: Image, a: nat, b: nat)
    requires IsImageMax(img, a) && IsImageMax(img, b)
    ensures a == b
  {
  }

  lemma ImageMinUnique(img: Image, a: nat, b: nat)
    requires IsImageMin(img, a) && IsImageMin(img, b)
    ensures a == b
  {
  }

  /** A signal has only one maximum. */
  lemma MaxOfUnique(s: seq<nat>, m: nat)
    requires |s| > 0 && IsMaxOf(s, m)
    ensures MaxOf(s) == m
  {
  }

  /** The largest entry of the x signal is the largest pixel of the frame. */
  lemma ColumnMaximaPeak(img: Image)
    requires Rectangular(img) && NonEmpty(img)
    ensures MaxOf(ColumnMaxima(img)) == ImageMax(img)
  {
    var xs := ColumnMaxima(img);
    var m := MaxOf(xs);
    forall j, i | 0 <= j < |img| && 0 <= i < |img[j]| ensures img[j][i] <= m {
      assert i < |xs|;
      assert IsMaxOf(Column(img, i), xs[i]);
      assert Column(img, i)[j] == img[j][i];
      assert xs[i] <= m;
    }
    var i0 :| 0 <= i0 < |xs| && xs[i0] == m;
    assert IsMaxOf(Column(img, i0), xs[i0]);
    var j0 :| 0 <= j0 < |img| && Column(img, i0)[j0] == xs[i0];
    assert img[j0][i0] == m;
    assert IsImageMax(img, m);
    ImageMaxUnique(img, m, ImageMax(img));
  }

  /** The largest entry of the y signal is the largest pixel of the frame. */
  lemma RowMaximaPeak(img: Image)
    requires Rectangular(img) && NonEmpty(img)
    ensures MaxOf(RowMaxima(img)) == ImageMax(img)
  {
    var ys := RowMaxima(img);
    var m := MaxOf(ys);
    forall j, i | 0 <= j < |img| && 0 <= i < |img[j]| ensures img[j][i] <= m {
      assert IsMaxOf(img[j], ys[j]);
      assert ys[j] <= m;
    }
    var j0 :| 0 <= j0 < |ys| && ys[j0] == m;
    assert IsMaxOf(img[j0], ys[j0]);
    var i0 :| 0 <= i0 < |img[j0]| && img[j0][i0] == ys[j0];
    assert IsImageMax(img, m);
    ImageMaxUnique(img, m, ImageMax(img));
  }

  /** The largest entry of the x signal, the largest entry of the y signal
      and the largest pixel of the frame are one and the same value. */
  lemma ProjectionMaximaAgree(img: Image)
    requires Rectangular(img) && NonEmpty(img)
    ensures MaxOf(ColumnMaxima(img)) == MaxOf(RowMaxima(img)) == ImageMax(img)
  {
    ColumnMaximaPeak(img);
    RowMaximaPeak(img);
  }

  // ---------------------------------------------------------------------------
  // Transposition: exchanging the roles of the two axes
  // ---------------------------------------------------------------------------

  /** The frame with rows and columns exchanged (image.T). */
  function Transpose(img: Image): (t: Image)
    requires Rectangular(img)
    ensures Rectangular(t)
    ensures |t| == Width(img)
    ensures forall i :: 0 <= i < |t| ==> |t[i]| == Height(img)
    ensures forall i, j :: 0 <= i < |t| && 0 <= j < Height(img) ==> t[i][j] == img[j][i]
  {
    seq(Width(img), i requires 0 <= i < Width(img) => Column(img, i))
  }

  /** Transposing swaps the x and y signals. */
  lemma TransposeSwapsProjections(img: Image)
    requires Rectangular(img) && NonEmpty(img)
    ensures NonEmpty(Transpose(img))
    ensures Height(Transpose(img)) == Width(img) && Width(Transpose(img)) == Height(img)
    ensures MaxDim(Transpose(img)) == MaxDim(img)
    ensures ColumnMaxima(Transpose(img)) == RowMaxima(img)
    ensures RowMaxima(Transpose(img)) == ColumnMaxima(img)
  {
    var t := Transpose(img);
    assert |t[0]| == Height(img);
    forall j | 0 <= j < Height(img) ensures Column(t, j) == img[j] {
      assert |Column(t, j)| == |img[j]|;
    }
    assert ColumnMaxima(t) == RowMaxima(img);
  }

  /** Transposing changes neither the largest nor the smallest pixel. */
  lemma TransposeKeepsExtremes(img: Image)
    requires Rectangular(img) && NonEmpty(img)
    ensures NonEmpty(Transpose(img))
    ensures ImageMax(Transpose(img)) == ImageMax(img)
    ensures ImageMin(Transpose(img)) == ImageMin(img)
  {
    var t := Transpose(img);
    assert |t[0]| == Height(img);
    var mx, mn := ImageMax(img), ImageMin(img);
    var j0, i0 :| 0 <= j0 < |img| && 0 <= i0 < |img[j0]| && img[j0][i0] == mx;
    assert t[i0][j0] == mx;
    var j1, i1 :| 0 <= j1 < |img| && 0 <= i1 < |img[j1]| && img[j1][i1] == mn;
    assert t[i1][j1] == mn;
    forall i, j | 0 <= i < |t| && 0 <= j < |t[i]| ensures mn <= t[i][j] <= mx {
      assert t[i][j] == img[j][i];
    }
    assert IsImageMax(t, mx);
    assert IsImageMin(t, mn);
    ImageMaxUnique(t, mx, ImageMax(t));
    ImageMinUnique(t, mn, ImageMin(t));
  }

  /** An entry of the x signal is pinned down by its column alone. */
  lemma ColumnMaximumIs(img: Image, i: nat, m: nat)
    requires Rectangular(img) && Height(img) > 0 && i < Width(img)
    requires forall j :: 0 <= j < |img| ==> img[j][i] <= m
    requires exists j :: 0 <= j < |img| && img[j][i] == m
    ensures ColumnMaxima(img)[i] == m
  {
    var c := Column(img, i);
    assert IsMaxOf(c, m);
    MaxOfUnique(c, m);
  }

  /** A 3-by-3 sample frame. */
  const SmallFrame: Image := [[1, 5, 2], [9, 3, 4], [6, 7, 8]]

  /** The sample frame projects to x = [9,7,8]. */
  lemma SmallFrameColumnMaxima()
    ensures Rectangular(SmallFrame) && NonEmpty(SmallFrame)
    ensures ColumnMaxima(SmallFrame) == [9, 7, 8]
  {
    var img := SmallFrame;
    assert img[1][0] == 9;
    ColumnMaximumIs(img, 0, 9);
    assert img[2][1] == 7;
    ColumnMaximumIs(img, 1, 7);
    assert img[2][2] == 8;
    ColumnMaximumIs(img, 2, 8);
  }

  /** An entry of the y signal is pinned down by its row alone. */
  lemma RowMaximumIs(img: Image, j: nat, m: nat)
    requires Rectangular(img) && Width(img) > 0 && j < Height(img)
    requires IsMaxOf(img[j], m)
    ensures RowMaxima(img)[j] == m
  {
    MaxOfUnique(img[j], m);
  }

  /** The sample frame projects to y = [5,9,8]. */
  lemma SmallFrameRowMaxima()
    ensures Rectangular(SmallFrame) && NonEmpty(SmallFrame)
    ensures RowMaxima(SmallFrame) == [5, 9, 8]
  {
    var img := SmallFrame;
    assert img[0][1] == 5;
    RowMaximumIs(img, 0, 5);
    assert img[1][0] == 9;
    RowMaximumIs(img, 1, 9);
    assert img[2][2] == 8;
    RowMaximumIs(img, 2, 8);
  }
}
