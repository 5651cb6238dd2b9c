/**
 * Image normalisation and the data-URI codec of `explore/processing.py`.
 *
 * An image is a 2-D array of `uint8` pixels, row-major: `img[y][x]`.  The Gaussian blur,
 * the centre of mass, PIL's resampling and the PNG codec are not modelled: their results
 * come in as parameters (see README).
 */
module Processing {
  import opened Common
  import Base64

  type Image = seq<seq<Byte>>

  /** `img` has `h` rows of `w` pixels each. */
  predicate IsGrid(img: Image, h: int, w: int) {
    |img| == h && forall y | 0 <= y < |img| :: |img[y]| == w
  }

  /** A non-empty numpy 2-D array: every row as wide as the first. */
  predicate IsRectangular(img: Image) {
    |img| > 0 && IsGrid(img, |img|, |img[0]|)
  }

  predicate SameShape(a: Image, b: Image) {
    |a| == |b| && forall y | 0 <= y < |a| :: |a[y]| == |b[y]|
  }

  /** The pixel at row `y`, column `x`, or 0 outside the image. */
  function PixelOrZero(img: Image, y: int, x: int): Byte {
    if 0 <= y < |img| && 0 <= x < |img[y]| then img[y][x] else 0
  }

  // ---------------------------------------------------------------------------------------
  // Edge enhancement (processing.py:12): `img - gaussian_filter(img, 3)` on uint8 arrays.
  // ---------------------------------------------------------------------------------------

  /** uint8 subtraction: the difference modulo 256. */
  function WrappingSub(a: Byte, b: Byte): Byte {
    (a as int - b as int) % 256
  }

  /** Element-wise uint8 subtraction, wrapping around modulo 256 as numpy does. */
  function EdgeEnhance(img: Image, blurred: Image): (edges: Image)
    requires SameShape(img, blurred)
    ensures SameShape(edges, img)
  {
    seq(|img|, y requires 0 <= y < |img| =>
      seq(|img[y]|, x requires 0 <= x < |img[y]| => WrappingSub(img[y][x], blurred[y][x])))
  }

  /**
   * Each edge pixel is the difference when the pixel is at least as bright as its blurred
   * value, and wraps past 0 to the top of the byte range otherwise; adding the blurred value
   * back modulo 256 restores the original pixel.
   */
  lemma EdgeEnhanceWraps(img: Image, blurred: Image, y: int, x: int)
    requires SameShape(img, blurred)
    requires 0 <= y < |img| && 0 <= x < |img[y]|
    ensures var e := EdgeEnhance(img, blurred)[y][x];
      && (img[y][x] >= blurred[y][x] ==> e == img[y][x] as int - blurred[y][x] as int)
      && (img[y][x] < blurred[y][x] ==> e == img[y][x] as int - blurred[y][x] as int + 256)
      && (e as int + blurred[y][x] as int) % 256 == img[y][x]
  {
  }

  /** A dark pixel on a brighter blur wraps: 0 - 1 is 255, not -1 and not 0. */
  lemma EdgeEnhanceUnderflowExample()
    ensures EdgeEnhance([[0, 200]], [[1, 100]]) == [[255, 100]]
  {
    var img: Image, blurred: Image := [[0, 200]], [[1, 100]];
    var e := EdgeEnhance(img, blurred);
    assert |e| == 1 && |e[0]| == 2;
    assert e[0][0] == WrappingSub(0, 1) == 255;
    assert e[0][1] == WrappingSub(200, 100) == 100;
    assert e[0] == [255, 100];
  }

  // ---------------------------------------------------------------------------------------
  // Centering (processing.py:35-76)
  // ---------------------------------------------------------------------------------------

  /** Distance from the centre row to the nearer of the top and bottom edges. */
  function YDist(h: int, yc: int): int { Min(yc, h - yc) }

  /** Distance from the centre column to the nearer of the left and right edges. */
  function XDist(w: int, xc: int): int { Min(xc, w - xc) }

  /** Half the side of the square crop: the larger of the two distances. */
  function DistToEdge(h: int, w: int, yc: int, xc: int): (d: int)
    requires 0 <= yc < h && 0 <= xc < w
    ensures d >= 0
    ensures d == YDist(h, yc) || d == XDist(w, xc)
    ensures d >= YDist(h, yc) && d >= XDist(w, xc)
  {
    Max(YDist(h, yc), XDist(w, xc))
  }

  /** Which side gets zero rows or columns, and how many. */
  datatype Padding = NoPadding | Top(rows: nat) | Bottom(rows: nat) | Left(cols: nat) | Right(cols: nat)

  function RowsAdded(pad: Padding): nat {
    if pad.Top? || pad.Bottom? then pad.rows else 0
  }

  function ColsAdded(pad: Padding): nat {
    if pad.Left? || pad.Right? then pad.cols else 0
  }

  /** How far the original pixels move down. */
  function RowsAbove(pad: Padding): nat {
    if pad.Top? then pad.rows else 0
  }

  /** How far the original pixels move right. */
  function ColsBefore(pad: Padding): nat {
    if pad.Left? then pad.cols else 0
  }

  /** The padding `center_object` chooses for an `h` x `w` image centred at (yc, xc). */
  function PaddingFor(h: int, w: int, yc: int, xc: int): (pad: Padding)
    requires 0 <= yc < h && 0 <= xc < w
    ensures yc + RowsAbove(pad) >= DistToEdge(h, w, yc, xc)
    ensures xc + ColsBefore(pad) >= DistToEdge(h, w, yc, xc)
    ensures !pad.Top? ==> h + RowsAdded(pad) - yc >= DistToEdge(h, w, yc, xc)
    ensures !pad.Left? ==> w + ColsAdded(pad) - xc >= DistToEdge(h, w, yc, xc)
  {
    var yd, xd := YDist(h, yc), XDist(w, xc);
    if xd > yd then
      if yc - xd < 0 then Top(xd - yc) else Bottom(xd - yd)
    else if yd > xd then
      if xc - yd < 0 then Left(yd - xc) else Right(yd - xd)
    else
      NoPadding
  }

  /**
   * At most one axis is padded, on one side, by a positive amount: rows exactly when the
   * vertical distance is the strictly smaller one, columns exactly when the horizontal one
   * is, and nothing when they are equal.
   */
  lemma PaddingAxisRule(h: int, w: int, yc: int, xc: int)
    requires 0 <= yc < h && 0 <= xc < w
    ensures var pad := PaddingFor(h, w, yc, xc);
      && (pad.NoPadding? <==> YDist(h, yc) == XDist(w, xc))
      && ((pad.Top? || pad.Bottom?) <==> XDist(w, xc) > YDist(h, yc))
      && ((pad.Left? || pad.Right?) <==> YDist(h, yc) > XDist(w, xc))
      && RowsAdded(pad) == (if XDist(w, xc) > YDist(h, yc) then XDist(w, xc) - YDist(h, yc) + (if pad.Top? then YDist(h, yc) - yc else 0) else 0)
      && ColsAdded(pad) == (if YDist(h, yc) > XDist(w, xc) then YDist(h, yc) - XDist(w, xc) + (if pad.Left? then XDist(w, xc) - xc else 0) else 0)
      && (pad.Top? || pad.Bottom? ==> RowsAdded(pad) > 0)
      && (pad.Left? || pad.Right? ==> ColsAdded(pad) > 0)
  {
  }

  function Zeros(n: nat): (row: seq<Byte>)
    ensures |row| == n && forall x | 0 <= x < n :: row[x] == 0
  {
    seq(n, _ => 0 as Byte)
  }

  /** `np.append` of zero rows above or below, or of zero columns left or right. */
  function ZeroPad(img: Image, pad: Padding): Image
    requires |img| > 0
  {
    match pad
    case NoPadding => img
    case Top(n) => seq(n, _ => Zeros(|img[0]|)) + img
    case Bottom(n) => img + seq(n, _ => Zeros(|img[0]|))
    case Left(n) => seq(|img|, y requires 0 <= y < |img| => Zeros(n) + img[y])
    case Right(n) => seq(|img|, y requires 0 <= y < |img| => img[y] + Zeros(n))
  }

  /** `padded` is an H x W image showing `img` moved down by `dy` and right by `dx`, zero elsewhere. */
  predicate Shows(padded: Image, img: Image, H: int, W: int, dy: int, dx: int) {
    && IsGrid(padded, H, W)
    && forall y, x | 0 <= y < H && 0 <= x < W :: padded[y][x] == PixelOrZero(img, y - dy, x - dx)
  }

  /**
   * Padding grows the image by the padded amount, keeps every original pixel (moved down or
   * right by the amount padded on top or on the left) and fills the new cells with zeros.
   */
  lemma ZeroPadPixels(img: Image, pad: Padding)
    requires IsRectangular(img)
    ensures Shows(ZeroPad(img, pad), img, |img| + RowsAdded(pad), |img[0]| + ColsAdded(pad),
                  RowsAbove(pad), ColsBefore(pad))
  {
    var padded := ZeroPad(img, pad);
    var h, w := |img|, |img[0]|;
    assert |padded| == h + RowsAdded(pad);
    forall y | 0 <= y < h + RowsAdded(pad)
      ensures |padded[y]| == w + ColsAdded(pad)
      ensures forall x | 0 <= x < w + ColsAdded(pad) ::
        padded[y][x] == PixelOrZero(img, y - RowsAbove(pad), x - ColsBefore(pad))
    {
      match pad
      case NoPadding =>
      case Top(n) =>
        if y >= n { assert padded[y] == img[y - n]; }
      case Bottom(n) =>
        if y < h { assert padded[y] == img[y]; }
      case Left(n) =>
        assert padded[y] == Zeros(n) + img[y];
      case Right(n) =>
        assert padded[y] == img[y] + Zeros(n);
    }
  }

  /** Python's clamped slice `s[lo:hi]` for `0 <= lo <= hi`. */
  function Slice<T>(s: seq<T>, lo: nat, hi: int): (r: seq<T>)
    requires lo <= hi
    ensures |r| == Min(hi, |s|) - Min(lo, |s|)
    ensures forall k | 0 <= k < |r| :: r[k] == s[lo + k]
  {
    s[Min(lo, |s|)..Min(hi, |s|)]
  }

  /** numpy's `img[top:bottom, left:right]` on a 2-D array. */
  function Crop(img: Image, top: nat, bottom: int, left: nat, right: int): Image
    requires top <= bottom && left <= right
  {
    var rows := Slice(img, top, bottom);
    seq(|rows|, y requires 0 <= y < |rows| => Slice(rows[y], left, right))
  }

  /** Rows of the crop: 2d, except that padding on top alone cannot reach 2d past the bottom. */
  function CropHeight(h: int, w: int, yc: int, xc: int): nat
    requires 0 <= yc < h && 0 <= xc < w
  {
    var d := DistToEdge(h, w, yc, xc);
    if PaddingFor(h, w, yc, xc).Top? then Min(2 * d, h - yc + d) else 2 * d
  }

  /** Columns of the crop: 2d, except that padding on the left alone cannot reach 2d past the right. */
  function CropWidth(h: int, w: int, yc: int, xc: int): nat
    requires 0 <= yc < h && 0 <= xc < w
  {
    var d := DistToEdge(h, w, yc, xc);
    if PaddingFor(h, w, yc, xc).Left? then Min(2 * d, w - xc + d) else 2 * d
  }

  /** The `rows` x `cols` block whose top-left pixel is (y0, x0), zero outside the image. */
  function Window(img: Image, y0: int, x0: int, rows: nat, cols: nat): Image {
    seq(rows, i => seq<Byte>(cols, j => PixelOrZero(img, y0 + i, x0 + j)))
  }

  /**
   * What `center_object` returns, described directly: the window of half-width d around the
   * centre, reading 0 wherever the window leaves the original image.
   */
  function CenteredWindow(img: Image, yc: int, xc: int): Image
    requires IsRectangular(img) && 0 <= yc < |img| && 0 <= xc < |img[0]|
  {
    var h, w := |img|, |img[0]|;
    var d := DistToEdge(h, w, yc, xc);
    Window(img, yc - d, xc - d, CropHeight(h, w, yc, xc), CropWidth(h, w, yc, xc))
  }

  /** After padding, the crop window starts inside the padded image on both axes. */
  lemma CropStartsInside(h: int, w: int, yc: int, xc: int)
    requires 0 <= yc < h && 0 <= xc < w
    ensures var pad, d := PaddingFor(h, w, yc, xc), DistToEdge(h, w, yc, xc);
      && 0 <= yc + RowsAbove(pad) - d <= h + RowsAdded(pad)
      && 0 <= xc + ColsBefore(pad) - d <= w + ColsAdded(pad)
  {
  }

  /** The crop is exactly 2d along the axis whose distance to the edge is the larger one. */
  lemma CropLongerAxisExact(h: int, w: int, yc: int, xc: int)
    requires 0 <= yc < h && 0 <= xc < w
    ensures XDist(w, xc) >= YDist(h, yc) ==> CropWidth(h, w, yc, xc) == 2 * DistToEdge(h, w, yc, xc)
    ensures YDist(h, yc) >= XDist(w, xc) ==> CropHeight(h, w, yc, xc) == 2 * DistToEdge(h, w, yc, xc)
  {
  }

  /** Without padding, or with padding below or to the right, the crop is a 2d x 2d square. */
  lemma CropSquareUnlessTopOrLeft(h: int, w: int, yc: int, xc: int)
    requires 0 <= yc < h && 0 <= xc < w
    requires !PaddingFor(h, w, yc, xc).Top? && !PaddingFor(h, w, yc, xc).Left?
    ensures CropHeight(h, w, yc, xc) == CropWidth(h, w, yc, xc) == 2 * DistToEdge(h, w, yc, xc)
  {
  }

  /**
   * Padding on top can leave the crop short of square: a 5 x 8 image centred at (2, 4) has
   * d = 4, is padded with 2 rows on top, and crops to 7 rows of 8 pixels.
   */
  lemma TopPaddedCropCanBeShort()
    ensures PaddingFor(5, 8, 2, 4) == Top(2)
    ensures DistToEdge(5, 8, 2, 4) == 4
    ensures CropHeight(5, 8, 2, 4) == 7 && CropWidth(5, 8, 2, 4) == 8
  {
  }

  /**
   * The crop window of the padded image starts inside it, and its clamped slices have exactly
   * the crop's height and width.
   */
  lemma CropExtent(h: int, w: int, yc: int, xc: int, top: int, bottom: int, left: int, right: int)
    requires 0 <= yc < h && 0 <= xc < w
    requires top == yc + RowsAbove(PaddingFor(h, w, yc, xc)) - DistToEdge(h, w, yc, xc)
    requires left == xc + ColsBefore(PaddingFor(h, w, yc, xc)) - DistToEdge(h, w, yc, xc)
    requires bottom == top + 2 * DistToEdge(h, w, yc, xc)
    requires right == left + 2 * DistToEdge(h, w, yc, xc)
    ensures 0 <= top <= bottom && top <= h + RowsAdded(PaddingFor(h, w, yc, xc))
    ensures 0 <= left <= right && left <= w + ColsAdded(PaddingFor(h, w, yc, xc))
    ensures Min(bottom, h + RowsAdded(PaddingFor(h, w, yc, xc))) - top == CropHeight(h, w, yc, xc)
    ensures Min(right, w + ColsAdded(PaddingFor(h, w, yc, xc))) - left == CropWidth(h, w, yc, xc)
  {
    CropStartsInside(h, w, yc, xc);
  }

  /** Slicing an image that shows `img` shifted by (dy, dx) gives a window of `img`. */
  lemma CropIsWindow(img: Image, padded: Image, H: nat, W: nat, dy: int, dx: int,
                     top: nat, bottom: int, left: nat, right: int, y0: int, x0: int, rows: nat, cols: nat)
    requires Shows(padded, img, H, W, dy, dx) && top <= bottom && top <= H && left <= right && left <= W
    requires y0 == top - dy && x0 == left - dx
    requires rows == Min(bottom, H) - top && cols == Min(right, W) - left
    ensures Crop(padded, top, bottom, left, right) == Window(img, y0, x0, rows, cols)
  {
    var cropped := Crop(padded, top, bottom, left, right);
    var window := Window(img, y0, x0, rows, cols);
    var rows := Slice(padded, top, bottom);
    assert |cropped| == |window|;
    forall i | 0 <= i < |rows|
      ensures cropped[i] == window[i]
    {
      var row := Slice(rows[i], left, right);
      assert rows[i] == padded[top + i];
      assert |row| == |window[i]|;
      forall j | 0 <= j < |row|
        ensures row[j] == window[i][j]
      {
        assert row[j] == padded[top + i][left + j];
      }
    }
  }

  /**
   * The padding half of `center_object`: append zero rows or columns on the side the square
   * would overhang, moving the centre with the image when the rows or columns go on top or
   * on the left. The result shows the image shifted as PaddingFor prescribes.
   */
  method PadToSquare(img: Image, yc: int, xc: int) returns (padded: Image, yCenter: int, xCenter: int)
    requires IsRectangular(img) && 0 <= yc < |img| && 0 <= xc < |img[0]|
    ensures var pad := PaddingFor(|img|, |img[0]|, yc, xc);
      && Shows(padded, img, |img| + RowsAdded(pad), |img[0]| + ColsAdded(pad), RowsAbove(pad), ColsBefore(pad))
      && yCenter == yc + RowsAbove(pad) && xCenter == xc + ColsBefore(pad)
  {
    var h, w := |img|, |img[0]|;
    ghost var pad := PaddingFor(h, w, yc, xc);
    yCenter, xCenter := yc, xc;
    var yDist := YDist(h, yCenter);
    var xDist := XDist(w, xCenter);
    padded := img;
    if xDist > yDist {
      if yCenter - xDist < 0 {
        var overhang := xDist - yCenter;
        assert pad == Top(overhang);
        padded := ZeroPad(padded, Top(overhang));
        yCenter := yCenter + overhang;
      } else {
        var overhang := xDist - yDist;
        assert pad == Bottom(overhang);
        padded := ZeroPad(padded, Bottom(overhang));
      }
    }
    if yDist > xDist {
      if xCenter - yDist < 0 {
        var overhang := yDist - xCenter;
        assert pad == Left(overhang);
        padded := ZeroPad(padded, Left(overhang));
        xCenter := xCenter + overhang;
      } else {
        var overhang := yDist - xDist;
        assert pad == Right(overhang);
        padded := ZeroPad(padded, Right(overhang));
      }
    }
    assert padded == ZeroPad(img, pad);
    ZeroPadPixels(img, pad);
  }

  /** CenteredWindow is the window at the corner (yc - d, xc - d) of the crop's height and width. */
  lemma CenteredWindowCorner(img: Image, yc: int, xc: int, y0: int, x0: int, rows: nat, cols: nat)
    requires IsRectangular(img) && 0 <= yc < |img| && 0 <= xc < |img[0]|
    requires y0 == yc - DistToEdge(|img|, |img[0]|, yc, xc) && x0 == xc - DistToEdge(|img|, |img[0]|, yc, xc)
    requires rows == CropHeight(|img|, |img[0]|, yc, xc) && cols == CropWidth(|img|, |img[0]|, yc, xc)
    ensures CenteredWindow(img, yc, xc) == Window(img, y0, x0, rows, cols)
  {
  }

  /**
   * `center_object` from the integer-truncated centre of mass: pad one axis with zeros so a
   * square of half-width `dist_to_edge` fits around the centre, then slice it out.
   */
  method CenterObject(img: Image, yc: int, xc: int) returns (cropped: Image)
    requires IsRectangular(img) && 0 <= yc < |img| && 0 <= xc < |img[0]|
    ensures cropped == CenteredWindow(img, yc, xc)
  {
    var h, w := |img|, |img[0]|;
    var dist := DistToEdge(h, w, yc, xc);
    var padded, yCenter, xCenter := PadToSquare(img, yc, xc);
    var top, bottom, left, right := yCenter - dist, yCenter + dist, xCenter - dist, xCenter + dist;
    ghost var pad := PaddingFor(h, w, yc, xc);
    ghost var y0, x0, rows, cols := yc - dist, xc - dist, CropHeight(h, w, yc, xc), CropWidth(h, w, yc, xc);
    CropExtent(h, w, yc, xc, top, bottom, left, right);
    CropIsWindow(img, padded, h + RowsAdded(pad), w + ColsAdded(pad), RowsAbove(pad), ColsBefore(pad),
                 top, bottom, left, right, y0, x0, rows, cols);
    CenteredWindowCorner(img, yc, xc, y0, x0, rows, cols);
    cropped := Crop(padded, top, bottom, left, right);
  }

  // ---------------------------------------------------------------------------------------
  // Squaring, flattening and doubling (processing.py:18-31)
  // ---------------------------------------------------------------------------------------

  /** PIL's `img.size` of a 2-D array: (width, height). */
  function Size(img: Image): (int, int) {
    (if |img| > 0 then |img[0]| else 0, |img|)
  }

  /** The squaring rule: the shorter side is stretched to the longer one. */
  method SquareUp(w: int, h: int) returns (sw: int, sh: int)
    ensures sw == sh
    ensures sw >= w && sw >= h
    ensures sw == w || sw == h
  {
    sw, sh := w, h;
    if sw > sh {
      sh := sw;
    } else {
      sw := sh;
    }
  }

  /** `np.reshape(img, n)` reads the pixels row by row: no pixel is lost or made up. */
  function Flatten(img: Image): (flat: seq<Byte>)
    ensures forall v :: v in flat <==> exists y | 0 <= y < |img| :: v in img[y]
  {
    if img == [] then [] else img[0] + Flatten(img[1..])
  }

  /** An h x w image flattens to h * w pixels. */
  lemma {:induction false} FlattenLength(img: Image, h: nat, w: nat)
    requires IsGrid(img, h, w)
    ensures |Flatten(img)| == h * w
  {
    if h > 0 {
      assert IsGrid(img[1..], h - 1, w);
      FlattenLength(img[1..], h - 1, w);
      assert (h - 1) * w + w == h * w;
    }
  }

  /** Pixel (y, x) of an h x w image lands at position y * w + x of the flattened vector. */
  lemma {:induction false} FlattenAt(img: Image, h: nat, w: nat, y: nat, x: nat)
    requires IsGrid(img, h, w) && y < h && x < w
    ensures y * w + x < |Flatten(img)| && Flatten(img)[y * w + x] == img[y][x]
  {
    var rest := img[1..];
    assert Flatten(img) == img[0] + Flatten(rest);
    assert IsGrid(rest, h - 1, w);
    FlattenLength(rest, h - 1, w);
    if y > 0 {
      FlattenAt(rest, h - 1, w, y - 1, x);
      assert y * w + x == w + ((y - 1) * w + x);
      assert img[y] == rest[y - 1];
    }
  }

  /** The length of the vector the SOM reads: 28 x 28 pixels. */
  const FeatureLength := 784

  /**
   * `np.reshape(img, 784)` followed by `np.concatenate(([img], [img]))`: numpy refuses the
   * reshape unless the image holds exactly 784 pixels.
   */
  function ReshapeAndDouble(img: Image): (r: Result<seq<seq<Byte>>>)
    ensures r.Ok? <==> |Flatten(img)| == FeatureLength
    ensures r.Ok? ==> |r.value| == 2 && r.value[0] == r.value[1] == Flatten(img)
  {
    var flat := Flatten(img);
    if |flat| != FeatureLength then Err("cannot reshape array into shape (784,)")
    else Ok([flat, flat])
  }

  /** A 28 x 28 thumbnail always reshapes: two equal rows holding its pixels row by row. */
  lemma ThumbnailReshapes(img: Image)
    requires IsGrid(img, 28, 28)
    ensures ReshapeAndDouble(img).Ok?
    ensures forall k | 0 <= k < 2 :: |ReshapeAndDouble(img).value[k]| == FeatureLength
    ensures forall y, x | 0 <= y < 28 && 0 <= x < 28 ::
      ReshapeAndDouble(img).value[1][y * 28 + x] == img[y][x]
  {
    FlattenLength(img, 28, 28);
    forall y, x | 0 <= y < 28 && 0 <= x < 28
      ensures Flatten(img)[y * 28 + x] == img[y][x]
    {
      FlattenAt(img, 28, 28, y, x);
    }
  }

  /**
   * `preprocess`: edge step, centering, squaring, PIL resize and thumbnail, reshape and
   * doubling.  `blurred` is `gaussian_filter(img, 3)`, (yc, xc) the truncated centre of mass
   * of the edge image, and `resize`/`thumbnail` stand for PIL's `Image.resize` and
   * `Image.thumbnail((28, 28))`.
   */
  method Preprocess(img: Image, blurred: Image, yc: int, xc: int,
                    resize: (Image, int, int) -> Image, thumbnail: Image -> Image)
    returns (r: Result<seq<seq<Byte>>>)
    requires IsRectangular(img) && SameShape(img, blurred)
    requires 0 <= yc < |img| && 0 <= xc < |img[0]|
    ensures var h, w := |img|, |img[0]|;
      var side := Max(CropWidth(h, w, yc, xc), CropHeight(h, w, yc, xc));
      r == ReshapeAndDouble(thumbnail(resize(CenteredWindow(EdgeEnhance(img, blurred), yc, xc), side, side)))
    ensures r.Ok? ==> |r.value| == 2 && r.value[0] == r.value[1] && |r.value[0]| == FeatureLength
  {
    var edges := EdgeEnhance(img, blurred);
    assert IsRectangular(edges) && |edges| == |img| && |edges[0]| == |img[0]|;
    var centred := CenterObject(edges, yc, xc);
    var w, h := Size(centred).0, Size(centred).1;
    assert h == CropHeight(|img|, |img[0]|, yc, xc);
    assert h > 0 ==> w == CropWidth(|img|, |img[0]|, yc, xc);
    w, h := SquareUp(w, h);
    var scaled := resize(centred, w, h);
    scaled := thumbnail(scaled);
    r := ReshapeAndDouble(scaled);
  }

  // ---------------------------------------------------------------------------------------
  // Data-URI framing (processing.py:79-91)
  // ---------------------------------------------------------------------------------------

  const DataUriPrefix := "data:image/png;base64,"

  /** `encode_image` after PIL has written the PNG bytes. */
  function EncodeImage(png: seq<Byte>): (uri: string)
    ensures |uri| == |DataUriPrefix| + 4 * ((|png| + 2) / 3)
  {
    DataUriPrefix + Base64.Encode(png)
  }

  /**
   * `decode_image` up to PIL's PNG reader: `b64decode(img[21:])`.  Python's `img[21:]` is
   * empty for a text of at most 21 characters, which decodes to no bytes.
   */
  function DecodeImage(uri: string): (r: Result<seq<Byte>>)
    ensures |uri| <= 21 ==> r == Ok([])
    ensures |uri| > 21 && !Base64.IsAscii(uri[21..]) ==> r.Err?
  {
    Base64.LenientDecode(if |uri| >= 21 then uri[21..] else [])
  }

  /** The prefix is 22 characters and ends in a comma, so dropping 21 leaves the comma. */
  lemma EncodeImageFraming(png: seq<Byte>)
    ensures |DataUriPrefix| == 22 && EncodeImage(png)[..22] == DataUriPrefix
    ensures EncodeImage(png)[21..] == "," + Base64.Encode(png)
  {
    var uri, text := EncodeImage(png), Base64.Encode(png);
    assert |DataUriPrefix| == 22 && DataUriPrefix[21] == ',';
    assert uri[..22] == DataUriPrefix && uri[22..] == text;
    DropFirst(uri[21..]);
  }

  /** A non-empty sequence is its first element followed by the rest. */
  lemma DropFirst<T>(s: seq<T>)
    requires |s| > 0
    ensures s == [s[0]] + s[1..]
  {
  }

  /** Decoding an encoded image gives back its PNG bytes: the stray comma is discarded. */
  lemma DecodeEncodeImage(png: seq<Byte>)
    ensures DecodeImage(EncodeImage(png)) == Ok(png)
  {
    EncodeImageFraming(png);
    Base64.LenientDecodeSkipsPrefix(",", png);
  }

  /** A validating decoder would reject what `decode_image` hands it: the comma is extra. */
  lemma StrictDecodeRejectsComma(png: seq<Byte>)
    ensures Base64.Decode(EncodeImage(png)[21..]).Err?
  {
    EncodeImageFraming(png);
    Base64.StrictDecodeNeedsWholeGroups(EncodeImage(png)[21..]);
  }
}
