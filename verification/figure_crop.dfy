/**
 `save_figure`: the first element the layout model labels "Figure" is
 cut out of the page image, its left edge moved 50 pixels outwards, and
 written with its channel order reversed next to the page image under a
 `_graph.jpg` name. Detection, image reading and writing are inputs: the
 layout the model returned (or None when it raised) and the decoded image
 (or None when it could not be read).
 */
module FigureCrop {
  import opened Basics
  import opened Paths

  /** One detected layout element: its type and its box corners, as integers. */
  datatype Element = Element(kind: string, x1: int, y1: int, x2: int, y2: int)

  const FigureKind: string := "Figure"

  /** How far the crop's left edge is moved outwards. */
  const LeftPad: nat := 50

  /** Position of the first figure in the layout, or `|layout|` when there is none. */
  function FigureIndex(layout: seq<Element>): (i: nat)
    ensures i <= |layout|
    ensures i < |layout| ==> layout[i].kind == FigureKind
    ensures forall j :: 0 <= j < i ==> layout[j].kind != FigureKind
    decreases |layout|
  {
    if |layout| == 0 || layout[0].kind == FigureKind then 0 else 1 + FigureIndex(layout[1..])
  }

  /** The first element, in detection order, whose type is "Figure". */
  function FirstFigure(layout: seq<Element>): (r: Option<Element>)
    ensures r.None? <==> forall i :: 0 <= i < |layout| ==> layout[i].kind != FigureKind
    ensures r.Some? ==> exists i :: 0 <= i < |layout| && layout[i] == r.value
                                 && r.value.kind == FigureKind
                                 && forall j :: 0 <= j < i ==> layout[j].kind != FigureKind
  {
    var i := FigureIndex(layout);
    if i < |layout| then Some(layout[i]) else None
  }

  /** The padded left edge: 50 pixels further left, but never before column 0. */
  function PadLeft(x1: int): (x: int)
    ensures x >= 0 && x >= x1 - LeftPad
    ensures x == 0 || x == x1 - LeftPad
    ensures x1 >= 0 ==> x <= x1 && x1 - x <= LeftPad
  {
    if x1 - LeftPad > 0 then x1 - LeftPad else 0
  }

  // ---------------------------------------------------------------------
  // Images and slicing

  /** One pixel: its channel values in storage order. */
  type Pixel = seq<int>

  /** A decoded image: rows of pixels, every row `width` pixels long. */
  datatype Image = Image(rows: seq<seq<Pixel>>, width: nat) {
    predicate Valid() {
      forall r :: 0 <= r < |rows| ==> |rows[r]| == width
    }

    predicate IsEmpty() {
      |rows| == 0 || width == 0
    }
  }

  /**
   Where a slice bound `i` falls on an axis of length `n`, as Python and
   numpy read it: a negative bound counts from the end, and the result is
   clamped to the axis.
   */
  function SliceBound(i: int, n: nat): (b: nat)
    ensures b <= n
    ensures 0 <= i <= n ==> b == i
    ensures i > n ==> b == n
    ensures i < 0 && i + n >= 0 ==> b == i + n
    ensures i + n < 0 ==> b == 0
  {
    if i < 0 then (if i + n < 0 then 0 else i + n)
    else if i > n then n
    else i
  }

  /** The number of positions a slice `[lo:hi]` takes from an axis of length `n`. */
  function SliceLength(lo: int, hi: int, n: nat): (l: nat)
    ensures SliceBound(lo, n) + l <= n
  {
    var a, b := SliceBound(lo, n), SliceBound(hi, n);
    if a <= b then b - a else 0
  }

  /** `s[lo:hi]` with Python's slice semantics. */
  function Slice<T>(s: seq<T>, lo: int, hi: int): (r: seq<T>)
    ensures |r| == SliceLength(lo, hi, |s|)
    ensures forall k :: 0 <= k < |r| ==> r[k] == s[SliceBound(lo, |s|) + k]
  {
    var a, b := SliceBound(lo, |s|), SliceBound(hi, |s|);
    if a <= b then s[a..b] else []
  }

  /** `image[y1:y2, x1:x2]`: the rows `[y1, y2)` and, in each, the columns `[x1, x2)`. */
  function Crop(img: Image, y1: int, y2: int, x1: int, x2: int): (c: Image)
    requires img.Valid()
    ensures c.Valid()
    ensures |c.rows| == SliceLength(y1, y2, |img.rows|) && c.width == SliceLength(x1, x2, img.width)
    ensures forall r, q :: 0 <= r < |c.rows| && 0 <= q < c.width ==>
      c.rows[r][q] == img.rows[SliceBound(y1, |img.rows|) + r][SliceBound(x1, img.width) + q]
    ensures 0 <= y1 <= y2 <= |img.rows| && 0 <= x1 <= x2 <= img.width ==>
      |c.rows| == y2 - y1 && c.width == x2 - x1
  {
    var band := Slice(img.rows, y1, y2);
    Image(SliceColumns(band, img.width, x1, x2), SliceLength(x1, x2, img.width))
  }

  /** `rows[:, x1:x2]`: the columns `[x1, x2)` of every row. */
  function SliceColumns(rows: seq<seq<Pixel>>, width: nat, x1: int, x2: int): (out: seq<seq<Pixel>>)
    requires forall r :: 0 <= r < |rows| ==> |rows[r]| == width
    ensures |out| == |rows|
    ensures forall r :: 0 <= r < |out| ==> |out[r]| == SliceLength(x1, x2, width)
    ensures forall r, q :: 0 <= r < |out| && 0 <= q < SliceLength(x1, x2, width) ==> out[r][q] == rows[r][SliceBound(x1, width) + q]
  {
    seq(|rows|, r requires 0 <= r < |rows| => Slice(rows[r], x1, x2))
  }

  /** A pixel with its channels in the opposite order (`[..., ::-1]`). */
  function Reverse(p: Pixel): (r: Pixel)
    ensures |r| == |p|
    ensures forall i :: 0 <= i < |p| ==> r[i] == p[|p| - 1 - i]
  {
    seq(|p|, i requires 0 <= i < |p| => p[|p| - 1 - i])
  }

  /** The image with every pixel's channel order reversed (BGR to RGB and back). */
  function ReverseChannels(img: Image): (out: Image)
    requires img.Valid()
    ensures out.Valid() && |out.rows| == |img.rows| && out.width == img.width
    ensures forall r, q :: 0 <= r < |img.rows| && 0 <= q < img.width ==> out.rows[r][q] == Reverse(img.rows[r][q])
  {
    Image(seq(|img.rows|, r requires 0 <= r < |img.rows| =>
      seq(img.width, q requires 0 <= q < img.width => Reverse(img.rows[r][q]))), img.width)
  }

  /** Reversing the channel order twice gives back the image. */
  lemma ReverseChannelsTwice(img: Image)
    requires img.Valid()
    ensures ReverseChannels(ReverseChannels(img)) == img
  {
    var twice := ReverseChannels(ReverseChannels(img));
    forall r | 0 <= r < |img.rows|
      ensures twice.rows[r] == img.rows[r]
    {
      forall q | 0 <= q < img.width
        ensures twice.rows[r][q] == img.rows[r][q]
      {
        ReverseTwice(img.rows[r][q]);
      }
    }
  }

  lemma ReverseTwice(p: Pixel)
    ensures Reverse(Reverse(p)) == p
  {
  }

  // ---------------------------------------------------------------------
  // save_figure

  /** The exception `save_figure` lets escape. */
  datatype FigureError = ImageNotFound(path: string)

  /** A figure written to disk: where, and the pixels written. */
  datatype Figure = Figure(path: string, image: Image)

  /** The name the figure of page image `imageName` is written under. */
  function FigurePath(imageDir: string, imageName: string): string {
    PathJoin(imageDir, ReplaceAll(imageName, Jpg, GraphJpg))
  }

  /**
   `save_figure(image_name)`. `imageExists` is whether the page image is
   on disk, `modelLoaded` whether a layout model is available, `image`
   the decoded page (None when it cannot be read) and `layout` the model's
   detections (None when detection raises). The result is the written
   figure, None when nothing was written, or the FileNotFoundError.
   */
  function SaveFigure(imageDir: string, imageName: string, imageExists: bool, modelLoaded: bool,
                      image: Option<Image>, layout: Option<seq<Element>>): (r: Result<Option<Figure>, FigureError>)
    requires image.Some? ==> image.value.Valid()
    ensures r.Failure? <==> !imageExists
    ensures r.Failure? ==> r.error == ImageNotFound(PathJoin(imageDir, imageName))
    ensures imageExists && !modelLoaded ==> r == Success(None)
    ensures r.Success? && r.value.Some? ==>
      && modelLoaded && image.Some? && layout.Some? && FirstFigure(layout.value).Some?
      && r.value.value.path == FigurePath(imageDir, imageName)
      && !r.value.value.image.IsEmpty()
    ensures r.Success? && r.value.Some? ==>
      r.value.value.image == Written(image.value, FirstFigure(layout.value).value)
  {
    if !imageExists then Failure(ImageNotFound(PathJoin(imageDir, imageName)))
    else if !modelLoaded then Success(None)
    else if image.None? || layout.None? then Success(None)
    else
      match FirstFigure(layout.value)
      case None => Success(None)
      case Some(e) =>
        var cropped := Crop(image.value, e.y1, e.y2, PadLeft(e.x1), e.x2);
        // writing an empty array raises inside cv2.imwrite and is caught
        if cropped.IsEmpty() then Success(None)
        else Success(Some(Figure(FigurePath(imageDir, imageName), Written(image.value, e))))
  }

  /**
   The pixels written for figure `e`: the padded box cut out of the page,
   every pixel with its channels reversed.
   */
  function Written(img: Image, e: Element): (out: Image)
    requires img.Valid()
    ensures var top, left := SliceBound(e.y1, |img.rows|), SliceBound(PadLeft(e.x1), img.width);
      && out.Valid()
      && |out.rows| == SliceLength(e.y1, e.y2, |img.rows|)
      && out.width == SliceLength(PadLeft(e.x1), e.x2, img.width)
      && top + |out.rows| <= |img.rows| && left + out.width <= img.width
      && forall r, q :: 0 <= r < |out.rows| && 0 <= q < out.width ==>
        out.rows[r][q] == Reverse(img.rows[top + r][left + q])
  {
    ReverseChannels(Crop(img, e.y1, e.y2, PadLeft(e.x1), e.x2))
  }

  /**
   With the first figure's padded box inside the page, the written figure
   is `(y2 - y1)` rows by `(x2 - max(0, x1 - 50))` columns.
   */
  lemma SavedFigureSize(imageDir: string, imageName: string, img: Image, layout: seq<Element>)
    requires img.Valid()
    requires FirstFigure(layout).Some?
    requires var e := FirstFigure(layout).value;
      0 <= e.y1 < e.y2 <= |img.rows| && 0 <= e.x1 && PadLeft(e.x1) < e.x2 <= img.width
    ensures var r := SaveFigure(imageDir, imageName, true, true, Some(img), Some(layout));
      var e := FirstFigure(layout).value;
      && r == Success(Some(r.value.value))
      && |r.value.value.image.rows| == e.y2 - e.y1
      && r.value.value.image.width == e.x2 - PadLeft(e.x1)
  {
  }

  /**
   A page image named `stem.jpg` (with no other `.jpg` in the stem) has its
   figure written as `stem_graph.jpg` in the same directory.
   */
  lemma FigurePathOfJpg(imageDir: string, stem: string)
    requires !Contains(stem, Jpg)
    ensures FigurePath(imageDir, stem + Jpg) == PathJoin(imageDir, stem + GraphJpg)
  {
    GraphName(stem);
  }
}
