/** The composition step of create_tif: a white RGB canvas of the computed
    size, and one paste per image in list order, row by row. */
module Compositor {
  import opened Layout

  /** An opened and resized source image, kept opaque: the list index it was
      read from and the path it was opened at. */
  datatype Resized = Resized(index: nat, path: string)

  /** A canvas pixel: an RGB colour, or pixel (dx, dy) of a pasted image. */
  datatype Pixel = Rgb(red: nat, green: nat, blue: nat) | Photo(image: Resized, dx: int, dy: int)

  /** The background colour Image.new is given. */
  const White: Pixel := Rgb(255, 255, 255)

  /** One paste: which image went where (its upper-left corner). */
  datatype Placement = Placement(image: Resized, corner: Point)

  /** The pixel at (a, b) once the first k images of files have been pasted:
      the pixel of the image whose cell holds (a, b), if it is among the
      first k, and the background otherwise. */
  function Painted(files: seq<string>, k: nat, a: int, b: int): (p: Pixel)
    requires k <= |files|
    ensures p == White || (p.Photo? && p.image.index < k && InCell(p.image.index, a, b)
                           && p == Photo(Resized(p.image.index, files[p.image.index]),
                                         a - Offset(p.image.index).x, b - Offset(p.image.index).y))
  {
    match CellAt(a, b)
    case Some(i) =>
      CellAtInverse(i, a, b);
      if i < k then Photo(Resized(i, files[i]), a - Offset(i).x, b - Offset(i).y) else White
    case None => White
  }

  /** Pasting image k over the first k changes exactly the pixels of cell k. */
  lemma PaintedStep(files: seq<string>, k: nat, a: int, b: int)
    requires k < |files|
    ensures Painted(files, k + 1, a, b) ==
      if InCell(k, a, b) then Photo(Resized(k, files[k]), a - Offset(k).x, b - Offset(k).y)
      else Painted(files, k, a, b)
  {
    CellAtInverse(k, a, b);
  }

  /** What the finished canvas shows, stated by the paste rectangles alone: a
      pixel inside the cell of some image shows that image, at its offset
      within the cell, and a pixel that no paste covers is white. In
      particular an empty list leaves the whole canvas white. */
  lemma PaintedMeaning(files: seq<string>, a: int, b: int)
    ensures forall i :: 0 <= i < |files| && InCell(i, a, b) ==>
      Painted(files, |files|, a, b) == Photo(Resized(i, files[i]), a - Offset(i).x, b - Offset(i).y)
    ensures (forall i :: 0 <= i < |files| ==> !InCell(i, a, b)) ==>
      Painted(files, |files|, a, b) == White
  {
    forall i | 0 <= i < |files| && InCell(i, a, b)
      ensures Painted(files, |files|, a, b) == Photo(Resized(i, files[i]), a - Offset(i).x, b - Offset(i).y)
    {
      CellAtInverse(i, a, b);
    }
    match CellAt(a, b)
    case Some(j) =>
      CellAtInverse(j, a, b);
    case None =>
  }

  /** The slots of the grid past the last image (the end of a final row that
      is not full) stay white. */
  lemma TrailingCellsWhite(files: seq<string>, p: nat, a: int, b: int)
    requires |files| <= p && InCell(p, a, b)
    ensures Painted(files, |files|, a, b) == White
  {
    CellAtInverse(p, a, b);
  }

  /** The four-wide loop grid of create_tif has 4 * rows slots. The slots
      past the last image number 4 - (n mod 4) when n is not a multiple of
      four, and none when it is. From four images on, each such slot is a
      cell of the canvas (and stays white by TrailingCellsWhite); with one to
      four images the canvas is exactly n cells wide and one row high, so it
      has no empty cell. */
  lemma TrailingSlots(n: nat)
    ensures n % ColumnLimit != 0 ==> ColumnLimit * StringsCount(n) - n == ColumnLimit - n % ColumnLimit
    ensures n % ColumnLimit == 0 ==> ColumnLimit * StringsCount(n) == n
    ensures 1 <= n <= ColumnLimit ==> ColumnCount(n) * StringsCount(n) == n
    ensures n >= ColumnLimit ==> forall p :: n <= p < ColumnLimit * StringsCount(n) ==>
      Offset(p).x + ImageSize + LeftMargin <= CanvasSize(n).width &&
      Offset(p).y + ImageSize + TopMargin <= CanvasSize(n).height
  {
    DivModUnique(n + ColumnLimit - 1, ColumnLimit, StringsCount(n), (n + ColumnLimit - 1) % ColumnLimit);
    if n >= ColumnLimit {
      forall p | n <= p < ColumnLimit * StringsCount(n)
        ensures Offset(p).x + ImageSize + LeftMargin <= CanvasSize(n).width
        ensures Offset(p).y + ImageSize + TopMargin <= CanvasSize(n).height
      {
        DivModUnique(p, ColumnLimit, p / ColumnLimit, p % ColumnLimit);
        assert p / ColumnLimit < StringsCount(n);
        var k := StringsCount(n) - 1 - p / ColumnLimit;
        assert CanvasSize(n).height == Offset(p).y + ImageSize + TopMargin + Stride * k;
      }
    }
  }

  /** Image.paste with the upper-left corner at (x, y): every canvas pixel the
      image covers is overwritten with the image's pixel, every other pixel is
      kept, and whatever falls outside the canvas is clipped. */
  method Paste(canvas: array2<Pixel>, image: Resized, x: int, y: int)
    modifies canvas
    ensures forall a, b :: 0 <= a < canvas.Length0 && 0 <= b < canvas.Length1 ==>
      canvas[a, b] == if Covers(x, y, a, b) then Photo(image, a - x, b - y) else old(canvas[a, b])
  {
    var left, right := Clamp(x, canvas.Length0), Clamp(x + ImageSize, canvas.Length0);
    var top, bottom := Clamp(y, canvas.Length1), Clamp(y + ImageSize, canvas.Length1);
    for a := left to right
      invariant forall a', b' :: 0 <= a' < canvas.Length0 && 0 <= b' < canvas.Length1 ==>
        canvas[a', b'] == if a' < a && Covers(x, y, a', b') then Photo(image, a' - x, b' - y)
                          else old(canvas[a', b'])
    {
      for b := top to bottom
        invariant forall a', b' :: 0 <= a' < canvas.Length0 && 0 <= b' < canvas.Length1 ==>
          canvas[a', b'] == if (a' < a || (a' == a && b' < b)) && Covers(x, y, a', b')
                            then Photo(image, a' - x, b' - y)
                            else old(canvas[a', b'])
      {
        canvas[a, b] := Photo(image, a - x, b - y);
      }
    }
  }

  /** v limited to the range 0 .. bound. */
  function Clamp(v: int, bound: nat): (r: nat)
    ensures r <= bound
    ensures 0 <= v <= bound ==> r == v
    ensures v < 0 ==> r == 0
    ensures v > bound ==> r == bound
  {
    if v < 0 then 0 else if v > bound then bound else v
  }

  /** create_tif without the final save: allocates the white canvas of
      CanvasSize, then walks the rows w and the four column slots y, pasting
      files[photoNumber] at (75 + 200 y, 125 + 200 w) and leaving the column
      loop once the last image is placed. Every image is pasted exactly once,
      in list order, into its own cell, and the canvas ends up as Painted
      describes. */
  method CreateTif(files: seq<string>) returns (tif: array2<Pixel>, pastes: seq<Placement>)
    ensures tif.Length0 == CanvasSize(|files|).width && tif.Length1 == CanvasSize(|files|).height
    ensures forall a, b :: 0 <= a < tif.Length0 && 0 <= b < tif.Length1 ==>
      tif[a, b] == Painted(files, |files|, a, b)
    ensures |pastes| == |files|
    ensures forall i :: 0 <= i < |files| ==> pastes[i] == Placement(Resized(i, files[i]), Offset(i))
    ensures forall i :: 0 <= i < |files| ==>
      0 <= pastes[i].corner.x && pastes[i].corner.x + ImageSize <= tif.Length0 &&
      0 <= pastes[i].corner.y && pastes[i].corner.y + ImageSize <= tif.Length1
  {
    var n := |files|;
    var size := CanvasSize(n);
    tif := new Pixel[size.width, size.height]((_, _) => White);
    pastes := [];
    var rows := StringsCount(n);
    var photoNumber := 0;
    for w := 0 to rows
      invariant w < rows ==> photoNumber == ColumnLimit * w
      invariant |pastes| == if w < rows then ColumnLimit * w else n
      invariant forall i :: 0 <= i < |pastes| ==> pastes[i] == Placement(Resized(i, files[i]), Offset(i))
      invariant forall a, b :: 0 <= a < tif.Length0 && 0 <= b < tif.Length1 ==>
        tif[a, b] == Painted(files, |pastes|, a, b)
    {
      for y := 0 to ColumnLimit
        invariant photoNumber == ColumnLimit * w + y && photoNumber < n
        invariant |pastes| == photoNumber
        invariant forall i :: 0 <= i < |pastes| ==> pastes[i] == Placement(Resized(i, files[i]), Offset(i))
        invariant forall a, b :: 0 <= a < tif.Length0 && 0 <= b < tif.Length1 ==>
          tif[a, b] == Painted(files, |pastes|, a, b)
      {
        var image := Resized(photoNumber, files[photoNumber]);
        var corner := Point(LeftMargin + (ImageSize + BetweenSpace) * y,
                            TopMargin + (ImageSize + BetweenSpace) * w);
        DivModUnique(photoNumber, ColumnLimit, w, y);
        assert corner == Offset(photoNumber);
        Paste(tif, image, corner.x, corner.y);
        forall a, b | 0 <= a < tif.Length0 && 0 <= b < tif.Length1
          ensures tif[a, b] == Painted(files, photoNumber + 1, a, b)
        {
          PaintedStep(files, photoNumber, a, b);
        }
        pastes := pastes + [Placement(image, corner)];
        if photoNumber == n - 1 {
          break;
        } else {
          photoNumber := photoNumber + 1;
        }
      }
    }
    forall i | 0 <= i < n
      ensures 0 <= Offset(i).x && Offset(i).x + ImageSize <= tif.Length0
      ensures 0 <= Offset(i).y && Offset(i).y + ImageSize <= tif.Length1
    {
      CellInsideCanvas(n, i);
    }
  }
}
