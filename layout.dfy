/** Grid layout arithmetic of the composite builder: how many rows and columns
    the grid has, how large the white canvas is, and where each image goes.
    The constants are the module-level settings of main.py. */
module Layout {

  datatype Option<T> = None | Some(value: T)

  /** A canvas size or a paste offset, in pixels. */
  datatype Size = Size(width: int, height: int)
  datatype Point = Point(x: int, y: int)

  /** IMAGE_SIZE: every source image is resized to a square of this side. */
  const ImageSize: int := 175
  /** IMAGES_COLUMN_COUNT: the grid is at most this many columns wide. */
  const ColumnLimit: int := 4
  /** WIDTH_SPACE_SIZE and HEIGHT_SPACE_SIZE: the total horizontal and
      vertical margin, split between the two sides. */
  const WidthSpace: int := 150
  const HeightSpace: int := 250
  /** BETWEEN_IMAGES_SPACE_SIZE: the gap between neighbouring cells. */
  const BetweenSpace: int := 25

  /** int(WIDTH_SPACE_SIZE / 2) and int(HEIGHT_SPACE_SIZE / 2): a float
      halving followed by truncation, which on these non-negative even
      constants is integer division. */
  const LeftMargin: int := WidthSpace / 2
  const TopMargin: int := HeightSpace / 2
  /** Distance between the left (top) edges of two neighbouring cells. */
  const Stride: int := ImageSize + BetweenSpace

  /** The ceiling of a / b, characterised by the two bounds that make it unique. */
  function CeilDiv(a: nat, b: nat): (q: nat)
    requires b > 0
    ensures b * (q - 1) < a <= b * q
  {
    (a + b - 1) / b
  }

  /** get_strings_count: the number of grid rows, math.ceil(n / 4). */
  function StringsCount(n: nat): (rows: nat)
    ensures 4 * (rows - 1) < n <= 4 * rows
  {
    (n + ColumnLimit - 1) / ColumnLimit
  }

  /** The column count of get_size: four columns, or fewer when there are
      fewer images than that. */
  function ColumnCount(n: nat): (columns: nat)
    ensures columns <= ColumnLimit && columns <= n
    ensures columns == ColumnLimit || columns == n
  {
    if n > ColumnLimit then ColumnLimit else n
  }

  /** get_size: canvas width and height. The (columns - 1) and (rows - 1)
      terms are taken on int, so an empty list yields a 125 x 225 canvas. */
  function CanvasSize(n: nat): (size: Size)
    ensures size.width >= WidthSpace - BetweenSpace && size.height >= HeightSpace - BetweenSpace
    ensures n == 0 ==> size == Size(125, 225)
  {
    var columns := ColumnCount(n);
    var rows := StringsCount(n);
    Size(ImageSize * columns + BetweenSpace * (columns - 1) + WidthSpace,
         ImageSize * rows + BetweenSpace * (rows - 1) + HeightSpace)
  }

  /** Upper-left corner of the cell that the image at list index i is pasted
      into: column i mod 4, row i div 4. */
  function Offset(i: nat): (corner: Point)
    ensures LeftMargin <= corner.x <= LeftMargin + Stride * (ColumnLimit - 1) && TopMargin <= corner.y
    ensures CellAt(corner.x, corner.y) == Some(i)
  {
    Point(LeftMargin + Stride * (i % ColumnLimit), TopMargin + Stride * (i / ColumnLimit))
  }

  /** Pixel (a, b) lies in the ImageSize x ImageSize square whose corner is (x, y). */
  predicate Covers(x: int, y: int, a: int, b: int)
  {
    x <= a < x + ImageSize && y <= b < y + ImageSize
  }

  /** Pixel (a, b) lies in the cell of list index i. */
  predicate InCell(i: nat, a: int, b: int)
  {
    Covers(Offset(i).x, Offset(i).y, a, b)
  }

  /** The list index whose cell holds pixel (a, b), recovered by division:
      None on a margin or a gap. */
  function CellAt(a: int, b: int): Option<nat>
  {
    if a < LeftMargin || b < TopMargin then None
    else
      var column := (a - LeftMargin) / Stride;
      var row := (b - TopMargin) / Stride;
      if column < ColumnLimit && (a - LeftMargin) % Stride < ImageSize
         && (b - TopMargin) % Stride < ImageSize
      then Some(row * ColumnLimit + column)
      else None
  }

  /** Division by a positive divisor is determined by quotient and remainder. */
  lemma DivModUnique(m: int, d: int, q: int, r: int)
    requires d > 0 && 0 <= r < d && m == d * q + r
    ensures m / d == q && m % d == r
  {
    var t := q - m / d;
    assert d * t == m % d - r by {
      assert d * q - d * (m / d) == d * t;
    }
    MulBound(d, t);
  }

  /** A positive multiple of d is at least d, a negative one at most -d. */
  lemma MulBound(d: int, t: int)
    requires d > 0
    ensures t >= 1 ==> d * t >= d
    ensures t <= -1 ==> d * t <= -d
  {
  }

  /** CellAt is the exact inverse of the cell placement: pixel (a, b) lies in
      the cell of index i if and only if CellAt names i. */
  lemma CellAtInverse(i: nat, a: int, b: int)
    ensures InCell(i, a, b) <==> CellAt(a, b) == Some(i)
  {
    var column, row := i % ColumnLimit, i / ColumnLimit;
    if InCell(i, a, b) {
      DivModUnique(a - LeftMargin, Stride, column, a - Offset(i).x);
      DivModUnique(b - TopMargin, Stride, row, b - Offset(i).y);
    }
    if CellAt(a, b) == Some(i) {
      var c, r := (a - LeftMargin) / Stride, (b - TopMargin) / Stride;
      DivModUnique(i, ColumnLimit, r, c);
      assert column == c && row == r;
    }
  }

  /** Two different list indices get disjoint cells: the stride of 200 exceeds
      the cell side of 175, so no paste covers another. */
  lemma CellsDisjoint(i: nat, j: nat, a: int, b: int)
    requires i != j
    ensures !(InCell(i, a, b) && InCell(j, a, b))
  {
    CellAtInverse(i, a, b);
    CellAtInverse(j, a, b);
  }

  /** No clipping: the cell of every index below n lies inside the canvas
      computed for n images, at least a margin away from every edge. */
  lemma CellInsideCanvas(n: nat, i: nat)
    requires i < n
    ensures Offset(i).x >= LeftMargin && Offset(i).y >= TopMargin
    ensures Offset(i).x + ImageSize + LeftMargin <= CanvasSize(n).width
    ensures Offset(i).y + ImageSize + TopMargin <= CanvasSize(n).height
  {
    var rows := StringsCount(n);
    assert i / ColumnLimit < rows by {
      DivModUnique(i, ColumnLimit, i / ColumnLimit, i % ColumnLimit);
    }
    assert i % ColumnLimit < ColumnCount(n);
    var k := rows - 1 - i / ColumnLimit;
    assert CanvasSize(n).height == Offset(i).y + ImageSize + TopMargin + Stride * k;
  }

  /** The margins are symmetric: the rightmost cell of the first row and the
      cell of the last image end exactly LeftMargin and TopMargin short of the
      canvas's right and bottom edges. */
  lemma MarginsSymmetric(n: nat)
    requires n >= 1
    ensures Offset(ColumnCount(n) - 1).x + ImageSize + LeftMargin == CanvasSize(n).width
    ensures Offset(n - 1).y + ImageSize + TopMargin == CanvasSize(n).height
  {
    var rows := StringsCount(n);
    DivModUnique(n - 1, ColumnLimit, rows - 1, n - 1 - ColumnLimit * (rows - 1));
  }

  /** The grid stated with the effective column count c = min(4, n):
      ceil(n / c) rows, index i at row i div c and column i mod c. For every
      non-empty list this is the layout the code computes with the constant 4. */
  lemma EffectiveColumnsAgree(n: nat, i: nat)
    requires n >= 1 && i < n
    ensures StringsCount(n) == CeilDiv(n, ColumnCount(n))
    ensures Offset(i) == Point(LeftMargin + Stride * (i % ColumnCount(n)),
                               TopMargin + Stride * (i / ColumnCount(n)))
  {
    if n < ColumnLimit {
      assert StringsCount(n) == 1;
      assert CeilDiv(n, n) == 1;
      assert i % ColumnLimit == i % n == i;
      assert i / ColumnLimit == i / n == 0;
    }
  }
}
