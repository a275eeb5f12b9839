/**
 * The mosaic compositor of the viewer's redraw (vello/src/main.rs:102,
 * 141-169): the scroll accumulator picks a factor f, and the content's scene
 * is appended f*f times, each copy scaled by 1/f and moved to its cell of a
 * row-major f-by-f grid over the surface. With no content the frame holds a
 * single zero-area transparent fill instead.
 */
module Mosaic {
  import opened Scroll

  /**
   * `(scroll_delta / SCROLL_FACTOR_THRESHOLD).max(1.0) as u32`: the `as u32`
   * cast of a finite value of at least 1 is its floor.
   */
  function Factor(scrollDelta: real): (f: nat)
    ensures f >= 1
    ensures f as real <= Max(scrollDelta / Threshold, 1.0) < f as real + 1.0
  {
    var q := scrollDelta / Threshold;
    (if q >= 1.0 then q else 1.0).Floor
  }

  /** Below two thresholds the factor is 1: no duplication at all. */
  lemma FactorOneBelowTwoThresholds(scrollDelta: real)
    requires scrollDelta < 2.0 * Threshold
    ensures Factor(scrollDelta) == 1
  {
  }

  /** From one threshold on, the factor is the floor of the accumulator over the threshold. */
  lemma FactorIsFloor(scrollDelta: real)
    requires scrollDelta >= Threshold
    ensures Factor(scrollDelta) == (scrollDelta / Threshold).Floor
  {
  }

  /** Every factor is reached, exactly at a multiple of the threshold. */
  lemma FactorAtMultiple(f: nat)
    requires f >= 1
    ensures Factor(f as real * Threshold) == f
  {
  }

  /** More accumulated scroll never lowers the factor. */
  lemma FactorMonotone(s1: real, s2: real)
    requires s1 <= s2
    ensures Factor(s1) <= Factor(s2)
  {
  }

  /** kurbo's Affine as the viewer uses it: a uniform scale followed by a translation. */
  datatype Affine = Affine(scale: real, dx: real, dy: real)

  /** `Affine::IDENTITY`, which is also `Affine::default()`. */
  const Identity: Affine := Affine(1.0, 0.0, 0.0)

  datatype Point = Point(x: real, y: real)

  datatype Color = Color(r: nat, g: nat, b: nat, a: nat)

  /** `Color::TRANSPARENT`: fully transparent black. */
  const Transparent: Color := Color(0, 0, 0, 0)

  datatype FillRule = NonZero | EvenOdd

  datatype Rect = Rect(x0: real, y0: real, x1: real, y1: real)

  function Area(r: Rect): real {
    (r.x1 - r.x0) * (r.y1 - r.y0)
  }

  /** The drawing commands the redraw issues on the scene builder. */
  datatype SceneOp =
    | AppendContent(transform: Affine)
    | Fill(rule: FillRule, transform: Affine, color: Color, shape: Rect)

  /** The grid cell (column, row) of the i-th copy: `(i % factor, i / factor)`. */
  function Cell(i: nat, f: nat): (nat, nat)
    requires f >= 1
  {
    (i % f, i / f)
  }

  /** The copy that lands on a cell in row-major order. */
  function CellIndex(col: nat, row: nat, f: nat): nat {
    row * f + col
  }

  /** Division by f with remainder is unique. */
  lemma DivModUnique(i: nat, f: nat, col: nat, row: nat)
    requires f >= 1 && col < f && i == row * f + col
    ensures i % f == col && i / f == row
  {
    var q, r := i / f, i % f;
    assert i == q * f + r;
    if q > row {
      MulAtLeast(q - row, f);
    } else if q < row {
      MulAtLeast(row - q, f);
    }
  }

  lemma MulAtLeast(d: int, f: nat)
    requires d >= 1
    ensures d * f >= f
  {
  }

  /**
   * The copy indices 0 .. f*f-1 and the cells of the f-by-f grid are in
   * one-to-one correspondence: every cell is covered by exactly one copy.
   */
  lemma CellBijection(f: nat)
    requires f >= 1
    ensures forall i: nat {:trigger Cell(i, f)} :: i < f * f ==>
      Cell(i, f).0 < f && Cell(i, f).1 < f && CellIndex(Cell(i, f).0, Cell(i, f).1, f) == i
    ensures forall col: nat, row: nat {:trigger CellIndex(col, row, f)} :: col < f && row < f ==>
      CellIndex(col, row, f) < f * f && Cell(CellIndex(col, row, f), f) == (col, row)
  {
    forall i: nat | i < f * f
      ensures Cell(i, f).0 < f && Cell(i, f).1 < f && CellIndex(Cell(i, f).0, Cell(i, f).1, f) == i
    {
      var row := i / f;
      assert i == row * f + i % f;
      if row >= f {
        MulAtLeast(row - f + 1, f);
      }
    }
    forall col: nat, row: nat | col < f && row < f
      ensures CellIndex(col, row, f) < f * f && Cell(CellIndex(col, row, f), f) == (col, row)
    {
      MulAtLeast(f - row, f);
      assert f * f == (f - row) * f + row * f;
      DivModUnique(CellIndex(col, row, f), f, col, row);
    }
  }

  /**
   * The transform of the i-th copy: scaled by 1/f, then moved by
   * `(col * width / f, row * height / f)`.
   */
  function Tile(i: nat, f: nat, width: nat, height: nat): Affine
    requires f >= 1
  {
    var (col, row) := Cell(i, f);
    Affine(1.0 / f as real,
           col as real * width as real / f as real,
           row as real * height as real / f as real)
  }

  /** What the appending loop builds: f*f copies, the i-th under Tile(i). */
  function MosaicScene(f: nat, width: nat, height: nat): seq<SceneOp>
    requires f >= 1
  {
    seq(f * f, i requires 0 <= i < f * f => AppendContent(Tile(i, f, width, height)))
  }

  /** The loop `for i in 0..factor.pow(2)` that appends the scaled copies. */
  method ComposeMosaic(f: nat, width: nat, height: nat) returns (scene: seq<SceneOp>)
    requires f >= 1
    ensures scene == MosaicScene(f, width, height)
  {
    scene := [];
    for i := 0 to f * f
      invariant |scene| == i
      invariant forall k :: 0 <= k < i ==> scene[k] == AppendContent(Tile(k, f, width, height))
    {
      scene := scene + [AppendContent(Tile(i, f, width, height))];
    }
  }

  /** With factor 1 the mosaic is the content once, untransformed. */
  lemma MosaicOfOneIsIdentity(width: nat, height: nat)
    ensures MosaicScene(1, width, height) == [AppendContent(Identity)]
  {
    assert Tile(0, 1, width, height) == Identity;
  }

  /**
   * Every cell of the grid receives exactly one copy, scaled by 1/f and
   * placed at `(col * width / f, row * height / f)`.
   */
  lemma MosaicCoversEveryCell(f: nat, width: nat, height: nat, col: nat, row: nat)
    requires f >= 1 && col < f && row < f
    ensures CellIndex(col, row, f) < |MosaicScene(f, width, height)|
    ensures MosaicScene(f, width, height)[CellIndex(col, row, f)] ==
      AppendContent(Affine(1.0 / f as real, col as real * width as real / f as real,
                           row as real * height as real / f as real))
    ensures forall i :: 0 <= i < f * f && Cell(i, f) == (col, row) ==> i == CellIndex(col, row, f)
  {
    CellBijection(f);
  }

  /**
   * Whether p lies in the box a tile maps the surface onto: from its offset,
   * `scale * width` wide and `scale * height` high.
   */
  predicate Covers(t: Affine, width: nat, height: nat, p: Point) {
    t.dx <= p.x < t.dx + t.scale * width as real &&
    t.dy <= p.y < t.dy + t.scale * height as real
  }

  /** x lies in the band [c*u, c*u + u). */
  predicate InBand(x: real, u: real, c: int) {
    c as real * u <= x < c as real * u + u
  }

  /** A tile covers exactly the points whose bands are its column and row. */
  lemma CoversIsBands(i: nat, f: nat, width: nat, height: nat, p: Point)
    requires f >= 1
    ensures Covers(Tile(i, f, width, height), width, height, p) <==>
      InBand(p.x, width as real / f as real, Cell(i, f).0) &&
      InBand(p.y, height as real / f as real, Cell(i, f).1)
  {
    var u, v := width as real / f as real, height as real / f as real;
    var t := Tile(i, f, width, height);
    var (col, row) := Cell(i, f);
    assert t.dx == col as real * u;
    assert t.dy == row as real * v;
    assert t.scale * width as real == u;
    assert t.scale * height as real == v;
  }

  lemma MulLe(a: real, b: real, u: real)
    requires a <= b && u >= 0.0
    ensures a * u <= b * u
  {
    assert (b - a) * u >= 0.0;
  }

  lemma MulLt(a: real, b: real, u: real)
    requires a < b && u > 0.0
    ensures a * u < b * u
  {
    assert (b - a) * u > 0.0;
  }

  lemma AddOne(a: real, u: real)
    ensures (a + 1.0) * u == a * u + u
  {
  }

  /** Below band c1 + 1 means below every higher band. */
  lemma BelowHigherBand(x: real, u: real, c1: int, c2: int)
    requires u > 0.0 && c1 < c2 && x < c1 as real * u + u
    ensures x < c2 as real * u
  {
    MulLe(c1 as real + 1.0, c2 as real, u);
    AddOne(c1 as real, u);
  }

  lemma ScaleFloorLow(x: real, u: real, c: int)
    requires u > 0.0 && c as real <= x / u
    ensures c as real * u <= x
  {
    var q := x / u;
    assert q * u == x;
    MulLe(c as real, q, u);
  }

  lemma ScaleFloorHigh(x: real, u: real, c: int)
    requires u > 0.0 && x / u < c as real + 1.0
    ensures x < c as real * u + u
  {
    var q := x / u;
    assert q * u == x;
    MulLt(q, c as real + 1.0, u);
    AddOne(c as real, u);
  }

  /** The band [c*u, c*u + u) that holds x, for x in [0, n*u). */
  lemma BandOf(x: real, u: real, n: nat) returns (c: nat)
    requires u > 0.0 && 0.0 <= x < n as real * u
    ensures c < n && InBand(x, u, c)
  {
    var k := (x / u).Floor;
    ScaleFloorLow(x, u, k);
    ScaleFloorHigh(x, u, k);
    if k < 0 {
      BelowHigherBand(x, u, k, 0);
    }
    if k >= n {
      BelowHigherBand(x, u, n - 1, k);
      MulLe(n as real, k as real, u);
    }
    c := k;
  }

  lemma BandUnique(x: real, u: real, c1: int, c2: int)
    requires u > 0.0 && InBand(x, u, c1) && InBand(x, u, c2)
    ensures c1 == c2
  {
    if c1 < c2 {
      BelowHigherBand(x, u, c1, c2);
    } else if c2 < c1 {
      BelowHigherBand(x, u, c2, c1);
    }
  }

  /**
   * The copies tile a non-empty surface with neither gaps nor overlaps:
   * every point of it lies in the image of exactly one copy.
   */
  lemma MosaicTilesSurface(f: nat, width: nat, height: nat, p: Point)
    requires f >= 1 && width >= 1 && height >= 1
    requires 0.0 <= p.x < width as real && 0.0 <= p.y < height as real
    ensures exists i :: 0 <= i < f * f && Covers(Tile(i, f, width, height), width, height, p)
    ensures forall i, j ::
      (0 <= i < f * f && 0 <= j < f * f &&
       Covers(Tile(i, f, width, height), width, height, p) &&
       Covers(Tile(j, f, width, height), width, height, p)) ==> i == j
  {
    var u, v := width as real / f as real, height as real / f as real;
    assert f as real * u == width as real && f as real * v == height as real;
    var col := BandOf(p.x, u, f);
    var row := BandOf(p.y, v, f);
    var k := CellIndex(col, row, f);
    CellBijection(f);
    CoversIsBands(k, f, width, height, p);
    forall i, j |
      0 <= i < f * f && 0 <= j < f * f &&
      Covers(Tile(i, f, width, height), width, height, p) &&
      Covers(Tile(j, f, width, height), width, height, p)
      ensures i == j
    {
      CoversIsBands(i, f, width, height, p);
      CoversIsBands(j, f, width, height, p);
      BandUnique(p.x, u, Cell(i, f).0, Cell(j, f).0);
      BandUnique(p.y, v, Cell(i, f).1, Cell(j, f).1);
    }
  }

  /**
   * The fill used when there is no content: a transparent, zero-area
   * rectangle, because the renderer cannot take an empty scene.
   */
  const Placeholder: SceneOp := Fill(NonZero, Identity, Transparent, Rect(0.0, 0.0, 0.0, 0.0))

  /** The scene one redraw submits. */
  function FrameScene(hasContent: bool, f: nat, width: nat, height: nat): seq<SceneOp>
    requires f >= 1
  {
    if hasContent then MosaicScene(f, width, height) else [Placeholder]
  }

  /**
   * A frame is never empty: with content it holds f*f copies and nothing
   * else, without it exactly the invisible placeholder.
   */
  lemma FrameSceneShape(hasContent: bool, f: nat, width: nat, height: nat)
    requires f >= 1
    ensures |FrameScene(hasContent, f, width, height)| >= 1
    ensures hasContent ==>
      (|FrameScene(hasContent, f, width, height)| == f * f &&
       forall op :: op in FrameScene(hasContent, f, width, height) ==> op.AppendContent?)
    ensures !hasContent ==>
      (FrameScene(hasContent, f, width, height) == [Placeholder] &&
       Placeholder.color == Transparent && Area(Placeholder.shape) == 0.0)
  {
    if hasContent {
      MulAtLeast(f, f);
    }
  }
}
