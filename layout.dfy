/**
 * The unsigned integer arithmetic that sizes and places the cells of a
 * grid calendar. Both grid renderers use it; they differ only in how the
 * border around the grid is computed, which each passes in.
 *
 * A cell occupies a square slot of side `outer`. The grid has one column per
 * year of life and 52 rows, and the viewport adds `border + padding` on every
 * side of the grid.
 */
module Layout {

  const WeeksInAYear: nat := 52

  /** Stroke width, padding, and the inner and outer side of a cell, in pixels. */
  datatype CellSizes = CellSizes(strokeWidth: nat, padding: nat, inner: nat, outer: nat)

  /**
   * The cell sizes for the given ratios: the stroke is doubled, the inner side
   * is twice the length plus the stroke, and the outer side adds the padding
   * and the stroke again.
   */
  function CellSizesOf(stroke: nat, padding: nat, length: nat, scale: nat): (c: CellSizes)
    ensures c.strokeWidth % 2 == 0 && c.inner % 2 == 0 && c.outer % 2 == 0
    ensures c.strokeWidth <= c.inner <= c.outer
  {
    var strokeWidth := stroke * scale * 2;
    var pad := padding * scale;
    var inner := (length * 2) * scale + strokeWidth;
    assert (length * 2) * scale == 2 * (length * scale);
    CellSizes(strokeWidth, pad, inner, inner + (pad * 2) + strokeWidth)
  }

  /** The slot is strictly larger than the cell exactly when the scale is positive and there is padding or stroke. */
  lemma OuterExceedsInner(stroke: nat, padding: nat, length: nat, scale: nat)
    ensures var c := CellSizesOf(stroke, padding, length, scale);
      c.outer > c.inner <==> scale > 0 && (padding > 0 || stroke > 0)
  {
    var c := CellSizesOf(stroke, padding, length, scale);
    if scale > 0 && padding > 0 {
      assert padding * scale >= scale;
    }
    if scale > 0 && stroke > 0 {
      assert stroke * scale >= scale;
    }
    if scale == 0 {
      assert c.padding == 0 && c.strokeWidth == 0;
    }
  }

  /** A negative number of years gives no columns; a conversion that fails falls back to zero. */
  function Columns(years: int): nat {
    if years >= 0 then years else 0
  }

  /** The size of the grid of cells and of the whole viewport. */
  datatype Canvas = Canvas(gridWidth: nat, gridHeight: nat, viewWidth: nat, viewHeight: nat)

  function CanvasOf(c: CellSizes, border: nat, columns: nat): Canvas {
    var gridWidth := c.outer * columns;
    var gridHeight := c.outer * WeeksInAYear;
    Canvas(gridWidth, gridHeight,
           gridWidth + (border * 2) + (c.padding * 2),
           gridHeight + (border * 2) + (c.padding * 2))
  }

  /**
   * The viewport is never smaller than the grid, so the unsigned subtraction
   * cannot underflow, and half the difference is exactly `border + padding`.
   */
  lemma ViewportMargins(c: CellSizes, border: nat, columns: nat)
    ensures var v := CanvasOf(c, border, columns);
      && v.viewWidth - v.gridWidth == 2 * (border + c.padding)
      && v.viewHeight - v.gridHeight == 2 * (border + c.padding)
      && (v.viewWidth - v.gridWidth) / 2 == border + c.padding
      && (v.viewHeight - v.gridHeight) / 2 == border + c.padding
  {
  }

  /** Column and row of cell `count`: one column per 52 cells, one row per week. */
  function Column(count: nat): nat {
    count / WeeksInAYear
  }

  function Row(count: nat): (r: nat)
    ensures r < WeeksInAYear
  {
    count % WeeksInAYear
  }

  /** Distinct cells get distinct slots. */
  lemma SlotsDistinct(i: nat, j: nat)
    requires i != j
    ensures Column(i) != Column(j) || Row(i) != Row(j)
  {
    assert i == WeeksInAYear * Column(i) + Row(i);
    assert j == WeeksInAYear * Column(j) + Row(j);
  }

  /** Left edge of cell `count`'s slot: past the border and the grid's padding. */
  function SlotLeft(count: nat, c: CellSizes, border: nat): nat {
    border + c.padding + Column(count) * c.outer
  }

  function SlotTop(count: nat, c: CellSizes, border: nat): nat {
    border + c.padding + Row(count) * c.outer
  }

  /** The top-left corner of a square cell, computed as the renderers compute it. */
  function SquareX(count: nat, c: CellSizes, v: Canvas): int {
    var xOffset := (v.viewWidth - v.gridWidth) / 2 + c.padding + c.strokeWidth / 2;
    Column(count) * c.outer + xOffset
  }

  function SquareY(count: nat, c: CellSizes, v: Canvas): int {
    var yOffset := (v.viewHeight - v.gridHeight) / 2 + c.padding + c.strokeWidth / 2;
    Row(count) * c.outer + yOffset
  }

  /** The centre of a circle cell, computed as the renderers compute it. */
  function CircleX(count: nat, c: CellSizes, v: Canvas): int {
    var cxOffset := (v.viewWidth - v.gridWidth) / 2 + c.padding / 2 + c.outer / 2;
    Column(count) * c.outer + cxOffset
  }

  function CircleY(count: nat, c: CellSizes, v: Canvas): int {
    var cyOffset := (v.viewHeight - v.gridHeight) / 2 + c.padding / 2 + c.outer / 2;
    Row(count) * c.outer + cyOffset
  }

  /** The renderers' offsets, which start from half the viewport's margin, restated from the border. */
  lemma OffsetsFromBorder(count: nat, c: CellSizes, border: nat, columns: nat)
    ensures var v := CanvasOf(c, border, columns);
      && SquareX(count, c, v) == Column(count) * c.outer + border + 2 * c.padding + c.strokeWidth / 2
      && SquareY(count, c, v) == Row(count) * c.outer + border + 2 * c.padding + c.strokeWidth / 2
      && CircleX(count, c, v) == Column(count) * c.outer + border + c.padding + c.padding / 2 + c.outer / 2
      && CircleY(count, c, v) == Row(count) * c.outer + border + c.padding + c.padding / 2 + c.outer / 2
  {
    ViewportMargins(c, border, columns);
  }

  /**
   * A stroked square cell sits in the middle of its slot: the stroke reaches
   * `strokeWidth / 2` beyond the square's edges and leaves exactly `padding`
   * on each side.
   */
  lemma SquareCentredInSlot(count: nat, stroke: nat, padding: nat, length: nat, scale: nat, border: nat, columns: nat)
    ensures var c := CellSizesOf(stroke, padding, length, scale);
      var v := CanvasOf(c, border, columns);
      && SquareX(count, c, v) - c.strokeWidth / 2 == SlotLeft(count, c, border) + c.padding
      && SquareX(count, c, v) + c.inner + c.strokeWidth / 2 + c.padding == SlotLeft(count, c, border) + c.outer
      && SquareY(count, c, v) - c.strokeWidth / 2 == SlotTop(count, c, border) + c.padding
      && SquareY(count, c, v) + c.inner + c.strokeWidth / 2 + c.padding == SlotTop(count, c, border) + c.outer
  {
    ViewportMargins(CellSizesOf(stroke, padding, length, scale), border, columns);
  }

  /**
   * A circle cell has radius `inner / 2`, but its centre sits `padding / 2`
   * right of and below the slot's centre: the stroked circle stays inside the
   * slot, with `padding + padding / 2` before it and `padding - padding / 2`
   * after it on each axis.
   */
  lemma CircleOffsetInSlot(count: nat, stroke: nat, padding: nat, length: nat, scale: nat, border: nat, columns: nat)
    ensures var c := CellSizesOf(stroke, padding, length, scale);
      var v := CanvasOf(c, border, columns);
      var reach := c.inner / 2 + c.strokeWidth / 2;
      && CircleX(count, c, v) == SlotLeft(count, c, border) + c.outer / 2 + c.padding / 2
      && CircleY(count, c, v) == SlotTop(count, c, border) + c.outer / 2 + c.padding / 2
      && CircleX(count, c, v) - reach == SlotLeft(count, c, border) + c.padding + c.padding / 2
      && CircleX(count, c, v) + reach + (c.padding - c.padding / 2) == SlotLeft(count, c, border) + c.outer
      && CircleY(count, c, v) - reach == SlotTop(count, c, border) + c.padding + c.padding / 2
      && CircleY(count, c, v) + reach + (c.padding - c.padding / 2) == SlotTop(count, c, border) + c.outer
  {
    ViewportMargins(CellSizesOf(stroke, padding, length, scale), border, columns);
  }

  /** One column's worth of slots further right is `outer` further right. */
  lemma {:induction false} ColumnGap(a: nat, b: nat, outer: nat)
    requires a < b
    ensures a * outer + outer <= b * outer
    decreases b - a
  {
    NextMultiple(b - 1, outer);
    if a < b - 1 {
      ColumnGap(a, b - 1, outer);
    }
  }

  lemma NextMultiple(a: nat, outer: nat)
    ensures (a + 1) * outer == a * outer + outer
  {
  }

  /** The slots of two different cells do not overlap. */
  lemma SlotsDisjoint(i: nat, j: nat, c: CellSizes, border: nat)
    requires i != j
    ensures || SlotLeft(i, c, border) + c.outer <= SlotLeft(j, c, border)
            || SlotLeft(j, c, border) + c.outer <= SlotLeft(i, c, border)
            || SlotTop(i, c, border) + c.outer <= SlotTop(j, c, border)
            || SlotTop(j, c, border) + c.outer <= SlotTop(i, c, border)
  {
    SlotsDistinct(i, j);
    if Column(i) < Column(j) {
      ColumnGap(Column(i), Column(j), c.outer);
    } else if Column(j) < Column(i) {
      ColumnGap(Column(j), Column(i), c.outer);
    } else if Row(i) < Row(j) {
      ColumnGap(Row(i), Row(j), c.outer);
    } else {
      ColumnGap(Row(j), Row(i), c.outer);
    }
  }

  /**
   * The first `52 * columns` cells lie inside the grid; cell `52 * columns`
   * would start the column just past the grid's right edge.
   */
  lemma CellInsideGrid(count: nat, c: CellSizes, border: nat, columns: nat)
    ensures var v := CanvasOf(c, border, columns);
      && SlotTop(count, c, border) + c.outer <= border + c.padding + v.gridHeight
      && (count < WeeksInAYear * columns ==>
            SlotLeft(count, c, border) + c.outer <= border + c.padding + v.gridWidth)
      && (count == WeeksInAYear * columns ==>
            SlotLeft(count, c, border) == border + c.padding + v.gridWidth)
  {
    ColumnGap(Row(count), WeeksInAYear, c.outer);
    if count < WeeksInAYear * columns {
      ColumnGap(Column(count), columns, c.outer);
    }
  }
}
