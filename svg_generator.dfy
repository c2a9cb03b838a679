/**
 * The older grid renderer of src/svg_generator.rs and the parser of its
 * drawing ratios.
 *
 * It walks and places cells exactly as the grid calendar does, and differs
 * from it in three places: a border measured in cells is also multiplied by
 * the scale factor, a week counts as lived as soon as its first day is past,
 * and the colours are fixed to black and white.
 */
module SvgGenerator {
  import opened Wrappers
  import opened Gregorian
  import opened Lifespan
  import opened WeekWalk
  import opened Layout
  import opened WeekCells
  import opened Text
  import Grid
  import Svg = SvgDocument

  // ---------------------------------------------------------------------------
  // Drawing ratios as text

  /** Stroke, padding, cell length and border, each an unsigned 32-bit number. */
  datatype DrawingRatios = DrawingRatios(stroke: nat, padding: nat, length: nat, border: nat)

  datatype ParseDrawingRatiosError = ParseDrawingRatiosError

  /** The pieces that read as unsigned 32-bit numbers, in order; the others are dropped. */
  function Numbers(pieces: seq<string>): (ns: seq<nat>)
    ensures |ns| <= |pieces|
    ensures forall k :: 0 <= k < |ns| ==> ns[k] <= U32Max
  {
    if pieces == [] then []
    else
      var first := match ParseU32(pieces[0]) case Some(v) => [v] case None => [];
      first + Numbers(pieces[1..])
  }

  /** The numbers of a comma-separated list. */
  function NumericFields(s: string): seq<nat> {
    Numbers(Split(s, ','))
  }

  /**
   * More than four numbers is an error; exactly four are the stroke, the
   * padding, the length and the border, in that order. Fewer than four make
   * the source index past the end of its list, so the caller must supply four.
   */
  function ParseDrawingRatios(s: string): (r: Result<DrawingRatios, ParseDrawingRatiosError>)
    requires |NumericFields(s)| >= 4
    ensures r.Err? <==> |NumericFields(s)| > 4
    ensures r.Ok? ==> [r.value.stroke, r.value.padding, r.value.length, r.value.border] == NumericFields(s)
  {
    var values := NumericFields(s);
    if |values| > 4 then Err(ParseDrawingRatiosError)
    else Ok(DrawingRatios(values[0], values[1], values[2], values[3]))
  }

  /** The numbers of two lists one after the other are the numbers of each. */
  lemma {:induction false} NumbersAppend(p: seq<string>, q: seq<string>)
    ensures Numbers(p + q) == Numbers(p) + Numbers(q)
  {
    if p == [] {
      assert p + q == q;
    } else {
      assert (p + q)[0] == p[0];
      assert (p + q)[1..] == p[1..] + q;
      NumbersAppend(p[1..], q);
      var first := match ParseU32(p[0]) case Some(v) => [v] case None => [];
      assert Numbers(p + q) == first + (Numbers(p[1..]) + Numbers(q));
      assert first + (Numbers(p[1..]) + Numbers(q)) == (first + Numbers(p[1..])) + Numbers(q);
    }
  }

  /** A field that is not a number, added to the end of the list, changes nothing. */
  lemma NonNumericFieldDropped(s: string, field: string)
    requires ',' !in field && ParseU32(field).None?
    ensures NumericFields(s + [','] + field) == NumericFields(s)
  {
    SplitConcat(s, field, ',');
    SplitWithoutSeparator(field, ',');
    NumbersAppend(Split(s, ','), [field]);
  }

  /** The ratios written out as four comma-separated decimals. */
  function RatiosText(r: DrawingRatios): string {
    DecimalString(r.stroke) + "," + DecimalString(r.padding) + "," + DecimalString(r.length) + "," + DecimalString(r.border)
  }

  /** Four 32-bit numbers written out as a comma-separated list parse back to the same ratios. */
  lemma ParseRatiosText(r: DrawingRatios)
    requires r.stroke <= U32Max && r.padding <= U32Max && r.length <= U32Max && r.border <= U32Max
    ensures |NumericFields(RatiosText(r))| == 4
    ensures ParseDrawingRatios(RatiosText(r)) == Ok(r)
  {
    SplitRatiosText(r);
    var a, b, c, d := DecimalString(r.stroke), DecimalString(r.padding), DecimalString(r.length), DecimalString(r.border);
    ParseU32OfDecimal(r.stroke);
    ParseU32OfDecimal(r.padding);
    ParseU32OfDecimal(r.length);
    ParseU32OfDecimal(r.border);
    assert [a, b, c, d] == [a] + [b, c, d] && [b, c, d] == [b] + [c, d] && [c, d] == [c] + [d];
    NumbersAppend([a], [b, c, d]);
    NumbersAppend([b], [c, d]);
    NumbersAppend([c], [d]);
  }

  /** The written-out ratios split into the four decimals. */
  lemma SplitRatiosText(r: DrawingRatios)
    ensures Split(RatiosText(r), ',') ==
      [DecimalString(r.stroke), DecimalString(r.padding), DecimalString(r.length), DecimalString(r.border)]
  {
    var a, b, c, d := DecimalString(r.stroke), DecimalString(r.padding), DecimalString(r.length), DecimalString(r.border);
    DecimalStringHasNo(r.stroke, ',');
    DecimalStringHasNo(r.padding, ',');
    DecimalStringHasNo(r.length, ',');
    DecimalStringHasNo(r.border, ',');
    SplitWithoutSeparator(a, ',');
    SplitWithoutSeparator(b, ',');
    SplitWithoutSeparator(c, ',');
    SplitWithoutSeparator(d, ',');
    SplitConcat(a, b, ',');
    SplitConcat(a + [','] + b, c, ',');
    SplitConcat(a + [','] + b + [','] + c, d, ',');
    assert RatiosText(r) == a + [','] + b + [','] + c + [','] + d;
  }

  // ---------------------------------------------------------------------------
  // The renderer

  const Black := "black"
  const White := "white"

  /** The border in pixels: the ratio scaled, or that many outer cell sides scaled once more. */
  function LegacyBorder(ratios: DrawingRatios, unit: BorderUnit, scale: nat, c: CellSizes): nat {
    match unit
    case Pixel => ratios.border * scale
    case Shape => ratios.border * scale * c.outer
  }

  /**
   * A border in pixels is the same in both renderers; a border in cells is
   * `scale` times wider here than in the grid calendar.
   */
  lemma LegacyBorderScaled(ratios: DrawingRatios, unit: BorderUnit, scale: nat, c: CellSizes)
    ensures var grid := Grid.GridBorder(Grid.GridRatios(ratios.stroke, ratios.padding, ratios.length, ratios.border, unit), scale, c);
      LegacyBorder(ratios, unit, scale, c) == if unit == Pixel then grid else scale * grid
  {
    if unit == Shape {
      assert ratios.border * scale * c.outer == scale * (ratios.border * c.outer);
    }
  }

  /** The sizes, canvas, paints and fill rule of a drawing; the number of years must not be negative. */
  function LegacyPen(years: int, ratios: DrawingRatios, unit: BorderUnit, shape: SvgShape, scale: nat, today: Date): Pen<string>
    requires years >= 0
  {
    var c := CellSizesOf(ratios.stroke, ratios.padding, ratios.length, scale);
    Pen(shape, c, CanvasOf(c, LegacyBorder(ratios, unit, scale, c), years), Black, White, WeekStarted, today)
  }

  /**
   * The drawing: a document styled with a black background colour, a white
   * background rectangle over the whole view box, then one cell per date of
   * the walk from the birthday to the death day.
   */
  function LegacyDocument(bday: Date, years: int, ratios: DrawingRatios, unit: BorderUnit, shape: SvgShape, scale: nat, today: Date)
    : Svg.Document<string>
    requires Valid(bday) && Valid(today) && 0 <= years < 0x8000
  {
    var pen := LegacyPen(years, ratios, unit, shape, scale, today);
    var v := pen.canvas;
    Svg.Document(Svg.ViewBox(0, 0, v.viewWidth, v.viewHeight), Svg.BackgroundColor(Black),
                 [Svg.Background(v.viewWidth, v.viewHeight, White)] + WalkCells(pen, bday, DeathDay(bday, years)))
  }

  /**
   * Draws the calendar of a life of `years` years from `bday`, with black
   * and white cells. `years` is a 16-bit signed number; a negative one makes
   * the source stop, so it is excluded here. `today` is the date the
   * calendar is drawn on.
   */
  method RenderSvg(bday: Date, years: int, ratios: DrawingRatios, unit: BorderUnit, shape: SvgShape, scale: nat, today: Date)
    returns (document: Svg.Document<string>)
    requires Valid(bday) && Valid(today) && 0 <= years < 0x8000
    ensures document == LegacyDocument(bday, years, ratios, unit, shape, scale, today)
  {
    var primary, secondary := Black, White;
    var end := DeathDay(bday, years);

    var columns: nat := years;
    var c := CellSizesOf(ratios.stroke, ratios.padding, ratios.length, scale);
    var canvas := CanvasOf(c, LegacyBorder(ratios, unit, scale, c), columns);

    document := Svg.Document(Svg.ViewBox(0, 0, canvas.viewWidth, canvas.viewHeight), Svg.BackgroundColor(primary), []);
    document := document.Append(Svg.Background(canvas.viewWidth, canvas.viewHeight, secondary));

    var pen := Pen(shape, c, canvas, primary, secondary, WeekStarted, today);
    document := AppendWalk(pen, bday, end, document);
  }

  /** The drawing starts with the background and holds one cell per week of life and nothing else. */
  lemma LegacyDocumentCells(bday: Date, years: int, ratios: DrawingRatios, unit: BorderUnit, shape: SvgShape, scale: nat, today: Date)
    requires Valid(bday) && Valid(today) && 0 <= years < 0x8000
    ensures var doc := LegacyDocument(bday, years, ratios, unit, shape, scale, today);
      var v := LegacyPen(years, ratios, unit, shape, scale, today).canvas;
      && doc.viewBox == Svg.ViewBox(0, 0, v.viewWidth, v.viewHeight)
      && |doc.nodes| == 1 + CellCount(bday, years)
      && doc.nodes[0] == Svg.Rectangle(0, 0, v.viewWidth, v.viewHeight, White, None)
  {
    WalkCellCount(bday, years);
  }

  /**
   * Cell `i` of the drawing is drawn for the walk's date after `i` steps,
   * is black once that date is before today (a day has passed) and white
   * otherwise, and is placed as in the grid calendar.
   */
  lemma LegacyCell(bday: Date, years: int, ratios: DrawingRatios, unit: BorderUnit, shape: SvgShape, scale: nat, today: Date,
                   doc: Svg.Document<string>, i: nat)
    requires Valid(bday) && Valid(today) && 0 <= years < 0x8000
    requires doc == LegacyDocument(bday, years, ratios, unit, shape, scale, today)
    requires i < CellCount(bday, years)
    ensures Before(FreeWalk(bday, i), DeathDay(bday, years))
    ensures i + 1 < |doc.nodes|
    ensures var c := CellSizesOf(ratios.stroke, ratios.padding, ratios.length, scale);
      doc.nodes[i + 1] ==
        PlacedCell(shape, c, LegacyBorder(ratios, unit, scale, c), i,
                   if DaysSince(FreeWalk(bday, i), today) >= 1 then Black else White, Black)
  {
    var pen := LegacyPen(years, ratios, unit, shape, scale, today);
    var end := DeathDay(bday, years);
    var date := FreeWalk(bday, i);
    WalkCellCount(bday, years);
    WalkCellsMatchDates(pen, bday, end, i);
    WalkAt(bday, end, i);
    assert doc.nodes[i + 1] == WalkCells(pen, bday, end)[i];
    LivedIffDaysSince(WeekStarted, date, today);
    CellShapeAt(pen, i, date, LegacyBorder(ratios, unit, scale, pen.cell), years);
  }
}
