/**
 * The grid calendar of src/calendar_image/grid.rs: the border-unit option
 * and its text form, and `render_svg`, which draws one cell per week of a
 * life, 52 to a column, one column per year.
 *
 * `GridRender` says what the drawing is; `RenderGrid` builds it the way the
 * source does, with a loop that appends one cell per step of the walk.
 */
module Grid {
  import opened Wrappers
  import opened Gregorian
  import opened Lifespan
  import opened WeekWalk
  import opened Layout
  import opened WeekCells
  import opened Text
  import Svg = SvgDocument

  // ---------------------------------------------------------------------------
  // The border unit as text

  function BorderUnitToString(u: BorderUnit): (s: string)
    ensures |s| == 5 && IsLower(s)
  {
    match u
    case Pixel => "pixel"
    case Shape => "shape"
  }

  datatype ParseBorderUnitError = ParseBorderUnitError

  /** Case-insensitive: "0", "pixel" or "pixels" is `Pixel`; "1", "shape" or "shapes" is `Shape`. */
  function ParseBorderUnit(s: string): (r: Result<BorderUnit, ParseBorderUnitError>)
    ensures r.Ok? ==> |s| in {1, 5, 6}
  {
    var t := ToLower(s);
    if t == "0" || t == "pixel" || t == "pixels" then Ok(Pixel)
    else if t == "1" || t == "shape" || t == "shapes" then Ok(Shape)
    else Err(ParseBorderUnitError)
  }

  /** A unit's text form parses back to the unit. */
  lemma BorderUnitRoundTrip(u: BorderUnit)
    ensures ParseBorderUnit(BorderUnitToString(u)) == Ok(u)
  {
    ToLowerNormalizes(BorderUnitToString(u));
  }

  /** Parsing ignores case: a string parses as its lower-cased form does. */
  lemma ParseBorderUnitIgnoresCase(s: string)
    ensures ParseBorderUnit(ToLower(s)) == ParseBorderUnit(s)
  {
    ToLowerIdempotent(s);
  }

  /** Whatever parses is, once displayed, a spelling that parses to the same unit. */
  lemma ParseBorderUnitCanonical(s: string)
    requires ParseBorderUnit(s).Ok?
    ensures ParseBorderUnit(BorderUnitToString(ParseBorderUnit(s).value)) == ParseBorderUnit(s)
  {
    BorderUnitRoundTrip(ParseBorderUnit(s).value);
  }

  /** The spellings the parser accepts, in any case, and some it refuses. */
  lemma ParseBorderUnitExamples()
    ensures ParseBorderUnit("0") == Ok(Pixel) && ParseBorderUnit("1") == Ok(Shape)
    ensures ParseBorderUnit("Pixels") == Ok(Pixel) && ParseBorderUnit("SHAPE") == Ok(Shape)
    ensures ParseBorderUnit("2").Err? && ParseBorderUnit("").Err? && ParseBorderUnit("px").Err?
  {
    assert ToLower("0") == "0" && ToLower("1") == "1" && ToLower("") == "";
    assert ToLower("Pixels") == "pixels";
    assert ToLower("SHAPE") == "shape";
    assert ToLower("2") == "2";
    assert ToLower("px") == "px";
  }

  // ---------------------------------------------------------------------------
  // Options of a grid drawing

  /** A birthday and a lifespan in years, as the caller supplies them. */
  datatype LifeInfo = LifeInfo(birthday: Date, lifespanYears: int)

  /** The drawing options once the secondary colour has been resolved. */
  datatype DrawingInfoValidated = DrawingInfoValidated(scaleFactor: nat, colorPrimary: Svg.Color, colorSecondary: Svg.Color)

  /** The size ratios of a grid: stroke, padding, cell length and border, and the border's unit. */
  datatype GridRatios = GridRatios(stroke: nat, padding: nat, length: nat, border: nat, borderUnit: BorderUnit)

  datatype RenderError = LifespanOutOfRange

  /** Whether a lifespan converts to the 16-bit signed lifespan of `DeathDay`. */
  predicate FitsI16(n: int) {
    -0x8000 <= n < 0x8000
  }

  /** The border in pixels: the ratio scaled, or that many outer cell sides. */
  function GridBorder(ratios: GridRatios, scale: nat, c: CellSizes): nat {
    match ratios.borderUnit
    case Pixel => ratios.border * scale
    case Shape => ratios.border * c.outer
  }

  /** The sizes, canvas, paints and fill rule of a grid drawing. */
  function GridPen(life: LifeInfo, info: DrawingInfoValidated, ratios: GridRatios, shape: SvgShape, today: Date): Pen<Svg.Color> {
    var c := CellSizesOf(ratios.stroke, ratios.padding, ratios.length, info.scaleFactor);
    var border := GridBorder(ratios, info.scaleFactor, c);
    Pen(shape, c, CanvasOf(c, border, Columns(life.lifespanYears)),
        info.colorPrimary, info.colorSecondary, WeekPassed, today)
  }

  /**
   * The grid drawing: an error when the lifespan is not a 16-bit signed
   * number; otherwise the fresh document followed by one cell per date of
   * the walk from the birthday to the death day.
   */
  function GridRender(life: LifeInfo, info: DrawingInfoValidated, ratios: GridRatios, shape: SvgShape, today: Date)
    : (r: Result<Svg.Document<Svg.Color>, RenderError>)
    requires Valid(life.birthday) && Valid(today)
    ensures r.Err? <==> !FitsI16(life.lifespanYears)
  {
    if !FitsI16(life.lifespanYears) then Err(LifespanOutOfRange)
    else
      var pen := GridPen(life, info, ratios, shape, today);
      var doc := Svg.InitDocument(pen.canvas.viewWidth, pen.canvas.viewHeight, info.colorSecondary);
      var end := DeathDay(life.birthday, life.lifespanYears);
      Ok(doc.(nodes := doc.nodes + WalkCells(pen, life.birthday, end)))
  }

  /**
   * A drawing of a 16-bit lifespan has the view box of the canvas, is styled
   * with the secondary colour, starts with the background, and holds one cell
   * per week of life and nothing else.
   */
  lemma GridRenderDocument(life: LifeInfo, info: DrawingInfoValidated, ratios: GridRatios, shape: SvgShape, today: Date)
    requires Valid(life.birthday) && Valid(today) && FitsI16(life.lifespanYears)
    ensures GridRender(life, info, ratios, shape, today).Ok?
    ensures var doc := GridRender(life, info, ratios, shape, today).value;
      var v := GridPen(life, info, ratios, shape, today).canvas;
      && doc.viewBox == Svg.ViewBox(0, 0, v.viewWidth, v.viewHeight)
      && doc.style == Svg.FillStyle(info.colorSecondary)
      && |doc.nodes| == 1 + CellCount(life.birthday, life.lifespanYears)
      && doc.nodes[0] == Svg.Background(v.viewWidth, v.viewHeight, info.colorSecondary)
  {
    WalkCellCount(life.birthday, life.lifespanYears);
  }

  /**
   * A negative lifespan that fits 16 bits is no error: the grid has no
   * columns and the drawing holds the background alone.
   */
  lemma GridNegativeLifespan(life: LifeInfo, info: DrawingInfoValidated, ratios: GridRatios, shape: SvgShape, today: Date)
    requires Valid(life.birthday) && Valid(today) && FitsI16(life.lifespanYears) && life.lifespanYears < 0
    ensures GridRender(life, info, ratios, shape, today).Ok?
    ensures var v := GridPen(life, info, ratios, shape, today).canvas;
      && v.gridWidth == 0
      && GridRender(life, info, ratios, shape, today).value.nodes == [Svg.Background(v.viewWidth, v.viewHeight, info.colorSecondary)]
  {
    GridRenderDocument(life, info, ratios, shape, today);
  }

  /** Cell `i` of a drawing is the cell of the walk's date after `i` steps, a date before the death day. */
  lemma GridCellDate(life: LifeInfo, info: DrawingInfoValidated, ratios: GridRatios, shape: SvgShape, today: Date,
                     doc: Svg.Document<Svg.Color>, i: nat)
    requires Valid(life.birthday) && Valid(today) && GridRender(life, info, ratios, shape, today) == Ok(doc)
    requires i < CellCount(life.birthday, life.lifespanYears)
    ensures Before(FreeWalk(life.birthday, i), DeathDay(life.birthday, life.lifespanYears))
    ensures i + 1 < |doc.nodes|
    ensures doc.nodes[i + 1] == CellShape(GridPen(life, info, ratios, shape, today), i, FreeWalk(life.birthday, i))
  {
    var b, L := life.birthday, life.lifespanYears;
    var pen := GridPen(life, info, ratios, shape, today);
    var end := DeathDay(b, L);
    WalkCellCount(b, L);
    WalkCellsMatchDates(pen, b, end, i);
    WalkAt(b, end, i);
  }

  /**
   * Cell `i` of a drawing: it is drawn for the walk's date after `i` steps,
   * which is before the death day and, past the first, never 29 February;
   * it is filled with the primary colour once seven days have passed since
   * that date; and it sits in column `i / 52` and row `i % 52`, past the
   * border and the padding.
   */
  lemma GridCell(life: LifeInfo, info: DrawingInfoValidated, ratios: GridRatios, shape: SvgShape, today: Date,
                 doc: Svg.Document<Svg.Color>, i: nat)
    requires Valid(life.birthday) && Valid(today) && GridRender(life, info, ratios, shape, today) == Ok(doc)
    requires i < CellCount(life.birthday, life.lifespanYears)
    ensures Before(FreeWalk(life.birthday, i), DeathDay(life.birthday, life.lifespanYears))
    ensures i > 0 ==> !IsFeb29(FreeWalk(life.birthday, i))
    ensures i + 1 < |doc.nodes|
    ensures var c := CellSizesOf(ratios.stroke, ratios.padding, ratios.length, info.scaleFactor);
      var date := FreeWalk(life.birthday, i);
      doc.nodes[i + 1] ==
        PlacedCell(shape, c, GridBorder(ratios, info.scaleFactor, c), i,
                   if DaysSince(date, today) >= 7 then info.colorPrimary else info.colorSecondary,
                   info.colorPrimary)
  {
    var pen := GridPen(life, info, ratios, shape, today);
    var date := FreeWalk(life.birthday, i);
    GridCellDate(life, info, ratios, shape, today, doc, i);
    LivedIffDaysSince(WeekPassed, date, today);
    assert pen.shape == shape && pen.primary == info.colorPrimary && pen.rule == WeekPassed;
    CellShapeAt(pen, i, date, GridBorder(ratios, info.scaleFactor, pen.cell), Columns(life.lifespanYears));
  }

  /**
   * The extra cell of a 29 February birthday whose death year is a leap year
   * is the first of a column that the canvas has no room for: its slot starts
   * at the grid's right edge.
   */
  lemma GridExtraCellOutside(life: LifeInfo, info: DrawingInfoValidated, ratios: GridRatios, shape: SvgShape, today: Date)
    requires Valid(life.birthday) && Valid(today) && FitsI16(life.lifespanYears)
    requires life.lifespanYears > 0 && IsFeb29(life.birthday) && IsLeap(life.birthday.year + life.lifespanYears)
    ensures var pen := GridPen(life, info, ratios, shape, today);
      var border := GridBorder(ratios, info.scaleFactor, pen.cell);
      var last := CellCount(life.birthday, life.lifespanYears) - 1;
      && last == WeeksInAYear * life.lifespanYears
      && SlotLeft(last, pen.cell, border) == border + pen.cell.padding + pen.canvas.gridWidth
  {
    var pen := GridPen(life, info, ratios, shape, today);
    CellInsideGrid(WeeksInAYear * life.lifespanYears, pen.cell, GridBorder(ratios, info.scaleFactor, pen.cell), life.lifespanYears);
  }

  // ---------------------------------------------------------------------------
  // The renderer

  /**
   * Draws the grid calendar: sizes the cells and the canvas, then walks from
   * the birthday towards the death day, appending one cell per step and
   * stepping 8 days on every 52nd step and 7 otherwise, 29 February skipped.
   * `today` is the date the calendar is drawn on.
   */
  method RenderGrid(life: LifeInfo, info: DrawingInfoValidated, ratios: GridRatios, shape: SvgShape, today: Date)
    returns (r: Result<Svg.Document<Svg.Color>, RenderError>)
    requires Valid(life.birthday) && Valid(today)
    ensures r == GridRender(life, info, ratios, shape, today)
  {
    var primary, secondary, scale := info.colorPrimary, info.colorSecondary, info.scaleFactor;
    var bday, lifespan := life.birthday, life.lifespanYears;
    if !FitsI16(lifespan) {
      return Err(LifespanOutOfRange);
    }
    var end := DeathDay(bday, lifespan);

    var c := CellSizesOf(ratios.stroke, ratios.padding, ratios.length, scale);
    var canvas := CanvasOf(c, GridBorder(ratios, scale, c), Columns(lifespan));
    var pen := Pen(shape, c, canvas, primary, secondary, WeekPassed, today);
    var document := Svg.InitDocument(canvas.viewWidth, canvas.viewHeight, secondary);
    document := AppendWalk(pen, bday, end, document);
    return Ok(document);
  }
}
