/**
 * `draw_calendar` of src/calendar_image/mod.rs: it resolves the drawing
 * options, deriving a missing secondary colour from the primary one, and
 * hands the drawing to the grid renderer, passing its error on.
 */
module Calendar {
  import opened Wrappers
  import opened Gregorian
  import opened WeekCells
  import opened Grid
  import Svg = SvgDocument

  /** The drawing options as the caller gives them: the secondary colour may be missing. */
  datatype DrawingInfo = DrawingInfo(scaleFactor: nat, colorPrimary: Svg.Color, colorSecondary: Option<Svg.Color>)

  /** The kind of calendar to draw and its own options. */
  datatype Drawing = GridDrawing(gridRatios: GridRatios, weekShape: SvgShape)

  /**
   * The options with the secondary colour resolved: a supplied one is used
   * unchanged, a missing one is the primary colour inverted.
   */
  function Validate(info: DrawingInfo): (v: DrawingInfoValidated)
    ensures v.scaleFactor == info.scaleFactor && v.colorPrimary == info.colorPrimary
    ensures info.colorSecondary.Some? ==> v.colorSecondary == info.colorSecondary.value
    ensures info.colorSecondary.None? ==> Svg.LinearInvert(v.colorSecondary) == info.colorPrimary
  {
    DrawingInfoValidated(
      info.scaleFactor,
      info.colorPrimary,
      match info.colorSecondary
      case Some(color) => color
      case None => Svg.LinearInvert(info.colorPrimary))
  }

  /**
   * Resolving is idempotent: supplying the resolved secondary colour
   * explicitly resolves to the same options.
   */
  lemma ValidateIdempotent(info: DrawingInfo)
    ensures var v := Validate(info);
      Validate(DrawingInfo(v.scaleFactor, v.colorPrimary, Some(v.colorSecondary))) == v
  {
  }

  /** A derived secondary colour is the primary's complement in each colour channel and keeps its alpha. */
  lemma DerivedSecondaryComplements(info: DrawingInfo)
    requires info.colorSecondary.None?
    ensures var p, s := info.colorPrimary, Validate(info).colorSecondary;
      p.r + s.r == 1.0 && p.g + s.g == 1.0 && p.b + s.b == 1.0 && s.a == p.a
    ensures Svg.InUnitRange(info.colorPrimary) ==> Svg.InUnitRange(Validate(info).colorSecondary)
  {
  }

  /** What `DrawCalendar` produces: the grid drawing with the resolved options. */
  function CalendarDocument(drawing: Drawing, info: DrawingInfo, life: LifeInfo, today: Date)
    : Result<Svg.Document<Svg.Color>, RenderError>
    requires Valid(life.birthday) && Valid(today)
  {
    match drawing
    case GridDrawing(ratios, shape) => GridRender(life, Validate(info), ratios, shape, today)
  }

  /**
   * Resolves the options and draws the calendar. The renderer's error is
   * passed on in place of a document: the result is an error exactly when
   * the lifespan is not a 16-bit signed number.
   */
  method DrawCalendar(drawing: Drawing, info: DrawingInfo, life: LifeInfo, today: Date)
    returns (r: Result<Svg.Document<Svg.Color>, RenderError>)
    requires Valid(life.birthday) && Valid(today)
    ensures r == CalendarDocument(drawing, info, life, today)
    ensures r.Err? <==> !FitsI16(life.lifespanYears)
  {
    var validated := Validate(info);
    match drawing {
      case GridDrawing(ratios, shape) =>
        var document := RenderGrid(life, validated, ratios, shape, today);
        if document.Err? {
          return Err(document.error);
        }
        return Ok(document.value);
    }
  }
}
