/**
 * The cells both grid renderers draw: one square or circle per step of the
 * week walk, placed by its index and filled by whether that week counts as
 * lived. The renderers differ in the rule that decides "lived" and in the
 * paints they use, so both are parameters here.
 */
module WeekCells {
  import opened Wrappers
  import opened Gregorian
  import opened WeekWalk
  import opened Layout
  import Svg = SvgDocument

  /** Whether a grid's outer border is measured in pixels or in cells. */
  datatype BorderUnit = Pixel | Shape

  /** The shape drawn for each week. */
  datatype SvgShape = Square | Circle

  /**
   * When a week counts as lived: `WeekPassed` once its date plus 7 days is no
   * later than today, `WeekStarted` as soon as its date is before today.
   */
  datatype FillRule = WeekPassed | WeekStarted

  predicate Lived(rule: FillRule, date: Date, today: Date)
    requires Valid(date) && Valid(today)
  {
    match rule
    case WeekPassed => AtMost(AddDays(date, 7), today)
    case WeekStarted => Before(date, today)
  }

  /** A week counts as lived after a full seven days, or after one day, depending on the rule. */
  lemma LivedIffDaysSince(rule: FillRule, date: Date, today: Date)
    requires Valid(date) && Valid(today)
    ensures rule == WeekPassed ==> (Lived(rule, date, today) <==> DaysSince(date, today) >= 7)
    ensures rule == WeekStarted ==> (Lived(rule, date, today) <==> DaysSince(date, today) >= 1)
  {
    if rule == WeekPassed {
      BeforeIffDayNumber(today, AddDays(date, 7));
    } else {
      BeforeIffDayNumber(date, today);
    }
  }

  /** Everything a renderer fixes before its walk starts. */
  datatype Pen<P> = Pen(shape: SvgShape, cell: CellSizes, canvas: Canvas,
                        primary: P, secondary: P, rule: FillRule, today: Date)

  /** The cell for step `count` of the walk, whose date is `date`. */
  function CellShape<P>(pen: Pen<P>, count: nat, date: Date): (e: Svg.Element<P>)
    requires Valid(date) && Valid(pen.today)
    ensures e.fill == if Lived(pen.rule, date, pen.today) then pen.primary else pen.secondary
    ensures e.stroke == Some(Svg.Stroke(pen.primary, pen.cell.strokeWidth))
    ensures pen.shape == Square <==> e.Rectangle?
  {
    var fill := if Lived(pen.rule, date, pen.today) then pen.primary else pen.secondary;
    var c, v := pen.cell, pen.canvas;
    match pen.shape
    case Square =>
      Svg.Rectangle(SquareX(count, c, v), SquareY(count, c, v), c.inner, c.inner,
                    fill, Some(Svg.Stroke(pen.primary, c.strokeWidth)))
    case Circle =>
      Svg.Circle(CircleX(count, c, v), CircleY(count, c, v), c.inner / 2,
                 fill, Some(Svg.Stroke(pen.primary, c.strokeWidth)))
  }

  /** One cell per date, the `i`-th placed at index `i` and filled by the `i`-th date. */
  function CellsOf<P>(pen: Pen<P>, dates: seq<Date>): (cs: seq<Svg.Element<P>>)
    requires Valid(pen.today) && forall k :: 0 <= k < |dates| ==> Valid(dates[k])
    ensures |cs| == |dates|
  {
    seq(|dates|, i requires 0 <= i < |dates| => CellShape(pen, i, dates[i]))
  }

  /** Drawing one more date of a sequence appends its cell and keeps the cells drawn so far. */
  lemma CellsOfPrefix<P>(pen: Pen<P>, dates: seq<Date>, k: nat)
    requires Valid(pen.today) && k < |dates| && forall j :: 0 <= j < |dates| ==> Valid(dates[j])
    ensures CellsOf(pen, dates[..k + 1]) == CellsOf(pen, dates[..k]) + [CellShape(pen, k, dates[k])]
  {
    var longer, shorter := CellsOf(pen, dates[..k + 1]), CellsOf(pen, dates[..k]);
    forall j | 0 <= j < k
      ensures longer[j] == shorter[j]
    {
      assert dates[..k + 1][j] == dates[..k][j];
    }
    assert longer == shorter + [CellShape(pen, k, dates[k])];
  }

  /**
   * The cell for step `count` with date `date`, computed as the renderers
   * compute it: fill by the fill rule, then the square's corner or the
   * circle's centre from the column and row.
   */
  method DrawCell<P>(pen: Pen<P>, count: nat, date: Date) returns (cell: Svg.Element<P>)
    requires Valid(date) && Valid(pen.today)
    ensures cell == CellShape(pen, count, date)
  {
    var c, v := pen.cell, pen.canvas;
    var fill := match pen.rule
      case WeekPassed => if AtMost(AddDays(date, 7), pen.today) then pen.primary else pen.secondary
      case WeekStarted => if Before(date, pen.today) then pen.primary else pen.secondary;
    var xOffset := ((v.viewWidth - v.gridWidth) / 2) + c.padding + (c.strokeWidth / 2);
    var x := ((count / WeeksInAYear) * c.outer) + xOffset;
    var yOffset := ((v.viewHeight - v.gridHeight) / 2) + c.padding + (c.strokeWidth / 2);
    var y := ((count % WeeksInAYear) * c.outer) + yOffset;
    var cxOffset := ((v.viewWidth - v.gridWidth) / 2) + (c.padding / 2) + (c.outer / 2);
    var cx := ((count / WeeksInAYear) * c.outer) + cxOffset;
    var cyOffset := ((v.viewHeight - v.gridHeight) / 2) + (c.padding / 2) + (c.outer / 2);
    var cy := ((count % WeeksInAYear) * c.outer) + cyOffset;
    cell := match pen.shape
      case Square => Svg.Rectangle(x, y, c.inner, c.inner, fill, Some(Svg.Stroke(pen.primary, c.strokeWidth)))
      case Circle => Svg.Circle(cx, cy, c.inner / 2, fill, Some(Svg.Stroke(pen.primary, c.strokeWidth)));
  }

  /**
   * Where the cell of step `count` belongs, stated from the border rather
   * than from the viewport: a square's corner sits `border + 2 * padding +
   * strokeWidth / 2` past its column and row, and a circle's centre
   * `border + padding + padding / 2 + outer / 2` past them.
   */
  function PlacedCell<P>(shape: SvgShape, c: CellSizes, border: nat, count: nat, fill: P, line: P): Svg.Element<P> {
    match shape
    case Square =>
      Svg.Rectangle(Column(count) * c.outer + border + 2 * c.padding + c.strokeWidth / 2,
                    Row(count) * c.outer + border + 2 * c.padding + c.strokeWidth / 2,
                    c.inner, c.inner, fill, Some(Svg.Stroke(line, c.strokeWidth)))
    case Circle =>
      Svg.Circle(Column(count) * c.outer + border + c.padding + c.padding / 2 + c.outer / 2,
                 Row(count) * c.outer + border + c.padding + c.padding / 2 + c.outer / 2,
                 c.inner / 2, fill, Some(Svg.Stroke(line, c.strokeWidth)))
  }

  /** On a canvas with `border` around a grid of `columns` columns, each cell is where `PlacedCell` puts it. */
  lemma CellShapeAt<P>(pen: Pen<P>, count: nat, date: Date, border: nat, columns: nat)
    requires Valid(date) && Valid(pen.today) && pen.canvas == CanvasOf(pen.cell, border, columns)
    ensures CellShape(pen, count, date) ==
      PlacedCell(pen.shape, pen.cell, border, count,
                 if Lived(pen.rule, date, pen.today) then pen.primary else pen.secondary, pen.primary)
  {
    OffsetsFromBorder(count, pen.cell, border, columns);
  }

  /** The cells drawn for a walk from `start` towards `end`: one per date the walk emits. */
  function WalkCells<P>(pen: Pen<P>, start: Date, end: Date): seq<Svg.Element<P>>
    requires Valid(start) && Valid(end) && Valid(pen.today)
  {
    var ds := WalkDates(start, end, 0);
    WalkValid(start, end);
    CellsOf(pen, ds)
  }

  /**
   * The walk's cells match its dates one to one: cell `i` is placed at index
   * `i` and filled by the `i`-th date of the walk.
   */
  lemma WalkCellsMatchDates<P>(pen: Pen<P>, start: Date, end: Date, i: nat)
    requires Valid(start) && Valid(end) && Valid(pen.today)
    requires i < |WalkDates(start, end, 0)|
    ensures Valid(WalkDates(start, end, 0)[i])
    ensures WalkCells(pen, start, end)[i] == CellShape(pen, i, WalkDates(start, end, 0)[i])
  {
    WalkAt(start, end, i);
  }

  /**
   * One step of the walk: 8 days on every 52nd step and 7 days otherwise, a
   * day being the next date that is not 29 February.
   */
  method StepWeek(d: Date, count: nat) returns (curr: Date)
    requires Valid(d)
    ensures curr == Step(d, count)
  {
    curr := d;
    var weekLength := if count % 52 == 0 then 8 else 7;
    for i := 0 to weekLength
      invariant Valid(curr) && curr == Advance(d, i)
    {
      curr := Next(curr);
      if curr.month == 2 && curr.day == 29 {
        SkipNextFeb29(Advance(d, i));
        curr := Next(curr);
      }
    }
  }

  /**
   * The drawing loop both renderers share: from `start`, while the date is
   * before `end`, append the cell of the current step, then advance 8 days on
   * every 52nd step and 7 days otherwise, stepping over 29 February. The
   * document gains exactly the walk's cells, in order; nothing else changes.
   */
  method AppendWalk<P>(pen: Pen<P>, start: Date, end: Date, doc0: Svg.Document<P>) returns (document: Svg.Document<P>)
    requires Valid(start) && Valid(end) && Valid(pen.today)
    ensures document.viewBox == doc0.viewBox && document.style == doc0.style
    ensures document.nodes == doc0.nodes + WalkCells(pen, start, end)
  {
    document := doc0;
    ghost var ds := WalkDates(start, end, 0);
    WalkValid(start, end);
    WalkEnds(start, start, end, 0, |ds|);

    var count: nat := 0;
    var curr := start;
    while Before(curr, end)
      invariant count <= |ds| && Valid(curr) && curr == FreeWalk(start, count)
      invariant document.viewBox == doc0.viewBox && document.style == doc0.style
      invariant document.nodes == doc0.nodes + CellsOf(pen, ds[..count])
      decreases |ds| - count
    {
      assert count < |ds|;
      WalkAt(start, end, count);
      var cell := DrawCell(pen, count, curr);
      document := document.Append(cell);
      CellsOfPrefix(pen, ds, count);

      curr := StepWeek(curr, count);
      FreeWalkStep(start, count);
      count := count + 1;
    }
    assert count == |ds| by {
      if count < |ds| {
        WalkAt(start, end, count);
      }
    }
    assert ds[..count] == ds;
  }
}
