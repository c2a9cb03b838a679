# death-calendar, modelled in Dafny

death-calendar estimates the day a person dies: the birthday moved by a
lifespan in years. From that it counts the days, weeks and years lived and
left. It also draws a "calendar of life" as an SVG picture: one cell per
week, 52 cells to a column, one column per year. A cell is filled with the
primary colour once its week counts as lived.

This project models the following in Dafny and proves what they promise:

- the lifespan arithmetic of `src/lib.rs`;
- the grid calendar of `src/calendar_image/grid.rs`, with its border-unit
  option and its text form;
- `init_document` and `draw_calendar` of `src/calendar_image/mod.rs`;
- the older renderer of `src/svg_generator.rs` and its drawing-ratio parser.

Modules, one concept each:

- `Gregorian`: proleptic Gregorian dates, the day after a date, adding
  days, and day differences.
- `Lifespan`: `death_day` and the day, week and year counts. Rust's
  truncating `i32` division is written out as `TruncDiv`.
- `WeekWalk`: the walk both renderers make from the birthday towards the
  death day. A week is 8 days on every 52nd step and 7 days otherwise,
  and 29 February is stepped over.
  - The walk is measured with a no-leap ordinal (`Ord`), which gives 29
    February the same day as 28 February. On that ordinal every skipped
    day advances exactly one, and 52 steps advance exactly 365.
  - From this the number of cells is exact (`CellCount`). It is 52 per
    year of life. The one exception is a 29 February birthday whose
    death year is a leap year: that drawing holds one extra cell, and
    the extra cell starts a column outside the grid's width.
- `Layout`: the unsigned arithmetic that sizes the cells and the canvas
  and places each cell in its slot.
  - A square's stroke leaves exactly `padding` on every side of its slot.
  - A circle's centre sits `padding / 2` right of and below the slot's
    centre.
- `SvgDocument`: the document as a value, meaning a view box, a style and
  an ordered list of shapes. Appending a shape yields a new document
  value, and the renderers reassign their local document to it. Also here
  are the background and `linear_invert_color`.
- `WeekCells`: the cell drawn for each step, and `AppendWalk`, the
  drawing loop both renderers share.
  - The renderers differ in their fill rule. The grid counts a week as
    lived once its date plus 7 days is no later than today. The older
    renderer counts it as lived as soon as its date is before today.
  - They also differ in their paints. The grid uses colours; the older
    renderer uses `"black"` and `"white"`. The paint is a type parameter.
- `Text`: ASCII lower-casing, `str::split` on one character and joining
  the pieces back, and `u32::from_str` on decimal strings.
- `Grid`, `SvgGenerator`, `Calendar`: the three entry points. Each
  renderer is a method built from the loop. Each is proved equal to a
  function that describes the whole drawing, and lemmas about that
  function state how many cells the drawing holds and where each cell
  sits.

The date the calendar is drawn on (`Date::today_utc()` in the source) is a
parameter named `today`.

## Model

| member | source | states |
|---|---|---|
| Lifespan.DeathDay | src/lib.rs:5-14 | the death day is valid, is `lifespan` years after the birthday in the same month, and keeps the day of the month unless that day does not exist, in which case it is the month's last day |
| Lifespan.DeathDayClamp | src/lib.rs:5-14 | the day of the month changes exactly for a 29 February birthday in a common target year, and then the death day is 28 February |
| Lifespan.DeathDayOfZeroLifespan | src/lib.rs:5-14 | a lifespan of zero years puts the death day on the birthday |
| Lifespan.DeathDayNotBefore | src/lib.rs:5-21 | a non-negative lifespan never puts the death day before the birthday; a positive one gives a positive lifespan in days |
| Lifespan.DeathDayOfNegativeLifespan | src/lib.rs:5-21 | a negative lifespan puts the death day before the birthday and makes the lifespan in days negative |
| Lifespan.DeathDayExamples | src/lib.rs:71-92 | the three worked examples: death days 2080-01-01, 2095-02-28 and 2998-08-15, with lifespans of 29220, 36159 and 365243 days |
| Lifespan.TruncDiv | src/lib.rs:26 | Rust's `i32` division by a positive divisor: the remainder lies in `[0, b)` for a non-negative dividend and in `(-b, 0]` for a negative one |
| Lifespan.LifespanDays | src/lib.rs:18-21 | no ensures of its own; its properties are stated by `DeathDayNotBefore`, `DeathDayOfNegativeLifespan`, `DeathDayExamples` and `LivedPlusLeft` |
| Lifespan.LifespanWeeks | src/lib.rs:24-27 | no ensures of its own; its rounding is stated by `WeekCountsTruncate` |
| Lifespan.DaysLived | src/lib.rs:31-33 | no ensures of its own; its properties are stated by `LivedPlusLeft` and `CountsAtTheEnds` |
| Lifespan.WeeksLived | src/lib.rs:37-39 | no ensures of its own; its rounding is stated by `WeekCountsTruncate` |
| Lifespan.YearsLived | src/lib.rs:43-45 | no ensures of its own; its properties are stated by `YearsAre364DayBlocks`, `YearsLivedBeforeAnniversary` and `CountsAtTheEnds` |
| Lifespan.DaysLeft | src/lib.rs:49-51 | no ensures of its own; its properties are stated by `LivedPlusLeft`, `CountsAtTheEnds` and `CountsLeftAfterDeath` |
| Lifespan.WeeksLeft | src/lib.rs:55-58 | no ensures of its own; its properties are stated by `WeekCountsTruncate` and `CountsLeftAfterDeath` |
| Lifespan.YearsLeft | src/lib.rs:62-65 | no ensures of its own; its properties are stated by `YearsAre364DayBlocks`, `CountsAtTheEnds` and `CountsLeftAfterDeath` |
| Lifespan.LivedPlusLeft | src/lib.rs:18-21 | days lived plus days left equals the lifespan in days, whatever today is |
| Lifespan.CountsAtTheEnds | src/lib.rs:31-65 | on the birthday nothing has been lived; on the death day nothing is left |
| Lifespan.WeekCountsTruncate | src/lib.rs:24-58 | each week count is its day count divided by 7, rounded toward zero, for negative day counts too |
| Lifespan.TruncDivNegate | src/lib.rs:26 | the truncating division of the counts is symmetric under negating the dividend |
| Lifespan.TruncDivWeeksThenYears | src/lib.rs:37-45 | dividing by 7 and then by 52, each rounding toward zero, is dividing by 364 |
| Lifespan.YearsAre364DayBlocks | src/lib.rs:41-65 | years lived and left count whole blocks of 364 days, not anniversaries |
| Lifespan.YearsLivedBeforeAnniversary | src/lib.rs:41-45 | 364 days after the birthday (here two days before the first anniversary) already count as a whole year lived |
| Lifespan.CountsLeftAfterDeath | src/lib.rs:47-65 | after the death day the counts left are negative or zero, and weeks left are negative exactly from 7 days after it |
| Gregorian.Next | src/calendar_image/grid.rs:156 | the day after a valid date is a valid, later date; `Gregorian.NextDayNumber` shows it is exactly one day later |
| Gregorian.AddDays | src/calendar_image/grid.rs:115 | adding `n` days gives a valid date whose day number is `n` larger |
| Gregorian.DaysSince | src/lib.rs:20 | no ensures of its own; the counts built on it are stated by the `Lifespan` lemmas |
| Gregorian.NextDayNumber | src/calendar_image/grid.rs:156 | the day after a valid date has the next day number |
| Gregorian.BeforeIffDayNumber | src/calendar_image/grid.rs:111 | the date order is the order of day numbers, and equal day numbers mean equal dates |
| Gregorian.Before | src/calendar_image/grid.rs:111 | no ensures of its own; `Gregorian.BeforeIffDayNumber` states that it is the day-number order |
| WeekWalk.SkipNext | src/calendar_image/grid.rs:156-159 | the next date, stepping over 29 February, is valid and never 29 February |
| WeekWalk.SkipNextOrd | src/calendar_image/grid.rs:155-160 | the next date, stepping over 29 February, is one day further on the no-leap ordinal |
| WeekWalk.Advance | src/calendar_image/grid.rs:155-160 | `k` skipping days from a valid date give a valid date, never 29 February once `k > 0` |
| WeekWalk.AdvanceOrd | src/calendar_image/grid.rs:155-160 | `k` skipping days advance exactly `k` days on the no-leap ordinal |
| WeekWalk.StepLength | src/calendar_image/grid.rs:154 | no ensures of its own; `WeekWalk.StepOrd`, `WeekWalk.StepSumClosedForm` and `WeekWalk.FiftyTwoStepsFromAnywhere` state what the lengths add up to |
| WeekWalk.Step | src/calendar_image/grid.rs:154-160 | one step of the walk from a valid date gives a valid date that is never 29 February; `WeekWalk.StepOrd` states how far it goes and `WeekCells.StepWeek` computes it with the source's loop |
| WeekWalk.StepOrd | src/calendar_image/grid.rs:154-160 | one step of the walk advances 8 days on steps 0, 52, 104, … and 7 days otherwise, 29 February not counted |
| WeekWalk.FiftyTwoStepsAreAYear | src/calendar_image/grid.rs:152-160 | the 52 steps of each column advance exactly 365 days, and the first `52·c` steps advance `365·c` days |
| WeekWalk.FiftyTwoStepsFromAnywhere | src/calendar_image/grid.rs:152-160 | any 52 consecutive steps, wherever they start, advance exactly 365 days |
| WeekWalk.StepSum | src/calendar_image/grid.rs:152-160 | no ensures of its own; its closed form is `WeekWalk.StepSumClosedForm` |
| WeekWalk.StepSumClosedForm | src/calendar_image/grid.rs:152-160 | the walk's total advance after `i` steps in closed form |
| WeekWalk.FreeWalkOrd | src/calendar_image/grid.rs:152-160 | the date after `i` steps is the start advanced by the sum of the first `i` step lengths |
| WeekWalk.FreeWalk | src/calendar_image/grid.rs:109-161 | the date after `i` steps is valid and, once `i > 0`, never 29 February |
| WeekWalk.WalkDates | src/calendar_image/grid.rs:109-162 | no ensures of its own; the dates the loop visits are stated by `WeekWalk.WalkInvariants`, `WeekWalk.WalkAt`, `WeekWalk.WalkLength` and `WeekWalk.WalkCellCount` |
| WeekWalk.FreeWalkIncreasing | src/calendar_image/grid.rs:109-161 | the walk's dates strictly increase |
| WeekWalk.ColumnStartsOnAnniversary | src/calendar_image/grid.rs:109-161 | every column starts on the birthday's anniversary (28 February for a 29 February birthday) |
| WeekWalk.WalkInvariants | src/calendar_image/grid.rs:109-162 | every date drawn is before the end, the dates strictly increase, none after the first is 29 February, and the date the loop stops at is not before the end |
| WeekWalk.WalkAt | src/calendar_image/grid.rs:109-162 | the `i`-th date drawn is the date after `i` steps, and it is before the end |
| WeekWalk.WalkLength | src/calendar_image/grid.rs:111 | the loop draws exactly as many dates as the steps it takes before reaching the end |
| WeekWalk.DeathDayOrd | src/lib.rs:5-14 | the death day is 365 days per year of lifespan after the birthday on the no-leap ordinal |
| WeekWalk.DeathDayOnFeb29 | src/lib.rs:5-14 | the death day is 29 February exactly when the birthday is and the death year is a leap year |
| WeekWalk.WalkCellCount | src/calendar_image/grid.rs:109-162 | the walk from the birthday to the death day draws 52 cells per year of lifespan, none for a non-positive lifespan, and one more when a 29 February birthday meets a leap death year |
| WeekWalk.WalkCellCountPositive | src/calendar_image/grid.rs:109-162 | for a positive lifespan, the cell count has the extra cell exactly when the death day is 29 February |
| WeekWalk.CellCount | src/calendar_image/grid.rs:109-162 | no ensures of its own; `WeekWalk.WalkCellCount` states that it is the number of cells drawn |
| Layout.CellSizesOf | src/calendar_image/grid.rs:80-84 | stroke width, inner and outer sides are even, and stroke ≤ inner ≤ outer |
| Layout.OuterExceedsInner | src/calendar_image/grid.rs:80-84 | a slot is strictly larger than its cell exactly when the scale is positive and there is padding or stroke |
| Layout.Columns | src/calendar_image/grid.rs:93-97 | no ensures of its own; the empty grid of a negative lifespan is stated by `Grid.GridNegativeLifespan` |
| Layout.CanvasOf | src/calendar_image/grid.rs:93-101 | no ensures of its own; its margins are stated by `Layout.ViewportMargins` and `Layout.CellInsideGrid` |
| Layout.ViewportMargins | src/calendar_image/grid.rs:93-101 | the viewport is never smaller than the grid, and half the difference is `border + padding` on each axis |
| Layout.OffsetsFromBorder | src/calendar_image/grid.rs:121-130 | a square's corner is `border + 2·padding + stroke/2` past its column and row; a circle's centre is `border + padding + padding/2 + outer/2` past them |
| Layout.Column | src/calendar_image/grid.rs:122 | no ensures of its own; `Layout.SlotsDistinct` and `Layout.CellInsideGrid` state what it places |
| Layout.Row | src/calendar_image/grid.rs:124 | a cell's row is below 52 |
| Layout.SquareX | src/calendar_image/grid.rs:121-122 | no ensures of its own; `Layout.OffsetsFromBorder` and `Layout.SquareCentredInSlot` state where it puts the square |
| Layout.SquareY | src/calendar_image/grid.rs:123-124 | no ensures of its own; `Layout.OffsetsFromBorder` and `Layout.SquareCentredInSlot` state where it puts the square |
| Layout.CircleX | src/calendar_image/grid.rs:126-127 | no ensures of its own; `Layout.OffsetsFromBorder` and `Layout.CircleOffsetInSlot` state where it puts the circle |
| Layout.CircleY | src/calendar_image/grid.rs:128-130 | no ensures of its own; `Layout.OffsetsFromBorder` and `Layout.CircleOffsetInSlot` state where it puts the circle |
| Layout.SquareCentredInSlot | src/calendar_image/grid.rs:121-124 | a stroked square leaves exactly `padding` on every side of its slot |
| Layout.CircleOffsetInSlot | src/calendar_image/grid.rs:126-130 | a circle's centre is `padding/2` right of and below its slot's centre, and the stroked circle stays inside the slot |
| Layout.SlotsDistinct | src/calendar_image/grid.rs:122-124 | two different cell indices have different column or row |
| Layout.SlotsDisjoint | src/calendar_image/grid.rs:121-130 | the slots of two different cells do not overlap |
| Layout.CellInsideGrid | src/calendar_image/grid.rs:93-130 | cells `0 … 52·columns − 1` lie inside the grid; cell `52·columns` starts exactly at the grid's right edge |
| SvgDocument.LinearInvert | src/calendar_image/mod.rs:35-37 | each colour channel plus its inverse is 1, alpha is kept, and a colour in range inverts to one in range |
| SvgDocument.LinearInvertInvolution | src/calendar_image/mod.rs:35-37 | over exact reals, inverting twice gives the colour back; in `f64` this can be off in the last bit |
| SvgDocument.LinearInvertFixedPoints | src/calendar_image/mod.rs:35-37 | over exact reals, only a colour with every channel at 1/2 is its own inverse |
| SvgDocument.Document.Append | src/calendar_image/grid.rs:151 | appending puts the shape last and keeps view box, style and the earlier shapes |
| SvgDocument.Background | src/calendar_image/mod.rs:24-29 | no ensures of its own; `SvgDocument.InitDocument` states the rectangle it gives |
| SvgDocument.InitDocument | src/calendar_image/mod.rs:19-33 | the fresh document has the given view box, the secondary fill style and exactly one shape: an unstroked background rectangle of the secondary paint over the whole view box |
| Text.ToLowerNormalizes | src/calendar_image/grid.rs:50 | lower-casing leaves no capitals and changes nothing in a lower-case string |
| Text.ToLowerIdempotent | src/calendar_image/grid.rs:50 | lower-casing twice is lower-casing once |
| Text.ToLower | src/calendar_image/grid.rs:50 | lower-casing keeps the length; `Text.ToLowerNormalizes` and `Text.ToLowerIdempotent` state what it does to the letters |
| Text.Split | src/svg_generator.rs:37 | splitting yields at least one piece and no piece holds the separator |
| Text.JoinSplit | src/svg_generator.rs:37 | joining the pieces with the separator gives back the string |
| Text.SplitJoin | src/svg_generator.rs:37 | splitting the join of separator-free pieces gives back the pieces |
| Text.SplitConcat | src/svg_generator.rs:37 | splitting `s + sep + t` splits `s` and `t` separately |
| Text.ParseU32 | src/svg_generator.rs:40 | a parsed value fits in 32 bits; an empty string, a lone '+' or any other non-digit is refused |
| Text.ParseU32OfDecimal | src/svg_generator.rs:40 | every 32-bit number reads back from its decimal spelling, with or without '+' |
| Text.ParseU32Overflow | src/svg_generator.rs:40 | a number wider than 32 bits is refused |
| WeekCells.LivedIffDaysSince | src/calendar_image/grid.rs:115-119 | under the grid's rule a week is lived exactly when 7 or more days have passed since its date; under the older renderer's rule, exactly when 1 or more has |
| WeekCells.Lived | src/calendar_image/grid.rs:115 | no ensures of its own; `WeekCells.LivedIffDaysSince` states both fill rules as day counts |
| WeekCells.CellShape | src/calendar_image/grid.rs:115-149 | a cell is filled with the primary paint exactly when its week is lived, is stroked with the primary paint at the stroke width, and is a rectangle exactly when squares are drawn |
| WeekCells.CellsOfPrefix | src/calendar_image/grid.rs:151 | drawing one more date appends its cell and keeps the cells drawn so far |
| WeekCells.CellsOf | src/calendar_image/grid.rs:109-151 | one cell per date; `WeekCells.CellsOfPrefix` states that each further date appends its own cell |
| WeekCells.WalkCells | src/calendar_image/grid.rs:109-162 | no ensures of its own; `WeekCells.AppendWalk` and `WeekCells.WalkCellsMatchDates` state what it holds |
| WeekCells.DrawCell | src/calendar_image/grid.rs:115-149 | the computed cell (fill, corner or centre, size, stroke) is the cell of that step |
| WeekCells.CellShapeAt | src/calendar_image/grid.rs:115-149 | on a canvas with a given border, each cell is placed by column and row past the border and padding, filled by whether its week is lived |
| WeekCells.PlacedCell | src/calendar_image/grid.rs:121-149 | no ensures of its own; `WeekCells.CellShapeAt` states that every cell drawn is placed by it |
| WeekCells.WalkCellsMatchDates | src/calendar_image/grid.rs:109-162 | cell `i` of the walk is drawn for the walk's `i`-th date |
| WeekCells.StepWeek | src/calendar_image/grid.rs:154-160 | the inner loop of next-day steps, stepping over 29 February, computes one step of the walk |
| WeekCells.AppendWalk | src/calendar_image/grid.rs:109-162 | the drawing loop appends exactly the walk's cells, in order, and changes neither view box nor style |
| Grid.BorderUnitToString | src/calendar_image/grid.rs:21-32 | the unit's text form is a five-letter lower-case word |
| Grid.ParseBorderUnit | src/calendar_image/grid.rs:46-56 | only strings of 1, 5 or 6 characters parse |
| Grid.BorderUnitRoundTrip | src/calendar_image/grid.rs:21-56 | a unit's text form parses back to the unit |
| Grid.ParseBorderUnitIgnoresCase | src/calendar_image/grid.rs:50 | a string parses as its lower-cased form does |
| Grid.ParseBorderUnitCanonical | src/calendar_image/grid.rs:21-56 | whatever parses displays as a spelling that parses to the same unit |
| Grid.ParseBorderUnitExamples | src/calendar_image/grid.rs:50-54 | "0", "1", "Pixels" and "SHAPE" parse to their units; "2", "" and "px" are refused |
| Grid.GridRender | src/calendar_image/grid.rs:64-164 | the drawing is an error exactly when the lifespan is not a 16-bit signed number |
| Grid.FitsI16 | src/calendar_image/grid.rs:78 | no ensures of its own; `Grid.GridRender` states that the drawing is an error exactly when it fails |
| Grid.GridPen | src/calendar_image/grid.rs:80-101 | no ensures of its own; `Grid.GridRenderDocument`, `Grid.GridCell` and `Grid.GridNegativeLifespan` state what it sets up |
| Grid.GridRenderDocument | src/calendar_image/grid.rs:64-164 | a drawing has the canvas's view box and the secondary fill style, starts with the background, and holds one cell per week of life (`CellCount`) and nothing else |
| Grid.GridNegativeLifespan | src/calendar_image/grid.rs:93-97 | a negative 16-bit lifespan is no error: the grid has width 0 and the drawing holds the background alone |
| Grid.GridBorder | src/calendar_image/grid.rs:86-89 | no ensures of its own; the border is stated by `Grid.GridCell` and compared with the older renderer's by `SvgGenerator.LegacyBorderScaled` |
| Grid.GridCellDate | src/calendar_image/grid.rs:109-162 | cell `i` is the cell of the walk's date after `i` steps, and that date is before the death day |
| Grid.GridCell | src/calendar_image/grid.rs:64-162 | cell `i` is drawn for a date before the death day and, past the first, never 29 February; it is primary once 7 days have passed since that date and secondary otherwise; it sits at column `i / 52` and row `i % 52` past border and padding, with the border in pixels or in outer cell sides as the unit says |
| Grid.GridExtraCellOutside | src/calendar_image/grid.rs:93-111 | the extra cell of a 29 February birthday with a leap death year is cell `52 · lifespan`, and its slot starts at the grid's right edge, outside the canvas's grid |
| Grid.RenderGrid | src/calendar_image/grid.rs:64-164 | the renderer's loop produces exactly the drawing `GridRender` describes, and the error when the lifespan does not fit 16 bits |
| SvgGenerator.Numbers | src/svg_generator.rs:38-41 | the kept numbers are no more than the pieces and each fits in 32 bits |
| SvgGenerator.NumericFields | src/svg_generator.rs:37-41 | no ensures of its own; `SvgGenerator.ParseDrawingRatios` and `SvgGenerator.NonNumericFieldDropped` state what it keeps |
| SvgGenerator.ParseDrawingRatios | src/svg_generator.rs:36-55 | more than four numbers is an error; exactly four are the stroke, padding, length and border, in order |
| SvgGenerator.NumbersAppend | src/svg_generator.rs:38-41 | the numbers of two lists of pieces are the numbers of each, in order |
| SvgGenerator.NonNumericFieldDropped | src/svg_generator.rs:37-41 | a field that is not a number, appended to the list, changes nothing |
| SvgGenerator.SplitRatiosText | src/svg_generator.rs:37 | the ratios written with commas split into their four decimals |
| SvgGenerator.ParseRatiosText | src/svg_generator.rs:36-55 | four 32-bit ratios written as a comma-separated list parse back to the same ratios |
| SvgGenerator.LegacyBorder | src/svg_generator.rs:92-95 | no ensures of its own; the border is stated by `SvgGenerator.LegacyBorderScaled` and `SvgGenerator.LegacyCell` |
| SvgGenerator.LegacyBorderScaled | src/svg_generator.rs:92-95 | a border in pixels is the same as the grid calendar's; a border in cells is the grid calendar's times the scale factor |
| SvgGenerator.LegacyPen | src/svg_generator.rs:86-104 | no ensures of its own; `SvgGenerator.LegacyDocumentCells` and `SvgGenerator.LegacyCell` state what it sets up |
| SvgGenerator.RenderSvg | src/svg_generator.rs:72-171 | the older renderer's loop produces exactly the drawing `LegacyDocument` describes |
| SvgGenerator.LegacyDocument | src/svg_generator.rs:99-168 | no ensures of its own; what the drawing holds is stated by `SvgGenerator.LegacyDocumentCells` and `SvgGenerator.LegacyCell` |
| SvgGenerator.LegacyDocumentCells | src/svg_generator.rs:99-119 | the drawing has the canvas's view box, starts with a white background over it and holds one cell per week of life and nothing else |
| SvgGenerator.LegacyCell | src/svg_generator.rs:119-168 | cell `i` is drawn for the walk's date after `i` steps, before the death day; it is black once a day has passed since that date and white otherwise, and is placed as in the grid calendar |
| Calendar.Validate | src/calendar_image/mod.rs:44-56 | scale and primary colour are copied; a supplied secondary colour is kept; a missing one is the primary inverted |
| Calendar.ValidateIdempotent | src/calendar_image/mod.rs:44-56 | supplying the resolved secondary colour explicitly resolves to the same options |
| Calendar.DerivedSecondaryComplements | src/calendar_image/mod.rs:44-56 | a derived secondary colour is the primary's complement in each channel, keeps its alpha, and stays in range |
| Calendar.CalendarDocument | src/calendar_image/mod.rs:58-67 | no ensures of its own; `Calendar.DrawCalendar` states that it is the calendar drawn and when it is an error |
| Calendar.DrawCalendar | src/calendar_image/mod.rs:39-74 | a grid drawing is rendered with the resolved options; the renderer's error is passed on, exactly when the lifespan does not fit 16 bits |

## Left out

- The logarithmic calendar (`Drawing::Logarithmic` of `draw_calendar`, src/calendar_image/logarithmic.rs and src/logarithmic_calendar.rs) is not part of this model: it computes positions in floating point.
- Colours are exact reals. `f64` rounding in `linear_invert_color` is not modelled.
- `to_hex_string` is not modelled. Grid cells hold the `Color` value rather than its hex text.
- SVG serialisation is not modelled. The document is a view box, a style and a list of shapes, with no text form.
- `Date::today_utc()` reads the clock, so it is the parameter `today`.
- The `gregorian` crate is not part of this model. Its date type, `next`, `add_days`, `days_since`, `add_years` and `prev_valid` are written out here over the proleptic Gregorian calendar. `DeathDay` states the `add_years`/`prev_valid` behaviour: fall back to the last day of the month.
- The `u32` and `i32` arithmetic is modelled on unbounded numbers. An overflow, which panics or wraps in the source, is not modelled: huge ratios or scale factors, or day counts past `i32`.
- The `gregorian` crate's own range of years is not modelled. `add_years` in `death_day` works within that range, while years here are unbounded integers.
- `Text.ToLower`: lower-cases ASCII letters only, where Rust's `to_lowercase` covers all of Unicode. A string with a character outside ASCII never lower-cases to an accepted spelling (`0`, `1`, `pixel`, `pixels`, `shape`, `shapes`) under either rule, so the two accept and refuse the same strings; they differ only in the lower-cased text itself.
- `SvgGenerator.ParseDrawingRatios`: requires at least four numbers. With fewer, the source indexes past the end of its list and panics.
- `SvgGenerator.RenderSvg`: requires a non-negative number of years. The source panics (`expect`) on a negative one.
- `Grid.LifeInfo`: the type of its lifespan field is not among the files modelled. It is an unbounded integer, and the conversion to `i16` fails, as `try_into` does, outside the 16-bit range.
- src/main.rs and src/death_info.rs (command-line parsing and printing) are not part of this model.
