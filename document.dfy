/**
 * An SVG document as the renderers build it: a view box, a style, and the
 * ordered list of shapes appended to it. Paints are a type parameter: the
 * grid renderer paints with colours, the older renderer with colour names.
 *
 * The document, its background and the colour inversion live in
 * src/calendar_image/mod.rs; serialisation to text is not part of this model.
 */
module SvgDocument {
  import opened Wrappers

  /** An RGBA colour with channels in [0, 1]. */
  datatype Color = Color(r: real, g: real, b: real, a: real)

  predicate InUnitRange(c: Color) {
    0.0 <= c.r <= 1.0 && 0.0 <= c.g <= 1.0 && 0.0 <= c.b <= 1.0 && 0.0 <= c.a <= 1.0
  }

  /** Each colour channel mirrored around 1/2; the alpha channel is kept. */
  function LinearInvert(c: Color): (inv: Color)
    ensures inv.a == c.a
    ensures inv.r + c.r == 1.0 && inv.g + c.g == 1.0 && inv.b + c.b == 1.0
    ensures InUnitRange(c) ==> InUnitRange(inv)
  {
    Color(1.0 - c.r, 1.0 - c.g, 1.0 - c.b, c.a)
  }

  /** Inverting twice gives the colour back. */
  lemma LinearInvertInvolution(c: Color)
    ensures LinearInvert(LinearInvert(c)) == c
  {
  }

  /** Only a grey at exactly 1/2 (in every channel) is its own inverse. */
  lemma LinearInvertFixedPoints(c: Color)
    ensures LinearInvert(c) == c <==> c.r == 0.5 && c.g == 0.5 && c.b == 0.5
  {
  }

  datatype Stroke<P> = Stroke(paint: P, width: nat)

  /** The two shapes a document holds, with their SVG attributes. */
  datatype Element<P> =
    | Rectangle(x: int, y: int, width: int, height: int, fill: P, stroke: Option<Stroke<P>>)
    | Circle(cx: int, cy: int, r: int, fill: P, stroke: Option<Stroke<P>>)

  datatype ViewBox = ViewBox(minX: int, minY: int, width: int, height: int)

  /** The document's `style` attribute: `fill:<paint>` or `background-color:<paint>`. */
  datatype Style<P> = FillStyle(paint: P) | BackgroundColor(paint: P)

  datatype Document<P> = Document(viewBox: ViewBox, style: Style<P>, nodes: seq<Element<P>>)
  {
    /** Appending a node puts it last and changes nothing else. */
    function Append(e: Element<P>): (d: Document<P>)
      ensures d.viewBox == viewBox && d.style == style
      ensures |d.nodes| == |nodes| + 1 && d.nodes[..|nodes|] == nodes && d.nodes[|nodes|] == e
    {
      Document(viewBox, style, nodes + [e])
    }
  }

  /** An unstroked rectangle covering the whole `width` by `height` view box. */
  function Background<P>(width: nat, height: nat, paint: P): Element<P> {
    Rectangle(0, 0, width, height, paint, None)
  }

  /**
   * A fresh document over a `width` by `height` view box, styled to fill with
   * `secondary` and holding one background rectangle of that paint.
   */
  function InitDocument<P>(width: nat, height: nat, secondary: P): (d: Document<P>)
    ensures d.viewBox == ViewBox(0, 0, width, height)
    ensures d.style == FillStyle(secondary)
    ensures |d.nodes| == 1
    ensures d.nodes[0].Rectangle? && d.nodes[0].x == 0 && d.nodes[0].y == 0
    ensures d.nodes[0].width == width && d.nodes[0].height == height
    ensures d.nodes[0].fill == secondary && d.nodes[0].stroke == None
  {
    Document(ViewBox(0, 0, width, height), FillStyle(secondary), []).Append(Background(width, height, secondary))
  }
}
