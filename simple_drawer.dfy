/** The drawing panel `simpleDrawer.DrawPanel`: a raster image filled with the
    background colour, and a pointer-driven stroke state machine that draws one
    line segment per drag or release event after a press. */
module SimpleDrawer {
  import opened Wrappers

  /** A colour channel of `java.awt.Color`. */
  type Channel = x: int | 0 <= x < 256

  datatype Color = Color(red: Channel, green: Channel, blue: Channel)

  datatype Point = Point(x: int, y: int)

  /** The background colour the panel's generated layout code gives it. */
  const White: Color := Color(255, 255, 255)

  /** Width of `stroke` after `initialize()`. */
  const InitialLineWidth: int := 1

  /** Width of `eraserStroke`. */
  const EraserWidth: int := 20

  /** The colour and width a segment is drawn with. */
  datatype Pen = Pen(color: Color, width: int)

  /** One `drawLine` call into the image: from the last point to the new one. */
  datatype Segment = Segment(from: Point, to: Point, pen: Pen)

  // ---------------------------------------------------------------------------
  // The panel's state as a value, and its events
  // ---------------------------------------------------------------------------

  /** What the panel's methods read and write; `drawn` holds, in order, the
      segments drawn into the current image since it was filled. */
  datatype PanelState = PanelState(
    background: Color,
    inheritedForeground: Color,
    foreground: Option<Color>,
    point: Option<Point>,
    stroke: int,
    eraser: bool,
    eraserStroke: int,
    drawn: seq<Segment>)

  datatype Event =
    | Pressed(at: Point)
    | Dragged(at: Point)
    | Released(at: Point)
    | LineWidthSet(w: int)
    | EraserSet(on: bool)
    | ForegroundSet(c: Option<Color>)
    | ImageInitialized
    | Initialized

  /** `getForeground()`: the panel's own foreground colour, or, when that was
      set to `null`, the colour it inherits from its parent. */
  function EffectiveForeground(s: PanelState): Color
  {
    match s.foreground
    case Some(c) => c
    case None => s.inheritedForeground
  }

  /** The pen `lineSegment` selects: background colour and the eraser stroke in
      eraser mode, the foreground colour and the current stroke otherwise. */
  function CurrentPen(s: PanelState): Pen
  {
    if s.eraser then Pen(s.background, s.eraserStroke) else Pen(EffectiveForeground(s), s.stroke)
  }

  /** The effect of one handler or setter call on the panel's state. */
  function Step(s: PanelState, e: Event): PanelState
  {
    match e
    case Pressed(p) => s.(point := Some(p))
    case Dragged(p) =>
      if s.point.Some? then s.(drawn := s.drawn + [Segment(s.point.value, p, CurrentPen(s))], point := Some(p))
      else s
    case Released(p) =>
      if s.point.Some? then s.(drawn := s.drawn + [Segment(s.point.value, p, CurrentPen(s))], point := None)
      else s
    case LineWidthSet(w) => s.(stroke := if w < 1 then 1 else w)
    case EraserSet(on) => s.(eraser := on)
    case ForegroundSet(c) => s.(foreground := c)
    case ImageInitialized => s.(drawn := [])
    case Initialized => s.(drawn := [], stroke := InitialLineWidth, eraserStroke := EraserWidth)
  }

  /** The effect of a sequence of calls, in order. */
  function Run(s: PanelState, events: seq<Event>): PanelState
    decreases |events|
  {
    if events == [] then s else Run(Step(s, events[0]), events[1..])
  }

  /** The panel's invariant: the stroke width is at least 1, the eraser stroke
      is 20 wide, and every segment drawn so far is at least 1 wide. */
  ghost predicate Inv(s: PanelState)
  {
    s.stroke >= 1 && s.eraserStroke == EraserWidth &&
    forall i :: 0 <= i < |s.drawn| ==> s.drawn[i].pen.width >= 1
  }

  /** The pen is fixed by the mode: in eraser mode the background colour and
      width 20 whatever the configured width, otherwise the foreground colour
      and the configured width. */
  lemma PenByMode(s: PanelState, w: int)
    requires Inv(s)
    ensures s.eraser ==> CurrentPen(s) == Pen(s.background, EraserWidth) == CurrentPen(s.(stroke := w))
    ensures !s.eraser ==> CurrentPen(s) == Pen(EffectiveForeground(s), s.stroke)
  {
  }

  lemma StepKeepsInv(s: PanelState, e: Event)
    requires Inv(s)
    ensures Inv(Step(s, e))
  {
  }

  lemma {:induction false} RunKeepsInv(s: PanelState, events: seq<Event>)
    requires Inv(s)
    ensures Inv(Run(s, events))
    decreases |events|
  {
    if events != [] {
      StepKeepsInv(s, events[0]);
      RunKeepsInv(Step(s, events[0]), events[1..]);
    }
  }

  /** The calls that replace the image. */
  predicate ReplacesImage(e: Event)
  {
    e.ImageInitialized? || e.Initialized?
  }

  /** Every other call keeps the segments already drawn and adds at most one. */
  lemma StepExtendsDrawn(s: PanelState, e: Event)
    requires !ReplacesImage(e)
    ensures |s.drawn| <= |Step(s, e).drawn| <= |s.drawn| + 1
    ensures s.drawn == Step(s, e).drawn[..|s.drawn|]
  {
  }

  /** Changing the width, the eraser mode or the colour, and any drawing after
      it, never alters a segment already drawn: as long as the image is not
      replaced, the old segments stay a prefix of the new ones. */
  lemma {:induction false} RunKeepsDrawn(s: PanelState, events: seq<Event>)
    requires forall i :: 0 <= i < |events| ==> !ReplacesImage(events[i])
    ensures |s.drawn| <= |Run(s, events).drawn|
    ensures s.drawn == Run(s, events).drawn[..|s.drawn|]
    decreases |events|
  {
    if events != [] {
      StepExtendsDrawn(s, events[0]);
      RunKeepsDrawn(Step(s, events[0]), events[1..]);
    }
  }

  lemma {:induction false} RunAppend(s: PanelState, a: seq<Event>, b: seq<Event>)
    ensures Run(s, a + b) == Run(Run(s, a), b)
    decreases |a|
  {
    if a == [] {
      assert a + b == b;
    } else {
      assert (a + b)[0] == a[0];
      assert (a + b)[1..] == a[1..] + b;
      RunAppend(Step(s, a[0]), a[1..], b);
    }
  }

  // ---------------------------------------------------------------------------
  // One stroke: press, drags, release
  // ---------------------------------------------------------------------------

  function Drags(ps: seq<Point>): (events: seq<Event>)
    ensures |events| == |ps|
    ensures forall i :: 0 <= i < |ps| ==> events[i] == Dragged(ps[i])
  {
    if ps == [] then [] else [Dragged(ps[0])] + Drags(ps[1..])
  }

  /** The polyline from `from` through every point of `pts`, drawn with `pen`. */
  function Chain(pen: Pen, from: Point, pts: seq<Point>): (segs: seq<Segment>)
    ensures |segs| == |pts|
    decreases |pts|
  {
    if pts == [] then [] else [Segment(from, pts[0], pen)] + Chain(pen, pts[0], pts[1..])
  }

  /** Each segment of the chain ends at its point and starts where the previous one ended. */
  lemma {:induction false} ChainShape(pen: Pen, from: Point, pts: seq<Point>, i: nat)
    requires i < |pts|
    ensures Chain(pen, from, pts)[i] == Segment(if i == 0 then from else pts[i - 1], pts[i], pen)
    decreases |pts|
  {
    if i > 0 {
      ChainShape(pen, pts[0], pts[1..], i - 1);
    }
  }

  /** Drags while drawing each add the segment from the last point and move the last point. */
  lemma {:induction false} RunDrags(s: PanelState, p: Point, ps: seq<Point>)
    requires s.point == Some(p)
    ensures Run(s, Drags(ps)) ==
            s.(drawn := s.drawn + Chain(CurrentPen(s), p, ps),
               point := Some(if ps == [] then p else ps[|ps| - 1]))
    decreases |ps|
  {
    if ps == [] {
      assert s.drawn + [] == s.drawn;
    } else {
      var pen := CurrentPen(s);
      var t := Step(s, Dragged(ps[0]));
      assert t == s.(drawn := s.drawn + [Segment(p, ps[0], pen)], point := Some(ps[0]));
      assert CurrentPen(t) == pen;
      assert Drags(ps)[0] == Dragged(ps[0]);
      assert Drags(ps)[1..] == Drags(ps[1..]);
      assert Run(s, Drags(ps)) == Run(t, Drags(ps[1..]));
      RunDrags(t, ps[0], ps[1..]);
      var rest := ps[1..];
      assert (if rest == [] then ps[0] else rest[|rest| - 1]) == ps[|ps| - 1];
      assert Chain(pen, p, ps) == [Segment(p, ps[0], pen)] + Chain(pen, ps[0], rest);
      assert t.drawn + Chain(pen, ps[0], rest) == s.drawn + Chain(pen, p, ps);
    }
  }

  /** A press, k drags and a release draw exactly k + 1 segments, the polyline
      from the press position through the drag positions to the release
      position, with the pen in force; afterwards there is no last point. */
  lemma StrokeDrawsPolyline(s: PanelState, p0: Point, ps: seq<Point>, q: Point)
    ensures var t := Run(s, [Pressed(p0)] + Drags(ps) + [Released(q)]);
            t == s.(drawn := s.drawn + Chain(CurrentPen(s), p0, ps + [q]), point := None) &&
            |t.drawn| == |s.drawn| + |ps| + 1 &&
            t.drawn[|t.drawn| - 1].to == q
  {
    var s1 := Step(s, Pressed(p0));
    assert Run(s, [Pressed(p0)]) == s1;
    RunAppend(s, [Pressed(p0)], Drags(ps));
    RunDrags(s1, p0, ps);
    var s2 := Run(s1, Drags(ps));
    var last := if ps == [] then p0 else ps[|ps| - 1];
    RunAppend(s, [Pressed(p0)] + Drags(ps), [Released(q)]);
    assert Run(s2, [Released(q)]) == Step(s2, Released(q));
    ChainSnoc(CurrentPen(s), p0, ps, q);
    ChainShape(CurrentPen(s), p0, ps + [q], |ps|);
  }

  lemma {:induction false} ChainSnoc(pen: Pen, from: Point, ps: seq<Point>, q: Point)
    ensures Chain(pen, from, ps + [q]) ==
            Chain(pen, from, ps) + [Segment(if ps == [] then from else ps[|ps| - 1], q, pen)]
    decreases |ps|
  {
    if ps != [] {
      assert (ps + [q])[1..] == ps[1..] + [q];
      ChainSnoc(pen, ps[0], ps[1..], q);
    }
  }

  /** Drag and release do nothing while there is no last point. */
  lemma IdleIgnoresDragAndRelease(s: PanelState, p: Point)
    requires s.point.None?
    ensures Step(s, Dragged(p)) == s && Step(s, Released(p)) == s
  {
  }

  /** A width below 1 is drawn as width 1 by the next segment. */
  lemma ClampedWidthBeforeNextSegment(s: PanelState, w: int, p: Point)
    requires s.point.Some? && !s.eraser && w < 1
    ensures Run(s, [LineWidthSet(w), Dragged(p)]).drawn == s.drawn + [Segment(s.point.value, p, Pen(EffectiveForeground(s), 1))]
  {
    var t := Step(s, LineWidthSet(w));
    assert [LineWidthSet(w), Dragged(p)][1..] == [Dragged(p)];
    assert Run(s, [LineWidthSet(w), Dragged(p)]) == Run(t, [Dragged(p)]);
    assert Run(t, [Dragged(p)]) == Run(Step(t, Dragged(p)), []);
  }

  /** A colour dialog that was cancelled passes `null`: the next segment drawn
      outside eraser mode has the inherited colour, not the one chosen before. */
  lemma CancelledColorUsesInherited(s: PanelState, p: Point)
    requires s.point.Some? && !s.eraser
    ensures Run(s, [ForegroundSet(None), Dragged(p)]).drawn ==
            s.drawn + [Segment(s.point.value, p, Pen(s.inheritedForeground, s.stroke))]
  {
    var t := Step(s, ForegroundSet(None));
    assert [ForegroundSet(None), Dragged(p)][1..] == [Dragged(p)];
    assert Run(s, [ForegroundSet(None), Dragged(p)]) == Run(t, [Dragged(p)]);
    assert Run(t, [Dragged(p)]) == Run(Step(t, Dragged(p)), []);
  }

  // ---------------------------------------------------------------------------
  // The panel object
  // ---------------------------------------------------------------------------

  /** A fresh `width` x `height` image with every pixel `c`. */
  method FilledImage(width: nat, height: nat, c: Color) returns (img: array2<Color>)
    ensures fresh(img)
    ensures img.Length0 == width && img.Length1 == height
    ensures forall x, y :: 0 <= x < width && 0 <= y < height ==> img[x, y] == c
  {
    img := new Color[width, height]((x, y) => c);
  }

  class DrawPanel {
    /** The panel's preferred size, which `initializeImage` gives the image. */
    const width: nat
    const height: nat
    const background: Color
    /** The colour the panel's parent has, which `getForeground()` falls back to. */
    const inheritedForeground: Color
    /** The panel's own foreground colour; `None` after `setForeground(null)`. */
    var foreground: Option<Color>
    /** The pixels as `initializeImage` filled them (indexed [x, y]). */
    var image: array2<Color>
    /** The last pointer position of the current stroke, if any. */
    var point: Option<Point>
    var stroke: int
    var eraser: bool
    var eraserStroke: int
    /** The segments drawn into `image` since it was filled, in order. */
    var drawn: seq<Segment>

    function State(): PanelState
      reads this
    {
      PanelState(background, inheritedForeground, foreground, point, stroke, eraser, eraserStroke, drawn)
    }

    ghost predicate Valid()
      reads this
    {
      Inv(State()) && image.Length0 == width && image.Length1 == height
    }

    /** `new DrawPanel()` followed by `initialize()`, as the application's
        frame does: white background, no stroke in progress, width 1, eraser
        off, and an image the size of the panel filled with the background. */
    constructor (width: nat, height: nat, foreground: Color, inheritedForeground: Color)
      ensures Valid() && fresh(image)
      ensures this.width == width && this.height == height
      ensures State() == PanelState(White, inheritedForeground, Some(foreground), None, InitialLineWidth, false, EraserWidth, [])
      ensures forall x, y :: 0 <= x < width && 0 <= y < height ==> image[x, y] == White
    {
      var img := FilledImage(width, height, White);
      this.width := width;
      this.height := height;
      this.background := White;
      this.inheritedForeground := inheritedForeground;
      this.foreground := Some(foreground);
      point := None;
      eraser := false;
      stroke := InitialLineWidth;
      eraserStroke := EraserWidth;
      drawn := [];
      image := img;
    }

    /** `initialize()`: a new filled image, width 1, eraser stroke 20. */
    method Initialize()
      requires Valid()
      modifies this
      ensures Valid() && fresh(image)
      ensures State() == Step(old(State()), Initialized)
      ensures forall x, y :: 0 <= x < width && 0 <= y < height ==> image[x, y] == background
    {
      InitializeImage();
      stroke := InitialLineWidth;
      eraserStroke := EraserWidth;
    }

    /** `initializeImage()`: discard the drawing; every pixel becomes the background colour. */
    method InitializeImage()
      requires Valid()
      modifies this
      ensures Valid() && fresh(image)
      ensures State() == Step(old(State()), ImageInitialized)
      ensures drawn == []
      ensures forall x, y :: 0 <= x < width && 0 <= y < height ==> image[x, y] == background
    {
      image := FilledImage(width, height, background);
      drawn := [];
    }

    /** `setLineWidth(w)`: the width becomes `w`, or 1 when `w` is below 1. */
    method SetLineWidth(w: int)
      requires Valid()
      modifies this`stroke
      ensures Valid()
      ensures stroke >= 1 && (w >= 1 ==> stroke == w) && (w < 1 ==> stroke == 1)
      ensures State() == Step(old(State()), LineWidthSet(w))
    {
      var clamped := w;
      if clamped < 1 {
        clamped := 1;
      }
      stroke := clamped;
    }

    /** `setEraser(eraser)`. */
    method SetEraser(on: bool)
      requires Valid()
      modifies this`eraser
      ensures Valid() && eraser == on
      ensures State() == Step(old(State()), EraserSet(on))
    {
      eraser := on;
    }

    /** The inherited `setForeground(c)` the colour chooser calls; `c` is `None`
        when the dialog was cancelled. */
    method SetForeground(c: Option<Color>)
      requires Valid()
      modifies this`foreground
      ensures Valid() && foreground == c
      ensures EffectiveForeground(State()) == (if c.Some? then c.value else inheritedForeground)
      ensures State() == Step(old(State()), ForegroundSet(c))
    {
      foreground := c;
    }

    /** `lineSegment(x, y)`: one segment from the last point to (x, y) with the current pen. */
    method LineSegment(x: int, y: int)
      requires Valid() && point.Some?
      modifies this`drawn
      ensures Valid()
      ensures drawn == old(drawn) + [Segment(point.value, Point(x, y), CurrentPen(State()))]
    {
      var color := if foreground.Some? then foreground.value else inheritedForeground;
      var pen := if eraser then Pen(background, eraserStroke) else Pen(color, stroke);
      drawn := drawn + [Segment(point.value, Point(x, y), pen)];
    }

    /** `mousePressed`: the press position becomes the last point; nothing is drawn. */
    method MousePressed(p: Point)
      requires Valid()
      modifies this`point
      ensures Valid() && point == Some(p) && drawn == old(drawn)
      ensures State() == Step(old(State()), Pressed(p))
    {
      point := Some(p);
    }

    /** `mouseReleased`: with a last point, one segment to the release position,
        then no last point; without one, nothing changes. */
    method MouseReleased(p: Point)
      requires Valid()
      modifies this`point, this`drawn
      ensures Valid()
      ensures old(point).Some? ==> point == None && drawn == old(drawn) + [Segment(old(point).value, p, CurrentPen(State()))]
      ensures old(point).None? ==> point == None && drawn == old(drawn)
      ensures State() == Step(old(State()), Released(p))
    {
      if point.Some? {
        LineSegment(p.x, p.y);
        point := None;
      }
    }

    /** `mouseDragged`: with a last point, one segment to the drag position,
        which becomes the last point; without one, nothing changes. */
    method MouseDragged(p: Point)
      requires Valid()
      modifies this`point, this`drawn
      ensures Valid()
      ensures old(point).Some? ==> point == Some(p) && drawn == old(drawn) + [Segment(old(point).value, p, CurrentPen(State()))]
      ensures old(point).None? ==> point == None && drawn == old(drawn)
      ensures State() == Step(old(State()), Dragged(p))
    {
      if point.Some? {
        LineSegment(p.x, p.y);
        point := Some(p);
      }
    }
  }
}
