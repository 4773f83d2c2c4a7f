/** The pan and zoom of design/image-slot.js: `_geom`, `_clampView`, the drag, resize and wheel
    handlers, and the re-seeding in `_render`. Lengths are reals. `s` is the zoom over the
    baseline fit; `x` and `y` are the offset of the image's centre from the frame's, in percent of
    the frame.
 */
module CropGeometry {

  const S_MAX: real := 5.0

  datatype View = View(s: real, x: real, y: real)

  function Max(a: real, b: real): real { if a >= b then a else b }

  function Min(a: real, b: real): real { if a <= b then a else b }

  function ClampS(s: real): real { Max(1.0, Min(S_MAX, s)) }

  /** Image and frame as `_geom` reads them: an image that has not loaded has no size, nor has a
      frame without a layout. */
  datatype Geometry = Geometry(iw: real, ih: real, fw: real, fh: real, contain: bool) {
    predicate Sized() { iw >= 0.0 && ih >= 0.0 && fw >= 0.0 && fh >= 0.0 }

    predicate Known() { iw > 0.0 && ih > 0.0 && fw > 0.0 && fh > 0.0 }

    function Base(): real
      requires Known()
    {
      if contain then Min(fw / iw, fh / ih) else Max(fw / iw, fh / ih)
    }
  }

  /** How long an image is on one axis, in frames. */
  function Frames(length: real, base: real, s: real, frame: real): real
    requires frame > 0.0
  {
    length * base * s / frame
  }

  /** Half the overflow past the frame's edge, in percent of the frame. */
  function Overflow(frames: real): real { Max(0.0, (frames - 1.0) * 50.0) }

  function ClampAxis(m: real, o: real): real { Max(-m, Min(m, o)) }

  /** Nothing is clamped while the geometry is unknown. */
  function Clamped(g: Geometry, v: View): View {
    if !g.Known() then v
    else
      var base := g.Base();
      View(v.s,
           ClampAxis(Overflow(Frames(g.iw, base, v.s, g.fw)), v.x),
           ClampAxis(Overflow(Frames(g.ih, base, v.s, g.fh)), v.y))
  }

  /** The edge that a drag leaves in place: the one opposite the dragged corner, on one axis, of an
      image of this length with its centre `o` percent off. */
  function FarEdge(o: real, frame: real, sign: real, length: real): real {
    (50.0 + o) / 100.0 * frame - sign * length / 2.0
  }

  /** The pointer's offset from the fixed corner, along the diagonal's direction (ux, uy). */
  function Along(px: real, ox: real, ux: real, py: real, oy: real, uy: real): real {
    (px - ox) * ux + (py - oy) * uy
  }

  /** The zoom that makes a diagonal of length `diag` at zoom `s0` as long as asked for. */
  function ZoomFor(s0: real, length: real, diag: real): real
    requires diag > 0.0
  {
    ClampS(s0 * length / diag)
  }

  function Diagonal(diag: real, s: real, s0: real): real
    requires s0 > 0.0
  {
    diag * s / s0
  }

  /** The centre of an image that begins at `edge` and has a diagonal of length `d`. */
  function Centre(edge: real, u: real, d: real, frame: real): real
    requires frame > 0.0
  {
    (edge + u * d / 2.0) / frame * 100.0 - 50.0
  }

  /** Where the move of a corner drag puts the image: its fixed corner is at (ox, oy), and (ux, uy)
      the direction of its diagonal. */
  function Dragged(s0: real, diag: real, ox: real, oy: real, ux: real, uy: real,
                   fw: real, fh: real, px: real, py: real): View
    requires s0 > 0.0 && diag > 0.0 && fw > 0.0 && fh > 0.0
  {
    var s := ZoomFor(s0, Along(px, ox, ux, py, oy, uy), diag);
    var d := Diagonal(diag, s, s0);
    View(s, Centre(ox, ux, d, fw), Centre(oy, uy, d, fh))
  }

  function Resized(v: View, w0: real, h0: real, diag: real, fw: real, fh: real,
                   sx: real, sy: real, px: real, py: real): View
    requires diag > 0.0 && fw > 0.0 && fh > 0.0 && v.s > 0.0
  {
    Dragged(v.s, diag, FarEdge(v.x, fw, sx, w0), FarEdge(v.y, fh, sy, h0),
            sx * w0 / diag, sy * h0 / diag, fw, fh, px, py)
  }

  function Zoomed(v: View, cx: real, cy: real, next: real): View
    requires v.s > 0.0
  {
    var k := next / v.s;
    View(next, cx * (1.0 - k) + v.x * k, cy * (1.0 - k) + v.y * k)
  }

  function WheelZoom(v: View, factor: real): real { ClampS(v.s * factor) }

  function Wheeled(g: Geometry, v: View, cx: real, cy: real, next: real): View
    requires v.s > 0.0
  {
    if next == v.s then v else Clamped(g, Zoomed(v, cx, cy, next))
  }

  /** What a render starts from. */
  function Reseeded(v: View, reframing: bool, stored: View): View {
    if reframing then v else stored.(s := ClampS(stored.s))
  }

  class Cropper {
    var view: View

    constructor ()
      ensures view == View(1.0, 0.0, 0.0)
    {
      view := View(1.0, 0.0, 0.0);
    }

    method ClampView(g: Geometry)
      requires g.Sized()
      modifies this
      ensures view == Clamped(g, old(view))
    {
      if g.iw == 0.0 || g.ih == 0.0 || g.fw == 0.0 || g.fh == 0.0 {
        return;
      }
      var base := g.Base();
      var mx := Overflow(Frames(g.iw, base, view.s, g.fw));
      var my := Overflow(Frames(g.ih, base, view.s, g.fh));
      view := view.(x := Max(-mx, Min(mx, view.x)));
      view := view.(y := Max(-my, Min(my, view.y)));
    }

    /** A pan gesture that has moved the pointer by (dx, dy) since it began at (startX, startY). */
    method Pan(g: Geometry, startX: real, startY: real, dx: real, dy: real, rw: real, rh: real)
      requires g.Sized() && rw > 0.0 && rh > 0.0
      modifies this
      ensures view == Clamped(g, View(old(view).s, startX + dx / rw * 100.0, startY + dy / rh * 100.0))
    {
      view := view.(x := startX + dx / rw * 100.0);
      view := view.(y := startY + dy / rh * 100.0);
      ClampView(g);
    }

    /** A corner drag that began with the view `start`. */
    method Resize(g: Geometry, start: View, w0: real, h0: real, diag: real, rw: real, rh: real,
                  sx: real, sy: real, px: real, py: real)
      requires g.Sized() && diag > 0.0 && rw > 0.0 && rh > 0.0 && start.s > 0.0
      modifies this
      ensures view == Clamped(g, Resized(start, w0, h0, diag, rw, rh, sx, sy, px, py))
    {
      var cx, cy := (50.0 + start.x) / 100.0 * rw, (50.0 + start.y) / 100.0 * rh;
      var ox, oy := cx - sx * w0 / 2.0, cy - sy * h0 / 2.0;
      var ux, uy := sx * w0 / diag, sy * h0 / diag;
      assert ox == FarEdge(start.x, rw, sx, w0) && oy == FarEdge(start.y, rh, sy, h0);
      Drag(g, start.s, diag, ox, oy, ux, uy, rw, rh, px, py);
    }

    /** The handler of the drag's moves. */
    method Drag(g: Geometry, s0: real, diag: real, ox: real, oy: real, ux: real, uy: real,
                rw: real, rh: real, px: real, py: real)
      requires g.Sized() && s0 > 0.0 && diag > 0.0 && rw > 0.0 && rh > 0.0
      modifies this
      ensures view == Clamped(g, Dragged(s0, diag, ox, oy, ux, uy, rw, rh, px, py))
    {
      var proj := (px - ox) * ux + (py - oy) * uy;
      var s := ClampS(s0 * proj / diag);
      var d := diag * s / s0;
      view := view.(s := s);
      view := view.(x := (ox + ux * d / 2.0) / rw * 100.0 - 50.0);
      view := view.(y := (oy + uy * d / 2.0) / rh * 100.0 - 50.0);
      assert s == ZoomFor(s0, proj, diag) && d == Diagonal(diag, s, s0);
      assert view == Dragged(s0, diag, ox, oy, ux, uy, rw, rh, px, py);
      ClampView(g);
    }

    /** `factor` is the power the wheel's delta comes to. */
    method Wheel(g: Geometry, cx: real, cy: real, factor: real)
      requires g.Sized() && view.s > 0.0
      modifies this
      ensures view == Wheeled(g, old(view), cx, cy, WheelZoom(old(view), factor))
    {
      var next := ClampS(view.s * factor);
      assert next == WheelZoom(view, factor);
      ZoomTo(g, cx, cy, next);
    }

    /** The part of the wheel handler that follows the clamp of the zoom. */
    method ZoomTo(g: Geometry, cx: real, cy: real, next: real)
      requires g.Sized() && view.s > 0.0
      modifies this
      ensures view == Wheeled(g, old(view), cx, cy, next)
    {
      if next == view.s {
        return;
      }
      var k := next / view.s;
      view := view.(s := next);
      view := view.(x := cx * (1.0 - k) + view.x * k);
      view := view.(y := cy * (1.0 - k) + view.y * k);
      assert view == Zoomed(old(view), cx, cy, next);
      ClampView(g);
    }

    /** A render, after the frame's size changed for instance; outside reframe mode the view is
        taken from the store again. Without an image to show nothing is clamped. */
    method Render(g: Geometry, filled: bool, reframing: bool, stored: View)
      requires g.Sized()
      modifies this
      ensures var v := Reseeded(old(view), reframing, stored); view == if filled then Clamped(g, v) else v
    {
      if !reframing {
        view := stored.(s := ClampS(stored.s));
      }
      if !filled {
        return;
      }
      ClampView(g);
    }
  }

  // ---------------------------------------------------------------- where the image lies

  /** On one axis, an image `frames` frames long with its centre `o` percent off: it covers the
      frame from edge to edge, or it is smaller and centred. */
  ghost predicate WellPlaced(frames: real, o: real) {
    if frames >= 1.0
    then 50.0 + o - frames * 50.0 <= 0.0 && 50.0 + o + frames * 50.0 >= 100.0
    else o == 0.0
  }

  ghost predicate InFrame(g: Geometry, v: View)
    requires g.Known()
  {
    && 1.0 <= v.s <= S_MAX
    && WellPlaced(Frames(g.iw, g.Base(), v.s, g.fw), v.x)
    && WellPlaced(Frames(g.ih, g.Base(), v.s, g.fh), v.y)
  }

  lemma AxisIsPlaced(frames: real, o: real)
    ensures WellPlaced(frames, ClampAxis(Overflow(frames), o))
    ensures WellPlaced(frames, o) <==> ClampAxis(Overflow(frames), o) == o
  {
  }

  /** Clamping puts the image right, and moves nothing that is right already. */
  lemma ClampedIsInFrame(g: Geometry, v: View)
    requires g.Known() && 1.0 <= v.s <= S_MAX
    ensures InFrame(g, Clamped(g, v))
    ensures InFrame(g, v) <==> Clamped(g, v) == v
  {
    AxisIsPlaced(Frames(g.iw, g.Base(), v.s, g.fw), v.x);
    AxisIsPlaced(Frames(g.ih, g.Base(), v.s, g.fh), v.y);
  }

  lemma AtLeast(r: real, frame: real)
    requires frame > 0.0
    ensures r * frame >= frame ==> r >= 1.0
    ensures r * frame <= frame ==> r <= 1.0
  {
    assert r * frame - frame == (r - 1.0) * frame;
  }

  lemma Scale(length: real, a: real, b: real)
    requires length > 0.0 && a <= b
    ensures length * a <= length * b
  {
  }

  lemma InFrames(length: real, frame: real)
    requires frame > 0.0
    ensures length >= frame ==> length / frame >= 1.0
    ensures length <= frame ==> length / frame <= 1.0
  {
    var r := length / frame;
    assert r * frame == length;
    AtLeast(r, frame);
  }

  lemma Stretch(length: real, s: real, frame: real)
    requires length >= frame > 0.0 && s >= 1.0
    ensures length * s >= frame
  {
    assert length * s - length == length * (s - 1.0);
  }

  /** A base scale of at least frame over length makes the image at least a frame long at every
      zoom; one of at most that, at most a frame long at zoom 1. */
  lemma Fits(length: real, frame: real, base: real, s: real)
    requires length > 0.0 && frame > 0.0 && s >= 1.0
    ensures base >= frame / length ==> Frames(length, base, s, frame) >= 1.0
    ensures base <= frame / length ==> Frames(length, base, 1.0, frame) <= 1.0
  {
    var q := frame / length;
    assert length * q == frame;
    if base >= q {
      Scale(length, q, base);
      Stretch(length * base, s, frame);
      InFrames(length * base * s, frame);
    }
    if base <= q {
      Scale(length, base, q);
      InFrames(length * base * 1.0, frame);
    }
  }

  /** A `cover` image is at least a frame long on both axes, a `contain` image at most before it is
      zoomed. */
  lemma BaselineFits(g: Geometry, s: real)
    requires g.Known() && s >= 1.0
    ensures !g.contain ==> Frames(g.iw, g.Base(), s, g.fw) >= 1.0 && Frames(g.ih, g.Base(), s, g.fh) >= 1.0
    ensures g.contain ==> Frames(g.iw, g.Base(), 1.0, g.fw) <= 1.0 && Frames(g.ih, g.Base(), 1.0, g.fh) <= 1.0
  {
    Fits(g.iw, g.fw, g.Base(), s);
    Fits(g.ih, g.fh, g.Base(), s);
  }

  // ---------------------------------------------------------------- where nothing is clamped

  /** No part of the frame is bare on an axis where the image is `frames` frames long. */
  ghost predicate NoneBare(frames: real, o: real) {
    50.0 + o - frames * 50.0 <= 0.0 && 50.0 + o + frames * 50.0 >= 100.0
  }

  ghost predicate FrameIsFull(g: Geometry, v: View)
    requires g.Known()
  {
    NoneBare(Frames(g.iw, g.Base(), v.s, g.fw), v.x) && NoneBare(Frames(g.ih, g.Base(), v.s, g.fh), v.y)
  }

  lemma CoverFillsFrame(g: Geometry, v: View)
    requires g.Known() && 1.0 <= v.s <= S_MAX && !g.contain
    ensures FrameIsFull(g, v) <==> InFrame(g, v)
  {
    BaselineFits(g, v.s);
  }

  /** Both offsets are within half the overflow of their axis. */
  ghost predicate InRange(g: Geometry, v: View)
    requires g.Known()
  {
    && -Overflow(Frames(g.iw, g.Base(), v.s, g.fw)) <= v.x <= Overflow(Frames(g.iw, g.Base(), v.s, g.fw))
    && -Overflow(Frames(g.ih, g.Base(), v.s, g.fh)) <= v.y <= Overflow(Frames(g.ih, g.Base(), v.s, g.fh))
  }

  lemma RangeOnAxis(frames: real, o: real)
    ensures -Overflow(frames) <= o <= Overflow(frames) <==> WellPlaced(frames, o)
  {
  }

  lemma InRangeIsInFrame(g: Geometry, v: View)
    requires g.Known() && 1.0 <= v.s <= S_MAX
    ensures InRange(g, v) <==> InFrame(g, v)
  {
    RangeOnAxis(Frames(g.iw, g.Base(), v.s, g.fw), v.x);
    RangeOnAxis(Frames(g.ih, g.Base(), v.s, g.fh), v.y);
  }

  // ---------------------------------------------------------------- in pixels

  /** The scale that makes the image just cover the frame, or just fit into it. */
  ghost function JustFits(g: Geometry): real
    requires g.Known()
  {
    var wide, high := g.fw / g.iw, g.fh / g.ih;
    if (wide <= high) == g.contain then wide else high
  }

  /** On one axis, an image `length` pixels long around a centre `o` percent off the frame's: no gap at
      either edge, or a gap of the same width at both. */
  ghost predicate Covers(length: real, frame: real, o: real) {
    var near := (50.0 + o) / 100.0 * frame - length / 2.0;
    var far := near + length;
    if length >= frame then near <= 0.0 && far >= frame else near == frame - far
  }

  lemma SignOfProduct(a: real, b: real)
    requires b > 0.0
    ensures a * b >= 0.0 <==> a >= 0.0
    ensures a * b <= 0.0 <==> a <= 0.0
  {
  }

  lemma CoversOnAxis(length: real, frame: real, o: real)
    requires frame > 0.0
    ensures WellPlaced(length / frame, o) <==> Covers(length, frame, o)
    ensures NoneBare(length / frame, o) <==> length >= frame && Covers(length, frame, o)
  {
    var f := length / frame;
    assert f * frame == length;
    var gap := 50.0 + o - f * 50.0;
    var rest := 50.0 + o + f * 50.0 - 100.0;
    assert (50.0 + o) / 100.0 * frame - length / 2.0 == gap * frame / 100.0;
    assert (50.0 + o) / 100.0 * frame + length / 2.0 - frame == rest * frame / 100.0;
    assert (f - 1.0) * frame == length - frame;
    SignOfProduct(gap, frame);
    SignOfProduct(rest, frame);
    SignOfProduct(f - 1.0, frame);
    SignOfProduct(o, frame);
    assert o * frame == 50.0 * (gap * frame / 100.0 + rest * frame / 100.0);
  }

  lemma BaseJustFits(g: Geometry)
    requires g.Known()
    ensures g.Base() == JustFits(g)
  {
  }

  lemma FramesOf(length: real, base: real, s: real, frame: real, pixels: real)
    requires frame > 0.0 && pixels == length * base * s
    ensures Frames(length, base, s, frame) == pixels / frame
  {
  }

  lemma PixelsMean(g: Geometry, v: View, w: real, h: real)
    requires g.Known() && Frames(g.iw, g.Base(), v.s, g.fw) == w / g.fw && Frames(g.ih, g.Base(), v.s, g.fh) == h / g.fh
    ensures InFrame(g, v) <==> 1.0 <= v.s <= 5.0 && Covers(w, g.fw, v.x) && Covers(h, g.fh, v.y)
    ensures FrameIsFull(g, v) <==> w >= g.fw && h >= g.fh && Covers(w, g.fw, v.x) && Covers(h, g.fh, v.y)
  {
    CoversOnAxis(w, g.fw, v.x);
    CoversOnAxis(h, g.fh, v.y);
  }

  /** What the laws about placement say, in pixels of the image as it is shown. */
  lemma InFrameMeans(g: Geometry, v: View, w: real, h: real)
    requires g.Known() && w == g.iw * JustFits(g) * v.s && h == g.ih * JustFits(g) * v.s
    ensures InFrame(g, v) <==> 1.0 <= v.s <= 5.0 && Covers(w, g.fw, v.x) && Covers(h, g.fh, v.y)
    ensures FrameIsFull(g, v) <==> w >= g.fw && h >= g.fh && Covers(w, g.fw, v.x) && Covers(h, g.fh, v.y)
  {
    BaseJustFits(g);
    FramesOf(g.iw, JustFits(g), v.s, g.fw, w);
    FramesOf(g.ih, JustFits(g), v.s, g.fh, h);
    PixelsMean(g, v, w, h);
  }

  ghost function Distance(a: real, b: real): real { if a <= b then b - a else a - b }

  lemma NearestOnAxis(frames: real, o: real, other: real)
    requires WellPlaced(frames, other)
    ensures Distance(ClampAxis(Overflow(frames), o), o) <= Distance(other, o)
  {
    RangeOnAxis(frames, other);
  }

  /** The clamp moves the image no further than it must: no other placement that is right at this
      zoom is nearer, on either axis. */
  lemma ClampIsNearest(g: Geometry, v: View, other: View)
    requires g.Known() && other.s == v.s && InFrame(g, other)
    ensures Clamped(g, v).s == v.s
    ensures Distance(Clamped(g, v).x, v.x) <= Distance(other.x, v.x)
    ensures Distance(Clamped(g, v).y, v.y) <= Distance(other.y, v.y)
  {
    NearestOnAxis(Frames(g.iw, g.Base(), v.s, g.fw), v.x, other.x);
    NearestOnAxis(Frames(g.ih, g.Base(), v.s, g.fh), v.y, other.y);
  }

  /** The zoom nearest to the one asked for. */
  ghost predicate NearestZoom(s: real, asked: real) {
    s == if asked < 1.0 then 1.0 else if asked > 5.0 then 5.0 else asked
  }

  lemma ClampSIsNearest(asked: real)
    ensures NearestZoom(ClampS(asked), asked)
  {
  }

  // ---------------------------------------------------------------- runs

  datatype State = State(g: Geometry, view: View)

  /** Before the first render nothing has been measured. */
  const START := State(Geometry(0.0, 0.0, 0.0, 0.0, false), View(1.0, 0.0, 0.0))

  /** `Load`: the image's sizes change, because it has loaded or failed to. `Render`: the frame has
      these sizes and this fit, and shows an image or none. */
  datatype Event =
    | Load(iw: real, ih: real)
    | Render(fw: real, fh: real, contain: bool, filled: bool, reframing: bool, stored: View)
    | Pan(startX: real, startY: real, dx: real, dy: real, rw: real, rh: real)
    | Resize(start: View, w0: real, h0: real, diag: real, rw: real, rh: real, sx: real, sy: real, px: real, py: real)
    | Wheel(cx: real, cy: real, factor: real)

  /** Sizes are not negative; where there is a gesture the frame has one, and so have the image's
      diagonal and the zoom that a drag began with. */
  ghost predicate Possible(e: Event) {
    match e
    case Load(iw, ih) => iw >= 0.0 && ih >= 0.0
    case Render(fw, fh, _, _, _, _) => fw >= 0.0 && fh >= 0.0
    case Pan(_, _, _, _, rw, rh) => rw > 0.0 && rh > 0.0
    case Resize(start, _, _, diag, rw, rh, _, _, _, _) => diag > 0.0 && rw > 0.0 && rh > 0.0 && start.s > 0.0
    case Wheel(_, _, _) => true
  }

  function Measured(g: Geometry, e: Event): Geometry {
    match e
    case Load(iw, ih) => g.(iw := iw, ih := ih)
    case Render(fw, fh, contain, filled, _, _) =>
      Geometry(if filled then g.iw else 0.0, if filled then g.ih else 0.0, fw, fh, contain)
    case _ => g
  }

  /** The view a step aims at, before the clamp. */
  function Target(v: View, e: Event): View
    requires Possible(e) && v.s > 0.0
  {
    match e
    case Load(_, _) => v
    case Render(_, _, _, _, reframing, stored) => Reseeded(v, reframing, stored)
    case Pan(startX, startY, dx, dy, rw, rh) => View(v.s, startX + dx / rw * 100.0, startY + dy / rh * 100.0)
    case Resize(start, w0, h0, diag, rw, rh, sx, sy, px, py) => Resized(start, w0, h0, diag, rw, rh, sx, sy, px, py)
    case Wheel(cx, cy, factor) => Zoomed(v, cx, cy, WheelZoom(v, factor))
  }

  /** The listener of `load` applies the view and does not clamp it; a wheel turn that leaves the
      zoom alone ends at once. */
  predicate Clamps(v: View, e: Event) {
    !e.Load? && (e.Wheel? ==> WheelZoom(v, e.factor) != v.s)
  }

  /** What the methods of `Cropper` make of the view. */
  function Next(s: State, e: Event): State
    requires Possible(e) && s.view.s > 0.0
  {
    State(Measured(s.g, e),
          match e
          case Load(_, _) => s.view
          case Wheel(cx, cy, factor) => Wheeled(s.g, s.view, cx, cy, WheelZoom(s.view, factor))
          case _ => Clamped(Measured(s.g, e), Target(s.view, e)))
  }

  /** The other steps of a run are those methods, too. */
  lemma DragIsStep(s: State, e: Event)
    requires Possible(e) && s.view.s > 0.0 && e.Resize?
    ensures Next(s, e).view ==
            Clamped(s.g, Resized(e.start, e.w0, e.h0, e.diag, e.rw, e.rh, e.sx, e.sy, e.px, e.py))
  {
  }

  lemma PanIsStep(s: State, e: Event)
    requires Possible(e) && s.view.s > 0.0 && e.Pan?
    ensures Next(s, e).view ==
            Clamped(s.g, View(s.view.s, e.startX + e.dx / e.rw * 100.0, e.startY + e.dy / e.rh * 100.0))
  {
  }

  lemma RenderIsStep(s: State, e: Event)
    requires Possible(e) && s.view.s > 0.0 && e.Render?
    ensures var v := Reseeded(s.view, e.reframing, e.stored);
      Next(s, e).view == if e.filled then Clamped(Geometry(s.g.iw, s.g.ih, e.fw, e.fh, e.contain), v) else v
  {
  }

  /** What is known of the sizes after a step: a load brings the image's, a render the frame's, and
      without an image to show there is none. */
  lemma SizesMean(s: State, e: Event)
    requires Possible(e) && s.view.s > 0.0
    ensures var g, g' := s.g, Next(s, e).g;
      match e
      case Load(iw, ih) => g' == Geometry(iw, ih, g.fw, g.fh, g.contain)
      case Render(fw, fh, contain, filled, _, _) =>
        if filled then g' == Geometry(g.iw, g.ih, fw, fh, contain) else g'.iw == g'.ih == 0.0 && !g'.Known()
      case _ => g' == g
  {
  }

  ghost predicate Valid(s: State) { s.g.Sized() && 1.0 <= s.view.s <= S_MAX }

  lemma TargetZoom(v: View, e: Event)
    requires Possible(e) && 1.0 <= v.s <= S_MAX
    ensures 1.0 <= Target(v, e).s <= S_MAX
  {
  }

  lemma NextIsValid(s: State, e: Event)
    requires Valid(s) && Possible(e)
    ensures Valid(Next(s, e))
  {
    TargetZoom(s.view, e);
  }

  /** The zoom after a turn of the wheel, a render, a pan and a load. */
  lemma ZoomMeans(s: State, e: Event, asked: real)
    requires Valid(s) && Possible(e)
    requires match e
      case Wheel(_, _, factor) => asked == s.view.s * factor
      case Render(_, _, _, _, reframing, stored) => asked == if reframing then s.view.s else stored.s
      case _ => asked == s.view.s
    ensures e.Resize? || NearestZoom(Next(s, e).view.s, asked)
  {
    ClampSIsNearest(asked);
  }

  /** Each step but a load puts the image right, wherever it was, unless it is a wheel turn at the end
      of the zoom's range, which does just when the image was right before. */
  lemma GestureStaysInFrame(s: State, e: Event)
    requires Valid(s) && Possible(e) && !e.Load? && Next(s, e).g.Known()
    ensures InFrame(Next(s, e).g, Next(s, e).view) <==> Clamps(s.view, e) || InFrame(s.g, s.view)
  {
    NextIsValid(s, e);
    if Clamps(s.view, e) {
      TargetZoom(s.view, e);
      ClampedIsInFrame(Next(s, e).g, Target(s.view, e));
    }
  }

  ghost predicate AllPossible(es: seq<Event>) {
    forall i :: 0 <= i < |es| ==> Possible(es[i])
  }

  /** Sizes and view after these steps. */
  ghost function After(es: seq<Event>): (s: State)
    requires AllPossible(es)
    ensures Valid(s)
  {
    if es == [] then START
    else
      var n := |es| - 1;
      assert Possible(es[n]);
      NextIsValid(After(es[..n]), es[n]);
      Next(After(es[..n]), es[n])
  }

  /** Something has clamped the view, or would have, had the geometry been known, since the image
      last loaded. */
  ghost predicate ClampedSinceLoad(es: seq<Event>)
    requires AllPossible(es)
  {
    es != [] &&
    var n := |es| - 1;
    !es[n].Load? && (Clamps(After(es[..n]).view, es[n]) || ClampedSinceLoad(es[..n]))
  }

  /** A view that has not been clamped since is just the one that a load has found. */
  lemma {:induction false} StandsAsLoaded(es: seq<Event>)
    requires AllPossible(es) && !ClampedSinceLoad(es) && After(es).g.Known()
    ensures exists i :: 0 <= i < |es| && es[i].Load? && After(es) == After(es[..i + 1])
  {
    var n := |es| - 1;
    assert Possible(es[n]);
    if es[n].Load? {
      assert es[..n + 1] == es;
    } else {
      StandsAsLoaded(es[..n]);
      var i :| 0 <= i < n && es[..n][i].Load? && After(es[..n]) == After(es[..n][..i + 1]);
      assert es[..n][..i + 1] == es[..i + 1];
    }
  }

  /** After any run of loads, renders, pans, corner drags and wheel turns the zoom is between 1 and 5.
      If the view has been clamped since the image last loaded, on each axis the image covers the
      frame or is centred in it, and a `cover` image leaves no part of the frame bare. */
  lemma {:induction false} ImageStaysInFrame(es: seq<Event>)
    requires AllPossible(es)
    ensures var s := After(es);
      && 1.0 <= s.view.s <= 5.0
      && (ClampedSinceLoad(es) && s.g.Known() ==>
            InFrame(s.g, s.view) && (!s.g.contain ==> FrameIsFull(s.g, s.view)))
  {
    var s := After(es);
    if ClampedSinceLoad(es) && s.g.Known() {
      var n := |es| - 1;
      assert Possible(es[n]);
      ImageStaysInFrame(es[..n]);
      GestureStaysInFrame(After(es[..n]), es[n]);
      if !s.g.contain { CoverFillsFrame(s.g, s.view); }
    }
  }

  /** Exactly when the image lies right after a run: the view has been clamped since the image last
      loaded, or both offsets of the view that the load found are within half the overflow. */
  lemma WhenInFrame(es: seq<Event>)
    requires AllPossible(es) && After(es).g.Known()
    ensures var s := After(es);
      && (InFrame(s.g, s.view) <==> ClampedSinceLoad(es) || InRange(s.g, s.view))
      && (!s.g.contain ==> (FrameIsFull(s.g, s.view) <==> ClampedSinceLoad(es) || InRange(s.g, s.view)))
  {
    var s := After(es);
    ImageStaysInFrame(es);
    InRangeIsInFrame(s.g, s.view);
    if !s.g.contain { CoverFillsFrame(s.g, s.view); }
  }

  function FirstRender(g: Geometry, stored: View): Event {
    Render(g.fw, g.fh, g.contain, true, false, stored)
  }

  /** The first render finds an image without a size, so the stored view is shown as it is once the
      image has loaded: right exactly when its offsets are in range. */
  lemma FirstLoad(g: Geometry, stored: View)
    requires g.Known()
    ensures var es, v := [FirstRender(g, stored), Load(g.iw, g.ih)], stored.(s := ClampS(stored.s));
      && AllPossible(es) && AllPossible(es[..1]) && After(es) == State(g, v)
      && After(es[..1]) == State(Geometry(0.0, 0.0, g.fw, g.fh, g.contain), v)
      && (InFrame(g, v) <==> InRange(g, v))
      && (!g.contain ==> (FrameIsFull(g, v) <==> InRange(g, v)))
  {
    var es := [FirstRender(g, stored), Load(g.iw, g.ih)];
    assert es[..1] == [es[0]] && es[..1][..0] == [];
    assert AllPossible(es[..1]);
    assert After(es[..1]).view == stored.(s := ClampS(stored.s));
    WhenInFrame(es);
    assert !ClampedSinceLoad(es);
  }

  /** A `cover` image stored off its centre leaves a strip of the frame bare when it has loaded, and a
      turn of the wheel at the end of the zoom's range leaves it so. */
  lemma LoadLeavesStripBare()
    ensures var g := Geometry(1.0, 1.0, 1.0, 1.0, false);
      var es := [FirstRender(g, View(1.0, 40.0, 0.0)), Load(1.0, 1.0)];
      && AllPossible(es) && After(es) == State(g, View(1.0, 40.0, 0.0)) && !FrameIsFull(g, View(1.0, 40.0, 0.0))
      && Next(After(es), Wheel(0.0, 0.0, 1.0)) == After(es)
  {
    FirstLoad(Geometry(1.0, 1.0, 1.0, 1.0, false), View(1.0, 40.0, 0.0));
  }

  // ---------------------------------------------------------------- fixed points of the gestures

  lemma CursorOnAxis(s: real, x: real, c: real, next: real)
    requires s > 0.0 && next > 0.0
    ensures var k := next / s; (c - (c * (1.0 - k) + x * k)) / next == (c - x) / s
  {
    var k := next / s;
    assert c - (c * (1.0 - k) + x * k) == (c - x) * k;
    var t := (c - x) / s;
    assert (c - x) == t * s;
    assert (c - x) * k == t * (s * k);
    assert s * k == next;
    assert t * next / next == t;
  }

  /** The wheel zooms about the cursor: the point of the image under it stays under it. */
  lemma WheelFixesCursor(v: View, cx: real, cy: real, next: real)
    requires v.s > 0.0 && next > 0.0
    ensures var z := Zoomed(v, cx, cy, next);
      (cx - z.x) / z.s == (cx - v.x) / v.s && (cy - z.y) / z.s == (cy - v.y) / v.s
  {
    CursorOnAxis(v.s, v.x, cx, next);
    CursorOnAxis(v.s, v.y, cy, next);
  }

  lemma CornerOnAxis(edge: real, sign: real, l0: real, diag: real, s: real, s0: real, frame: real)
    requires diag > 0.0 && s0 > 0.0 && frame > 0.0
    ensures FarEdge(Centre(edge, sign * l0 / diag, Diagonal(diag, s, s0), frame), frame, sign, l0 / s0 * s) == edge
  {
    var u := sign * l0 / diag;
    var d := diag * s / s0;
    var q := l0 / s0;
    assert u * diag == sign * l0;
    assert d * s0 == diag * s;
    assert l0 == q * s0;
    assert u * d * s0 == u * (diag * s) == sign * l0 * s == sign * (q * s) * s0;
    assert u * d == sign * (q * s);
    var c := edge + u * d / 2.0;
    assert c / frame * frame == c;
  }

  /** Where the corner opposite the dragged one is on one axis, in pixels of the frame. */
  ghost function CornerAt(o: real, frame: real, sign: real, length: real): real {
    (50.0 + o) / 100.0 * frame - sign * length / 2.0
  }

  lemma FarEdgeIsCorner(o: real, frame: real, sign: real, length: real)
    ensures FarEdge(o, frame, sign, length) == CornerAt(o, frame, sign, length)
  {
  }

  /** A corner drag turns about the opposite corner: wherever the pointer is, that corner keeps its
      place, and the image its proportions. `w0` and `h0` are the image's size at the zoom the drag
      began with. */
  lemma ResizeFixesOppositeCorner(v: View, w0: real, h0: real, diag: real, fw: real, fh: real,
                                  sx: real, sy: real, px: real, py: real)
    requires diag > 0.0 && fw > 0.0 && fh > 0.0 && v.s > 0.0
    ensures var z := Resized(v, w0, h0, diag, fw, fh, sx, sy, px, py);
      && CornerAt(z.x, fw, sx, w0 / v.s * z.s) == CornerAt(v.x, fw, sx, w0)
      && CornerAt(z.y, fh, sy, h0 / v.s * z.s) == CornerAt(v.y, fh, sy, h0)
  {
    var z := Resized(v, w0, h0, diag, fw, fh, sx, sy, px, py);
    FarEdgeIsCorner(v.x, fw, sx, w0);
    FarEdgeIsCorner(v.y, fh, sy, h0);
    FarEdgeIsCorner(z.x, fw, sx, w0 / v.s * z.s);
    FarEdgeIsCorner(z.y, fh, sy, h0 / v.s * z.s);
    CornerOnAxis(FarEdge(v.x, fw, sx, w0), sx, w0, diag, z.s, v.s, fw);
    CornerOnAxis(FarEdge(v.y, fh, sy, h0), sy, h0, diag, z.s, v.s, fh);
  }

  /** Where the image's centre is, in the frame's own unit. */
  function CentreAt(o: real, frame: real): real { (50.0 + o) / 100.0 * frame }

  lemma PanOnAxis(start: real, d: real, frame: real)
    requires frame > 0.0
    ensures CentreAt(start + d / frame * 100.0, frame) == CentreAt(start, frame) + d
  {
    var q := d / frame;
    assert q * frame == d;
    assert (50.0 + (start + q * 100.0)) / 100.0 == (50.0 + start) / 100.0 + q;
  }

  /** Before the clamp, a pan moves the image just as far as the pointer. */
  lemma PanFollowsPointer(v: View, startX: real, startY: real, dx: real, dy: real, rw: real, rh: real)
    requires v.s > 0.0 && rw > 0.0 && rh > 0.0
    ensures var z := Target(v, Pan(startX, startY, dx, dy, rw, rh));
      && z.s == v.s
      && CentreAt(z.x, rw) == CentreAt(startX, rw) + dx
      && CentreAt(z.y, rh) == CentreAt(startY, rh) + dy
  {
    PanOnAxis(startX, dx, rw);
    PanOnAxis(startY, dy, rh);
  }

  lemma AlongDiagonal(px: real, ox: real, w: real, py: real, oy: real, h: real, diag: real, distance: real)
    requires diag > 0.0 && distance * diag == (px - ox) * w + (py - oy) * h
    ensures Along(px, ox, w / diag, py, oy, h / diag) == distance
  {
    var p, q := w / diag, h / diag;
    assert w == p * diag && h == q * diag;
    assert ((px - ox) * p + (py - oy) * q) * diag == distance * diag;
  }

  lemma LengthAgain(s: real, distance: real, diag: real)
    requires s > 0.0 && diag > 0.0
    ensures diag * (s * distance / diag) / s == distance
  {
    var r := s * distance / diag;
    assert r * diag == s * distance;
    assert s * distance / s == distance;
  }

  lemma ZoomForLength(s: real, length: real, diag: real, asked: real)
    requires s > 0.0 && diag > 0.0 && asked == s * length / diag
    ensures NearestZoom(ZoomFor(s, length, diag), asked)
    ensures 1.0 <= asked <= 5.0 ==> diag * ZoomFor(s, length, diag) / s == length
  {
    ClampSIsNearest(asked);
    LengthAgain(s, length, diag);
  }

  lemma FollowsFrom(v: View, w0: real, h0: real, diag: real, fw: real, fh: real,
                    sx: real, sy: real, px: real, py: real, distance: real, ox: real, oy: real)
    requires diag > 0.0 && fw > 0.0 && fh > 0.0 && v.s > 0.0
    requires ox == FarEdge(v.x, fw, sx, w0) && oy == FarEdge(v.y, fh, sy, h0)
    requires distance * diag == (px - ox) * (sx * w0) + (py - oy) * (sy * h0)
    ensures Resized(v, w0, h0, diag, fw, fh, sx, sy, px, py).s == ZoomFor(v.s, distance, diag)
  {
    AlongDiagonal(px, ox, sx * w0, py, oy, sy * h0, diag, distance);
  }

  /** Before the clamp, the image's diagonal becomes as long as the pointer's distance from the
      opposite corner (ox, oy), measured along the diagonal, or as near to it as the range of the zoom
      lets it. */
  lemma ResizeFollowsPointer(v: View, w0: real, h0: real, diag: real, fw: real, fh: real, sx: real, sy: real,
                             px: real, py: real, ox: real, oy: real, distance: real, asked: real)
    requires diag > 0.0 && fw > 0.0 && fh > 0.0 && v.s > 0.0
    requires ox == CornerAt(v.x, fw, sx, w0) && oy == CornerAt(v.y, fh, sy, h0)
    requires distance * diag == (px - ox) * (sx * w0) + (py - oy) * (sy * h0)
    requires asked == v.s * distance / diag
    ensures var z := Resized(v, w0, h0, diag, fw, fh, sx, sy, px, py);
      NearestZoom(z.s, asked) && (1.0 <= asked <= 5.0 ==> diag * z.s / v.s == distance)
  {
    ZoomForLength(v.s, distance, diag, asked);
    FarEdgeIsCorner(v.x, fw, sx, w0);
    FarEdgeIsCorner(v.y, fh, sy, h0);
    FollowsFrom(v, w0, h0, diag, fw, fh, sx, sy, px, py, distance, ox, oy);
  }
}
