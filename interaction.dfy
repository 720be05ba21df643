/**
 * The geometry of the pointer gestures in App.js's preview area. While a
 * gesture runs, every pointer-move event recomputes the selected element's
 * geometry from the snapshot taken at pointer-down (`orig`) and the pointer
 * offset from the starting point (`dx`, `dy`); the live properties (`live`)
 * only supply the fields a gesture does not touch.
 */
module Interaction {
  import opened Wrappers
  import opened Properties

  /** The gesture in progress, `state.action`. */
  datatype Action = Move | Radius | Resize

  /** The smallest width or height a resize produces. */
  const MinSize: real := 20.0

  /** The distance both offsets must exceed for a diagonal mobile resize. */
  const DiagonalDeadZone: real := 10.0

  function Max(a: real, b: real): (m: real)
    ensures m >= a && m >= b && (m == a || m == b)
  {
    if a >= b then a else b
  }

  function Min(a: real, b: real): (m: real)
    ensures m <= a && m <= b && (m == a || m == b)
  {
    if a <= b then a else b
  }

  function Abs(a: real): (m: real)
    ensures m >= 0.0 && (m == a || m == -a)
  {
    if a < 0.0 then -a else a
  }

  /** `Math.max(20, raw)`: the size written for a raw size `raw`. */
  function ClampSize(raw: real): (s: real)
    ensures s >= MinSize
    ensures raw >= MinSize ==> s == raw
    ensures raw < MinSize ==> s == MinSize
  {
    Max(MinSize, raw)
  }

  // ----- move -----

  /** A move shifts the snapshot's position by the pointer offset; nothing else changes. */
  function MoveTo(live: Props, orig: Props, dx: real, dy: real): (p: Props)
    ensures p.position.x - orig.position.x == dx && p.position.y - orig.position.y == dy
    ensures p.(position := live.position) == live
  {
    live.(position := Vec2(orig.position.x + dx, orig.position.y + dy))
  }

  // ----- corner radius -----

  /**
   * The radius drag: half the sum of the offsets added to the snapshot's
   * radius, floored at 0 and then capped by half of each snapshot dimension.
   */
  function RadiusFor(orig: Props, dx: real, dy: real): (r: real)
    ensures r <= orig.size.x / 2.0 && r <= orig.size.y / 2.0
    ensures r <= Max(0.0, orig.cornerRadius + (dx + dy) / 2.0)
    ensures r == Max(0.0, orig.cornerRadius + (dx + dy) / 2.0) || r == orig.size.x / 2.0 || r == orig.size.y / 2.0
    ensures orig.size.x >= 0.0 && orig.size.y >= 0.0 ==> r >= 0.0
  {
    Min(Min(Max(0.0, orig.cornerRadius + (dx + dy) / 2.0), orig.size.x / 2.0), orig.size.y / 2.0)
  }

  function SetRadius(live: Props, orig: Props, dx: real, dy: real): (p: Props)
    ensures p.cornerRadius == RadiusFor(orig, dx, dy)
    ensures p.(cornerRadius := live.cornerRadius) == live
  {
    live.(cornerRadius := RadiusFor(orig, dx, dy))
  }

  // ----- desktop resize by edge handles -----

  /** One axis of a box: where it starts and how far it extends. */
  datatype Span = Span(start: real, extent: real)

  /**
   * One axis of an edge resize. `far` is set when the handle holds the far
   * edge (the letter e or s), `near` when it holds the near edge (w or n);
   * the near edge is applied second, so it wins when both are set. Dragging
   * the near edge moves the start by exactly `d`, so the far edge stays
   * where the snapshot had it until the size clamp is hit.
   */
  function ResizeSpan(live: Span, orig: Span, far: bool, near: bool, d: real): (s: Span)
    ensures far || near ==> s.extent >= MinSize
    ensures !far && !near ==> s == live
    ensures near ==> s.start == orig.start + d
    ensures near && orig.extent - d >= MinSize ==> s.start + s.extent == orig.start + orig.extent
    ensures near && orig.extent - d < MinSize ==> s.extent == MinSize
    ensures far && !near ==> s.start == live.start
    ensures far && !near && orig.extent + d >= MinSize ==> s.extent - orig.extent == d
    ensures far && !near && orig.extent + d < MinSize ==> s.extent == MinSize
    ensures far && !near ==> s.extent == ClampSize(orig.extent + d)
    ensures near ==> s.extent == ClampSize(orig.extent - d)
  {
    var afterFar := if far then live.(extent := ClampSize(orig.extent + d)) else live;
    if near then Span(orig.start + d, ClampSize(orig.extent - d)) else afterFar
  }

  /**
   * The desktop resize for the handle direction `dir` (one of n, ne, e, se,
   * s, sw, w, nw): the letters e and w steer the horizontal axis, s and n
   * the vertical one.
   */
  function ResizeEdges(live: Props, orig: Props, dir: string, dx: real, dy: real): (p: Props)
    ensures p.(position := live.position, size := live.size) == live
    ensures ('e' in dir || 'w' in dir) ==> p.size.x >= MinSize
    ensures ('s' in dir || 'n' in dir) ==> p.size.y >= MinSize
    ensures !('e' in dir || 'w' in dir) ==> p.position.x == live.position.x && p.size.x == live.size.x
    ensures !('s' in dir || 'n' in dir) ==> p.position.y == live.position.y && p.size.y == live.size.y
    ensures 'w' in dir ==> p.position.x - orig.position.x == dx
    ensures 'n' in dir ==> p.position.y - orig.position.y == dy
    ensures 'w' in dir && orig.size.x - dx >= MinSize ==> p.position.x + p.size.x == orig.position.x + orig.size.x
    ensures 'n' in dir && orig.size.y - dy >= MinSize ==> p.position.y + p.size.y == orig.position.y + orig.size.y
    ensures 'e' in dir && 'w' !in dir ==> p.position.x == live.position.x && p.size.x == ClampSize(orig.size.x + dx)
    ensures 's' in dir && 'n' !in dir ==> p.position.y == live.position.y && p.size.y == ClampSize(orig.size.y + dy)
    ensures 'w' in dir ==> p.size.x == ClampSize(orig.size.x - dx)
    ensures 'n' in dir ==> p.size.y == ClampSize(orig.size.y - dy)
  {
    var h := ResizeSpan(Span(live.position.x, live.size.x), Span(orig.position.x, orig.size.x), 'e' in dir, 'w' in dir, dx);
    var v := ResizeSpan(Span(live.position.y, live.size.y), Span(orig.position.y, orig.size.y), 's' in dir, 'n' in dir, dy);
    live.(position := Vec2(h.start, v.start), size := Vec2(h.extent, v.extent))
  }

  // ----- mobile resize by the single multifunction handle -----

  /** Both offsets beyond the dead zone: the drag is read as a diagonal. */
  predicate IsDiagonal(dx: real, dy: real) {
    Abs(dx) > DiagonalDeadZone && Abs(dy) > DiagonalDeadZone
  }

  /**
   * The mobile resize. A diagonal drag grows both axes by `stretch`, the
   * pair (distance times aspect ratio, distance) that the source computes
   * with a square root and a division; otherwise only the axis with the
   * larger offset changes (the vertical one on a tie). Position is never
   * touched and every changed axis is at least `MinSize`.
   */
  function ResizeMultifunc(live: Props, orig: Props, dx: real, dy: real, stretch: Vec2): (p: Props)
    ensures p.(size := live.size) == live
    ensures p.size.x >= MinSize || p.size.x == live.size.x
    ensures p.size.y >= MinSize || p.size.y == live.size.y
    ensures IsDiagonal(dx, dy) ==> p.size == Vec2(ClampSize(orig.size.x + stretch.x), ClampSize(orig.size.y + stretch.y))
    ensures !IsDiagonal(dx, dy) && Abs(dx) > Abs(dy) ==> p.size == Vec2(ClampSize(orig.size.x + dx), live.size.y)
    ensures !IsDiagonal(dx, dy) && Abs(dx) <= Abs(dy) ==> p.size == Vec2(live.size.x, ClampSize(orig.size.y + dy))
  {
    if IsDiagonal(dx, dy) then
      live.(size := Vec2(ClampSize(orig.size.x + stretch.x), ClampSize(orig.size.y + stretch.y)))
    else if Abs(dx) > Abs(dy) then
      live.(size := live.size.(x := ClampSize(orig.size.x + dx)))
    else
      live.(size := live.size.(y := ClampSize(orig.size.y + dy)))
  }

  // ----- one pointer-move event -----

  /**
   * The properties one pointer-move event writes into the selected element.
   * None stands for the desktop resize that has no handle direction
   * recorded, where the source fails on the missing string before writing
   * anything.
   */
  function Step(action: Action, live: Props, orig: Props, dx: real, dy: real,
                isDesktop: bool, detail: Option<string>, stretch: Vec2): (r: Option<Props>)
    ensures r.None? <==> action == Resize && isDesktop && detail.None?
    ensures r.Some? ==> r.value.name == live.name && r.value.backgroundColor3 == live.backgroundColor3
                        && r.value.textStyle == live.textStyle
    ensures r.Some? && action != Radius ==> r.value.cornerRadius == live.cornerRadius
    ensures r.Some? && action != Move && !(action == Resize && isDesktop) ==> r.value.position == live.position
    ensures r.Some? && action != Resize ==> r.value.size == live.size
  {
    match action
    case Move => Some(MoveTo(live, orig, dx, dy))
    case Radius => Some(SetRadius(live, orig, dx, dy))
    case Resize =>
      if !isDesktop then Some(ResizeMultifunc(live, orig, dx, dy, stretch))
      else if detail.None? then None
      else Some(ResizeEdges(live, orig, detail.value, dx, dy))
  }

  // ----- how successive events combine -----

  /**
   * For a move, a radius drag and a desktop resize, each event overwrites
   * what the previous one wrote: the result depends only on the latest
   * pointer position, never on the path taken to it.
   */
  lemma LatestEventWins(action: Action, live: Props, orig: Props, dx1: real, dy1: real, dx2: real, dy2: real,
                        isDesktop: bool, detail: Option<string>, stretch: Vec2)
    requires !(action == Resize && !isDesktop)
    requires Step(action, live, orig, dx1, dy1, isDesktop, detail, stretch).Some?
    ensures var mid := Step(action, live, orig, dx1, dy1, isDesktop, detail, stretch).value;
            Step(action, mid, orig, dx2, dy2, isDesktop, detail, stretch)
            == Step(action, live, orig, dx2, dy2, isDesktop, detail, stretch)
  {
    var mid := Step(action, live, orig, dx1, dy1, isDesktop, detail, stretch).value;
    if action == Resize {
      var dir := detail.value;
      var h1 := ResizeSpan(Span(live.position.x, live.size.x), Span(orig.position.x, orig.size.x), 'e' in dir, 'w' in dir, dx1);
      var h := ResizeSpan(Span(live.position.x, live.size.x), Span(orig.position.x, orig.size.x), 'e' in dir, 'w' in dir, dx2);
      var h' := ResizeSpan(h1, Span(orig.position.x, orig.size.x), 'e' in dir, 'w' in dir, dx2);
      assert h' == h;
      var v1 := ResizeSpan(Span(live.position.y, live.size.y), Span(orig.position.y, orig.size.y), 's' in dir, 'n' in dir, dy1);
      var v := ResizeSpan(Span(live.position.y, live.size.y), Span(orig.position.y, orig.size.y), 's' in dir, 'n' in dir, dy2);
      var v' := ResizeSpan(v1, Span(orig.position.y, orig.size.y), 's' in dir, 'n' in dir, dy2);
      assert v' == v;
    }
  }

  /**
   * The mobile resize is the exception: a horizontal drag followed by a
   * vertical one keeps the width the first event wrote, so the outcome
   * depends on the path.
   */
  lemma MultifuncRemembersEarlierAxis(live: Props, orig: Props, stretch: Vec2)
    requires live.size == orig.size && orig.size.x == 100.0
    ensures var mid := ResizeMultifunc(live, orig, 30.0, 0.0, stretch);
            ResizeMultifunc(mid, orig, 0.0, 5.0, stretch).size.x == 130.0
            && ResizeMultifunc(live, orig, 0.0, 5.0, stretch).size.x == 100.0
  {
  }

  /**
   * Below the dead zone on either axis the mobile resize still acts, but
   * on one axis only: the diagonal needs both offsets beyond 10.
   */
  lemma SingleAxisOutsideDiagonal(live: Props, orig: Props, dx: real, dy: real, stretch: Vec2)
    requires !IsDiagonal(dx, dy)
    ensures var p := ResizeMultifunc(live, orig, dx, dy, stretch);
            p.size.x == live.size.x || p.size.y == live.size.y
  {
  }
}
