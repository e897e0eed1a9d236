/** The pointer state the simulation reads each tick, and the mouse
    handlers that write it (components/main/Advanced.tsx:31-35, 89-101). */
module Input {
  import opened Geometry
  import opened Wrappers
  import opened Logos

  /** The latest pointer position, in canvas units, and whether a button is held. */
  datatype Pointer = Pointer(x: real, y: real, isDown: bool)

  /** The canvas's on-screen rectangle, in client (display) units. */
  datatype Rect = Rect(left: real, top: real, width: real, height: real)

  datatype PointerEvent =
    | MouseMove(client: Vec, rect: Rect)
    | MouseDown
    | MouseUp
    | MouseLeave

  /** The pointer state before any event: at the origin, no button held
      (lines 31-35). */
  const Released: Pointer := Pointer(0.0, 0.0, false)

  /** Canvas units to client units: the inverse of ToCanvas. */
  function FromCanvas(v: Vec, rect: Rect): Vec {
    Vec(rect.left + v.x / CanvasWidth * rect.width,
        rect.top + v.y / CanvasHeight * rect.height)
  }

  /** Client coordinates to canvas coordinates by the canvas's display scale.
      A collapsed rectangle gives no finite coordinate. */
  function ToCanvas(client: Vec, rect: Rect): (r: Option<Vec>)
    ensures r.Some? <==> rect.width != 0.0 && rect.height != 0.0
    ensures r.Some? ==> FromCanvas(r.value, rect) == client
  {
    if rect.width == 0.0 || rect.height == 0.0 then None
    else
      var tx := (client.x - rect.left) / rect.width;
      var ty := (client.y - rect.top) / rect.height;
      var v := Vec(tx * CanvasWidth, ty * CanvasHeight);
      assert v.x / CanvasWidth == tx && v.y / CanvasHeight == ty;
      assert tx * rect.width == client.x - rect.left;
      assert ty * rect.height == client.y - rect.top;
      assert FromCanvas(v, rect).x == client.x;
      assert FromCanvas(v, rect).y == client.y;
      Some(v)
  }

  /** Mapping a canvas point to the screen and back returns it unchanged. */
  lemma CanvasRoundTrip(v: Vec, rect: Rect)
    requires rect.width != 0.0 && rect.height != 0.0
    ensures ToCanvas(FromCanvas(v, rect), rect) == Some(v)
  {
    var c := FromCanvas(v, rect);
    assert (c.x - rect.left) / rect.width == v.x / CanvasWidth;
    assert (c.y - rect.top) / rect.height == v.y / CanvasHeight;
  }

  /** Scaling along one axis keeps a point of [lo, lo + w] inside [0, extent]. */
  lemma AxisInside(c: real, lo: real, w: real, extent: real)
    requires w > 0.0 && extent > 0.0
    requires lo <= c <= lo + w
    ensures 0.0 <= (c - lo) / w * extent <= extent
  {
    var t := (c - lo) / w;
    assert 0.0 <= t <= 1.0 by {
      assert c - lo <= w;
      assert t * w == c - lo;
    }
    assert t * extent <= 1.0 * extent;
  }

  /** A client point over the canvas rectangle maps onto the canvas. */
  lemma ToCanvasInside(client: Vec, rect: Rect)
    requires rect.width > 0.0 && rect.height > 0.0
    requires rect.left <= client.x <= rect.left + rect.width
    requires rect.top <= client.y <= rect.top + rect.height
    ensures ToCanvas(client, rect).Some?
    ensures 0.0 <= ToCanvas(client, rect).value.x <= CanvasWidth
    ensures 0.0 <= ToCanvas(client, rect).value.y <= CanvasHeight
  {
    AxisInside(client.x, rect.left, rect.width, CanvasWidth);
    AxisInside(client.y, rect.top, rect.height, CanvasHeight);
  }

  /** The effect of one mouse event on the pointer state: a move rewrites the
      position only, down/up/leave rewrite the button flag only. */
  function Handle(p: Pointer, e: PointerEvent): (r: Pointer)
    ensures e.MouseDown? ==> r == p.(isDown := true)
    ensures e.MouseUp? || e.MouseLeave? ==> r == p.(isDown := false)
    ensures e.MouseMove? ==> r.isDown == p.isDown
    ensures e.MouseMove? && e.rect.width != 0.0 && e.rect.height != 0.0 ==>
              FromCanvas(Vec(r.x, r.y), e.rect) == e.client
  {
    match e
    case MouseMove(client, rect) =>
      (match ToCanvas(client, rect)
       case Some(v) => p.(x := v.x, y := v.y)
       case None => p)
    case MouseDown => p.(isDown := true)
    case MouseUp => p.(isDown := false)
    case MouseLeave => p.(isDown := false)
  }

  /** The pointer state the listeners leave after `events`, starting from
      Released. The button is held exactly when some press has been followed
      by nothing but moves. */
  function PointerAfter(events: seq<PointerEvent>): (r: Pointer)
    decreases |events|
    ensures r.isDown <==>
              exists t :: 0 <= t < |events| && events[t].MouseDown? && MovesOnlyAfter(events, t)
  {
    if |events| == 0 then Released
    else
      var n := |events| - 1;
      var prev := events[..n];
      var r := Handle(PointerAfter(prev), events[n]);
      assert r.isDown <==>
               exists t :: 0 <= t < |events| && events[t].MouseDown? && MovesOnlyAfter(events, t) by {
        if events[n].MouseMove? {
          forall t | 0 <= t < n
            ensures MovesOnlyAfter(events, t) <==> MovesOnlyAfter(prev, t)
          {
            assert forall u :: t < u < n ==> prev[u] == events[u];
          }
          if r.isDown {
            var t :| 0 <= t < |prev| && prev[t].MouseDown? && MovesOnlyAfter(prev, t);
            assert events[t] == prev[t];
          } else {
            forall t | 0 <= t < |events| && events[t].MouseDown?
              ensures !MovesOnlyAfter(events, t)
            {
              assert t < n;
              assert prev[t] == events[t];
            }
          }
        } else if events[n].MouseDown? {
          assert MovesOnlyAfter(events, n);
        } else {
          forall t | 0 <= t < |events| && events[t].MouseDown?
            ensures !MovesOnlyAfter(events, t)
          {
            assert t < n;
          }
        }
      }
      r
  }

  /** Every event after index `t` is a move. */
  predicate MovesOnlyAfter(events: seq<PointerEvent>, t: nat) {
    forall u :: t < u < |events| ==> events[u].MouseMove?
  }
}
