/** The geometry of one window and what the window manager's handlers make of it
    (desktop-shell/js/modules/window-manager.js). Pixels are real numbers. */
module WindowState {
  import opened Options

  /** A style property: not set, or a length in pixels, or a percentage of the workspace. */
  datatype Length = Auto | Px(v: real) | Pct(v: real)

  datatype Style = Style(left: Length, top: Length, width: Length, height: Length)

  datatype Rect = Rect(left: real, top: real, width: real, height: real)
  {
    function Right(): real { left + width }

    function Bottom(): real { top + height }
  }

  /** The workspace in viewport coordinates, where the style sheet puts a window without style (relative to the
      workspace), and the least size it gives. */
  datatype Screen = Screen(workspace: Rect, natural: Rect, minWidth: real, minHeight: real)

  function Max(a: real, b: real): real
  {
    if a < b then b else a
  }

  function Min(a: real, b: real): real
  {
    if a < b then a else b
  }

  function Resolve(l: Length, whole: real, natural: real): real
  {
    match l case Auto => natural case Px(v) => v case Pct(v) => v * whole / 100.0
  }

  /** The bounding rectangle, in viewport coordinates. */
  function Render(sc: Screen, st: Style): Rect
  {
    var ws := sc.workspace;
    Rect(ws.left + Resolve(st.left, ws.width, sc.natural.left),
         ws.top + Resolve(st.top, ws.height, sc.natural.top),
         Max(sc.minWidth, Resolve(st.width, ws.width, sc.natural.width)),
         Max(sc.minHeight, Resolve(st.height, ws.height, sc.natural.height)))
  }

  function OrPx(l: Length, v: real): Length
  {
    if l == Auto then Px(v) else l
  }

  /** The style with what is not set filled in from the rectangle. */
  function Effective(sc: Screen, st: Style): Style
  {
    var r := Render(sc, st);
    Style(OrPx(st.left, r.left - sc.workspace.left), OrPx(st.top, r.top - sc.workspace.top),
          OrPx(st.width, r.width), OrPx(st.height, r.height))
  }

  datatype Handle = T | B | L | R | TL | TR | BL | BR

  predicate PullsLeft(h: Handle) { h in {L, TL, BL} }

  predicate PullsRight(h: Handle) { h in {R, TR, BR} }

  predicate PullsTop(h: Handle) { h in {T, TL, TR} }

  predicate PullsBottom(h: Handle) { h in {B, BL, BR} }

  /** What a pressed mouse button is doing: the listeners on the document, in the order they were added. */
  datatype Session =
    | Dragging(startX: real, startY: real)
    | Resizing(handle: Handle, rect: Rect, mouseX: real, mouseY: real)

  datatype Window = Window(style: Style, maximized: bool, snappedLeft: bool, snappedRight: bool,
                           saved: Option<Style>, sessions: seq<Session>)

  predicate Snapped(w: Window)
  {
    w.maximized || w.snappedLeft || w.snappedRight
  }

  function Save(sc: Screen, w: Window): Window
  {
    if Snapped(w) then w else w.(saved := Some(Effective(sc, w.style)))
  }

  function Restore(w: Window): Window
  {
    var v := w.(maximized := false, snappedLeft := false, snappedRight := false);
    if w.saved.Some? then v.(style := w.saved.value) else v
  }

  function Maximize(w: Window): Window
  {
    w.(maximized := true, snappedLeft := false, snappedRight := false,
       style := Style(Px(0.0), Px(0.0), Pct(100.0), Pct(100.0)))
  }

  function SnapLeft(sc: Screen, w: Window): Window
  {
    Save(sc, w).(maximized := false, snappedLeft := true, snappedRight := false,
                 style := Style(Px(0.0), Px(0.0), Pct(50.0), Pct(100.0)))
  }

  function SnapRight(sc: Screen, w: Window): Window
  {
    Save(sc, w).(maximized := false, snappedLeft := false, snappedRight := true,
                 style := Style(Pct(50.0), Px(0.0), Pct(50.0), Pct(100.0)))
  }

  function Toggle(sc: Screen, w: Window): Window
  {
    if Snapped(w) then Restore(w) else Maximize(Save(sc, w))
  }

  datatype Key = ArrowLeft | ArrowRight | ArrowUp | ArrowDown

  /** Minimizing hides the window and leaves its geometry alone. */
  function Press(sc: Screen, w: Window, key: Key): Window
  {
    match key
    case ArrowLeft => SnapLeft(sc, w)
    case ArrowRight => SnapRight(sc, w)
    case ArrowUp => Maximize(Save(sc, w))
    case ArrowDown => if Snapped(w) then Restore(w) else w
  }

  /* ---------- dragging ---------- */

  function Number(l: Length): real
    requires l != Auto
  {
    match l case Px(v) => v case Pct(v) => v
  }

  predicate Complete(st: Style)
  {
    st.left != Auto && st.top != Auto && st.width != Auto && st.height != Auto
  }

  predicate SavedIsComplete(w: Window)
  {
    w.saved.Some? ==> Complete(w.saved.value)
  }

  /** A snapped window takes its saved size under the cursor; a position that is not a number is ignored. */
  function Unsnap(sc: Screen, w: Window, x: real): Window
    requires SavedIsComplete(w)
  {
    var v := w.(maximized := false, snappedLeft := false, snappedRight := false);
    var rect := Render(sc, w.style);
    if w.saved.None? then v
    else
      var state := w.saved.value;
      var left := if rect.width == 0.0 then w.style.left
                  else Px(x - Number(state.width) * ((x - rect.left) / rect.width) - sc.workspace.left);
      v.(style := Style(left, Px(rect.top - sc.workspace.top), state.width, state.height))
  }

  /** A drag that is already under way starts anew in its place. */
  function Started(sessions: seq<Session>, drag: Session): seq<Session>
  {
    if sessions == [] then [drag]
    else if sessions[0].Dragging? then [drag] + sessions[1..]
    else [sessions[0]] + Started(sessions[1..], drag)
  }

  function TitleDown(sc: Screen, w: Window, x: real, y: real): Window
    requires SavedIsComplete(w)
  {
    var v := if Snapped(w) then Unsnap(sc, w, x) else Save(sc, w);
    var rect := Render(sc, v.style);
    v.(sessions := Started(v.sessions, Dragging(x - rect.left, y - rect.top)))
  }

  function DragTo(sc: Screen, w: Window, s: Session, x: real, y: real): Window
    requires s.Dragging?
  {
    var ws, rect := sc.workspace, Render(sc, w.style);
    var left := Max(0.0, Min(x - s.startX - ws.left, ws.width - rect.width));
    var top := Max(0.0, Min(y - s.startY - ws.top, ws.height - 40.0));
    w.(style := w.style.(left := Px(left), top := Px(top)))
  }

  const SNAP_THRESHOLD := 20.0

  function Drop(sc: Screen, w: Window, x: real, y: real): Window
  {
    var ws := sc.workspace;
    if x < ws.left + SNAP_THRESHOLD then SnapLeft(sc, w)
    else if x > ws.Right() - SNAP_THRESHOLD then SnapRight(sc, w)
    else if y < ws.top + SNAP_THRESHOLD then Maximize(w)
    else Save(sc, w)
  }

  /* ---------- resizing ---------- */

  function LeastWidth(sc: Screen): real
  {
    if sc.minWidth > 0.0 then sc.minWidth else 320.0
  }

  function LeastHeight(sc: Screen): real
  {
    if sc.minHeight > 0.0 then sc.minHeight else 200.0
  }

  function HandleDown(sc: Screen, w: Window, h: Handle, x: real, y: real): Window
  {
    if Snapped(w) then w
    else Save(sc, w).(sessions := w.sessions + [Resizing(h, Render(sc, w.style), x, y)])
  }

  function Resized(sc: Screen, s: Session, x: real, y: real): Rect
    requires s.Resizing?
  {
    var h, r, dx, dy := s.handle, s.rect, x - s.mouseX, y - s.mouseY;
    var width := if PullsRight(h) then Max(LeastWidth(sc), r.width + dx)
                 else if PullsLeft(h) && r.width - dx >= LeastWidth(sc) then r.width - dx
                 else r.width;
    var left := if PullsLeft(h) && r.width - dx >= LeastWidth(sc) then r.left + dx else r.left;
    var height := if PullsBottom(h) then Max(LeastHeight(sc), r.height + dy)
                  else if PullsTop(h) && r.height - dy >= LeastHeight(sc) then r.height - dy
                  else r.height;
    var top := if PullsTop(h) && r.height - dy >= LeastHeight(sc) then r.top + dy else r.top;
    if top < sc.workspace.top then Rect(left, sc.workspace.top, width, height - (sc.workspace.top - top))
    else Rect(left, top, width, height)
  }

  function Placed(sc: Screen, r: Rect): Style
  {
    Style(Px(r.left - sc.workspace.left), Px(r.top - sc.workspace.top), Px(r.width), Px(r.height))
  }

  /* ---------- the mouse on the document ---------- */

  function MoveOne(sc: Screen, w: Window, s: Session, x: real, y: real): Window
  {
    match s
    case Dragging(_, _) => DragTo(sc, w, s, x, y)
    case Resizing(_, _, _, _) => w.(style := Placed(sc, Resized(sc, s, x, y)))
  }

  function UpOne(sc: Screen, w: Window, s: Session, x: real, y: real): Window
  {
    if s.Dragging? then Drop(sc, w, x, y) else Save(sc, w)
  }

  /** Every listener in turn. */
  function MoveAll(sc: Screen, w: Window, sessions: seq<Session>, x: real, y: real): Window
    decreases |sessions|
  {
    if sessions == [] then w else MoveAll(sc, MoveOne(sc, w, sessions[0], x, y), sessions[1..], x, y)
  }

  function UpAll(sc: Screen, w: Window, sessions: seq<Session>, x: real, y: real): Window
    decreases |sessions|
  {
    if sessions == [] then w else UpAll(sc, UpOne(sc, w, sessions[0], x, y), sessions[1..], x, y)
  }

  datatype Event =
    | TitlePressed(x: real, y: real)
    | HandlePressed(handle: Handle, x: real, y: real)
    | Moved(x: real, y: real)
    | Released(x: real, y: real)
    | KeyPressed(key: Key)
    | Toggled

  function Step(sc: Screen, w: Window, e: Event): Window
    requires SavedIsComplete(w)
  {
    match e
    case TitlePressed(x, y) => TitleDown(sc, w, x, y)
    case HandlePressed(h, x, y) => HandleDown(sc, w, h, x, y)
    case Moved(x, y) => MoveAll(sc, w, w.sessions, x, y)
    case Released(x, y) => UpAll(sc, w, w.sessions, x, y).(sessions := [])
    case KeyPressed(key) => Press(sc, w, key)
    case Toggled => Toggle(sc, w)
  }
}
