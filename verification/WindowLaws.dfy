/** What every run of a window's events keeps, and what single gestures do. */
module WindowLaws {
  import opened Options
  import opened WindowState

  /* ---------- one event ---------- */

  ghost predicate AtMostOneClass(w: Window)
  {
    !(w.maximized && w.snappedLeft) && !(w.maximized && w.snappedRight) && !(w.snappedLeft && w.snappedRight)
  }

  /** What a handler does to the saved geometry and the classes: it keeps the saved geometry or saves the present
      one, and only of a window that is not snapped. */
  ghost predicate Careful(sc: Screen, w: Window, v: Window)
  {
    && (v.saved == w.saved || (!Snapped(w) && v.saved == Some(Effective(sc, w.style))))
    && (AtMostOneClass(w) ==> AtMostOneClass(v))
  }

  lemma {:induction false} MovesAreCareful(sc: Screen, w: Window, sessions: seq<Session>, x: real, y: real)
    ensures var v := MoveAll(sc, w, sessions, x, y);
      v == w.(style := v.style)
    decreases |sessions|
  {
    if sessions != [] { MovesAreCareful(sc, MoveOne(sc, w, sessions[0], x, y), sessions[1..], x, y); }
  }

  lemma {:induction false} UpsAreCareful(sc: Screen, w: Window, sessions: seq<Session>, x: real, y: real)
    ensures var v := UpAll(sc, w, sessions, x, y);
      Careful(sc, w, v) && (!Snapped(v) ==> !Snapped(w) && v.style == w.style)
    decreases |sessions|
  {
    if sessions != [] { UpsAreCareful(sc, UpOne(sc, w, sessions[0], x, y), sessions[1..], x, y); }
  }

  lemma StepIsCareful(sc: Screen, w: Window, e: Event)
    requires SavedIsComplete(w)
    ensures Careful(sc, w, Step(sc, w, e)) && SavedIsComplete(Step(sc, w, e))
  {
    match e
    case Moved(x, y) => MovesAreCareful(sc, w, w.sessions, x, y);
    case Released(x, y) => UpsAreCareful(sc, w, w.sessions, x, y);
    case _ =>
  }

  /** However often the title is pressed, at most one drag is under way; a snapped window cannot be resized. */
  lemma StepStartsOne(sc: Screen, w: Window, e: Event)
    requires SavedIsComplete(w) && OneDrag(w.sessions)
    ensures OneDrag(Step(sc, w, e).sessions)
    ensures Snapped(w) && e.HandlePressed? ==> Step(sc, w, e) == w
  {
    match e
    case TitlePressed(x, y) =>
      var v := if Snapped(w) then Unsnap(sc, w, x) else Save(sc, w);
      StartedOne(w.sessions, Dragging(x - Render(sc, v.style).left, y - Render(sc, v.style).top));
    case Moved(x, y) => MovesAreCareful(sc, w, w.sessions, x, y);
    case _ =>
  }

  ghost predicate OneDrag(sessions: seq<Session>)
  {
    forall i, j :: 0 <= i < j < |sessions| ==> !(sessions[i].Dragging? && sessions[j].Dragging?)
  }

  lemma {:induction false} StartedOne(sessions: seq<Session>, drag: Session)
    requires OneDrag(sessions) && drag.Dragging?
    ensures OneDrag(Started(sessions, drag))
    ensures forall s <- Started(sessions, drag) :: s == drag || s in sessions
    ensures drag in Started(sessions, drag)
  {
    if sessions != [] && !sessions[0].Dragging? {
      StartedOne(sessions[1..], drag);
      assert sessions == [sessions[0]] + sessions[1..];
    }
  }

  /* ---------- runs ---------- */

  /** A window as it leaves its registration. */
  ghost predicate Registered(sc: Screen, w: Window)
  {
    !Snapped(w) && w.saved == Some(Effective(sc, w.style)) && w.sessions == []
  }

  function Run(sc: Screen, w: Window, events: seq<Event>): (v: Window)
    requires SavedIsComplete(w)
    ensures SavedIsComplete(v)
  {
    if events == [] then w
    else
      var u := Run(sc, w, events[..|events| - 1]);
      StepIsCareful(sc, u, events[|events| - 1]);
      Step(sc, u, events[|events| - 1])
  }

  /** This is the geometry the window had at some point of the run, while it was not snapped. */
  ghost predicate WasNormal(sc: Screen, w: Window, events: seq<Event>, geometry: Style)
    requires SavedIsComplete(w)
  {
    exists k: nat :: NormalAt(sc, w, events, geometry, k)
  }

  ghost predicate NormalAt(sc: Screen, w: Window, events: seq<Event>, geometry: Style, k: nat)
    requires SavedIsComplete(w)
  {
    k <= |events| && !Snapped(Run(sc, w, events[..k])) && Effective(sc, Run(sc, w, events[..k]).style) == geometry
  }

  /** Over any run of presses, moves, releases, keys and button clicks, however they interleave, a window has at most
      one of the three classes and one drag, and its saved geometry is one it had while it had none of the classes. */
  lemma {:induction false} RunsKeepInv(sc: Screen, w: Window, events: seq<Event>)
    requires Registered(sc, w)
    ensures var v := Run(sc, w, events);
      AtMostOneClass(v) && OneDrag(v.sessions) && v.saved.Some? && WasNormal(sc, w, events, v.saved.value)
  {
    if events == [] {
      assert NormalAt(sc, w, events, w.saved.value, 0);
    } else {
      var last := |events| - 1;
      var init := events[..last];
      var u := Run(sc, w, init);
      var v := Run(sc, w, events);
      RunsKeepInv(sc, w, init);
      StepIsCareful(sc, u, events[last]);
      StepStartsOne(sc, u, events[last]);
      if v.saved == u.saved {
        var k: nat :| NormalAt(sc, w, init, u.saved.value, k);
        assert init[..k] == events[..k];
        assert NormalAt(sc, w, events, v.saved.value, k);
      } else {
        assert NormalAt(sc, w, events, v.saved.value, last);
      }
    }
  }

  /* ---------- snapping and restoring ---------- */

  /** The geometry a window has or would get back. */
  function Home(sc: Screen, w: Window): Style
    requires Snapped(w) ==> w.saved.Some?
  {
    if Snapped(w) then w.saved.value else Effective(sc, w.style)
  }

  predicate IsCommand(e: Event)
  {
    e.KeyPressed? || e.Toggled?
  }

  lemma EffectiveTwice(sc: Screen, st: Style)
    ensures Complete(Effective(sc, st))
    ensures Render(sc, Effective(sc, st)) == Render(sc, st)
    ensures Effective(sc, Effective(sc, st)) == Effective(sc, st)
    ensures Complete(st) ==> Effective(sc, st) == st
  {
  }

  lemma {:induction false} CommandsKeepHome(sc: Screen, w: Window, events: seq<Event>)
    requires SavedIsComplete(w) && !Snapped(w) && forall e <- events :: IsCommand(e)
    ensures var v := Run(sc, w, events); (Snapped(v) ==> v.saved.Some?) && Home(sc, v) == Effective(sc, w.style)
  {
    if events != [] {
      var init, e := events[..|events| - 1], events[|events| - 1];
      assert e in events;
      CommandsKeepHome(sc, w, init);
      var u := Run(sc, w, init);
      if u.saved.Some? { EffectiveTwice(sc, u.saved.value); }
    }
  }

  /** From a window that is not snapped, whatever keys and maximize buttons are pressed: once restored it is exactly
      where it was, with the same style if that was complete. Meanwhile it is there or it is snapped. */
  lemma CommandsThenRestore(sc: Screen, w: Window, events: seq<Event>)
    requires SavedIsComplete(w) && !Snapped(w) && forall e <- events :: IsCommand(e)
    ensures var v := Run(sc, w, events);
      && (!Snapped(v) ==> Render(sc, v.style) == Render(sc, w.style))
      && (Snapped(v) ==>
            var r := Press(sc, v, ArrowDown);
            !Snapped(r) && Render(sc, r.style) == Render(sc, w.style) && (Complete(w.style) ==> r.style == w.style))
  {
    CommandsKeepHome(sc, w, events);
    EffectiveTwice(sc, w.style);
    EffectiveTwice(sc, Run(sc, w, events).style);
  }

  /** The arrow keys take the left half, the right half and the whole of the workspace, as far as the least size allows;
      the button takes the whole from a window that is not snapped, and does what the down key does to one that is. */
  lemma SnapLaw(sc: Screen, w: Window)
    requires SavedIsComplete(w)
    ensures var ws, half := sc.workspace, sc.workspace.width / 2.0;
      var l, r := Step(sc, w, KeyPressed(ArrowLeft)), Step(sc, w, KeyPressed(ArrowRight));
      var u := Step(sc, w, KeyPressed(ArrowUp));
      && l.snappedLeft && !l.snappedRight && !l.maximized
      && Render(sc, l.style) == Rect(ws.left, ws.top, Max(sc.minWidth, half), Max(sc.minHeight, ws.height))
      && r.snappedRight && !r.snappedLeft && !r.maximized
      && Render(sc, r.style) == Rect(ws.left + half, ws.top, Max(sc.minWidth, half), Max(sc.minHeight, ws.height))
      && u.maximized && !u.snappedLeft && !u.snappedRight
      && Render(sc, u.style) == Rect(ws.left, ws.top, Max(sc.minWidth, ws.width), Max(sc.minHeight, ws.height))
      && (!Snapped(w) ==> Step(sc, w, Toggled) == u && Step(sc, w, KeyPressed(ArrowDown)) == w)
      && (Snapped(w) ==> Step(sc, w, Toggled) == Step(sc, w, KeyPressed(ArrowDown)))
  {
  }

  /** Dragging a snapped window off takes its saved size and keeps the cursor at the same fraction of its width. */
  lemma UnsnapKeepsCursor(sc: Screen, w: Window, x: real, y: real)
    requires Snapped(w) && w.saved.Some? && Complete(w.saved.value) && Render(sc, w.style).width > 0.0
    requires w.saved.value.width.Px? && w.saved.value.width.v >= sc.minWidth
    ensures var v := TitleDown(sc, w, x, y);
      var r, s := Render(sc, w.style), Render(sc, v.style);
      && !Snapped(v)
      && (x - s.left) * r.width == (x - r.left) * s.width && s.top == r.top
      && s.width == Render(sc, w.saved.value).width && s.height == Render(sc, w.saved.value).height
  {
    var r := Render(sc, w.style);
    var width := w.saved.value.width.v;
    var v := TitleDown(sc, w, x, y);
    assert x - Render(sc, v.style).left == width * ((x - r.left) / r.width);
    assert width * ((x - r.left) / r.width) * r.width == width * (x - r.left);
  }

  /* ---------- dragging ---------- */

  /** A drag keeps the size and leaves the title bar inside the workspace, following the cursor where it can. */
  lemma DragStaysInside(sc: Screen, w: Window, s: Session, x: real, y: real)
    requires s.Dragging?
    ensures var ws, r, d := sc.workspace, Render(sc, w.style), Render(sc, DragTo(sc, w, s, x, y).style);
      && d.width == r.width && d.height == r.height
      && 0.0 <= d.left - ws.left <= Max(0.0, ws.width - r.width)
      && 0.0 <= d.top - ws.top <= Max(0.0, ws.height - 40.0)
      && (d.left == x - s.startX <==>
            0.0 <= x - s.startX - ws.left <= ws.width - r.width || (x - s.startX == ws.left))
      && (d.top == y - s.startY <==>
            0.0 <= y - s.startY - ws.top <= ws.height - 40.0 || (y - s.startY == ws.top))
  {
  }

  /** A gesture with the button held: pressed, then moved along a path. */
  function Held(sc: Screen, w: Window, press: Event, path: seq<(real, real)>): (v: Window)
    requires SavedIsComplete(w)
    ensures SavedIsComplete(v)
  {
    if path == [] then
      StepIsCareful(sc, w, press);
      Step(sc, w, press)
    else
      var u := Held(sc, w, press, path[..|path| - 1]);
      var e := Moved(path[|path| - 1].0, path[|path| - 1].1);
      StepIsCareful(sc, u, e);
      Step(sc, u, e)
  }

  lemma {:induction false} HeldDrag(sc: Screen, w: Window, x: real, y: real, path: seq<(real, real)>)
    requires SavedIsComplete(w) && !Snapped(w) && w.sessions == []
    ensures var v := Held(sc, w, TitlePressed(x, y), path);
      !Snapped(v) && |v.sessions| == 1 && v.sessions[0].Dragging? && v.saved == Some(Effective(sc, w.style))
  {
    if path != [] {
      HeldDrag(sc, w, x, y, path[..|path| - 1]);
      var u := Held(sc, w, TitlePressed(x, y), path[..|path| - 1]);
      MovesAreCareful(sc, u, u.sessions, path[|path| - 1].0, path[|path| - 1].1);
    }
  }

  /** All through a drag the window has the size it was gripped with and stands as far from where it was gripped as the
      cursor, as far as the workspace allows; only the last move counts. */
  lemma {:induction false} DragGesture(sc: Screen, w: Window, x: real, y: real, path: seq<(real, real)>)
    requires SavedIsComplete(w) && w.sessions == [] && path != []
    ensures var ws, grip := sc.workspace, TitleDown(sc, w, x, y);
      var r, v := Render(sc, grip.style), Held(sc, w, TitlePressed(x, y), path);
      var s := Render(sc, v.style);
      && v == grip.(style := v.style) && v.style.width == grip.style.width && v.style.height == grip.style.height
      && s.width == r.width && s.height == r.height
      && s.left - ws.left ==
           Max(0.0, Min(r.left - ws.left + (path[|path| - 1].0 - x), ws.width - r.width))
      && s.top - ws.top ==
           Max(0.0, Min(r.top - ws.top + (path[|path| - 1].1 - y), ws.height - 40.0))
    decreases |path|
  {
    var init := path[..|path| - 1];
    var (mx, my) := path[|path| - 1];
    var u, grip := Held(sc, w, TitlePressed(x, y), init), TitleDown(sc, w, x, y);
    var r := Render(sc, grip.style);
    if init != [] { DragGesture(sc, w, x, y, init); }
    assert u.sessions == [Dragging(x - r.left, y - r.top)];
    assert MoveAll(sc, u, u.sessions, mx, my) == MoveOne(sc, u, u.sessions[0], mx, my);
  }

  /** What a window gets back after it was dragged and dropped: snapped to a side or dropped in the middle, the place
      it was dropped at; snapped to the top, the place the drag began. */
  lemma DropLaw(sc: Screen, w: Window, x: real, y: real, path: seq<(real, real)>, upX: real, upY: real)
    requires SavedIsComplete(w) && !Snapped(w) && w.sessions == []
    ensures var held := Held(sc, w, TitlePressed(x, y), path);
      var v := Step(sc, held, Released(upX, upY));
      && (Snapped(v) ==> v.saved.Some?)
      && v.sessions == [] && AtMostOneClass(v)
      && (v.snappedLeft <==> upX < sc.workspace.left + 20.0)
      && (v.snappedRight <==> !v.snappedLeft && upX > sc.workspace.Right() - 20.0)
      && (v.maximized <==> !v.snappedLeft && !v.snappedRight && upY < sc.workspace.top + 20.0)
      && Home(sc, v) == Effective(sc, if v.maximized then w.style else held.style)
  {
    HeldDrag(sc, w, x, y, path);
    var held := Held(sc, w, TitlePressed(x, y), path);
    assert UpAll(sc, held, held.sessions, upX, upY) == UpOne(sc, held, held.sessions[0], upX, upY);
  }

  /* ---------- resizing ---------- */

  /** The edges a handle does not pull stay where they are. */
  ghost predicate OppositeEdgesStay(h: Handle, r: Rect, s: Rect)
  {
    && (if PullsLeft(h) then s.Right() == r.Right() else s.left == r.left)
    && (if PullsTop(h) then s.Bottom() == r.Bottom() else s.top == r.top)
    && (!PullsLeft(h) && !PullsRight(h) ==> s.width == r.width)
    && (!PullsTop(h) && !PullsBottom(h) ==> s.height == r.height)
  }

  /** A window of at least the least size, no higher than the top of the workspace. */
  ghost predicate Decent(sc: Screen, r: Rect)
  {
    r.width >= LeastWidth(sc) && r.height >= LeastHeight(sc) && r.top >= sc.workspace.top
  }

  /** A move of a handle keeps the opposite edges exactly when the handle pulls the top or the window does not stick
      out of the top of the workspace, and a decent window stays decent. */
  lemma ResizeLaw(sc: Screen, s: Session, x: real, y: real)
    requires s.Resizing?
    ensures OppositeEdgesStay(s.handle, s.rect, Resized(sc, s, x, y)) <==>
      PullsTop(s.handle) || s.rect.top >= sc.workspace.top
    ensures Resized(sc, s, x, y).top >= sc.workspace.top
    ensures Decent(sc, s.rect) ==> Decent(sc, Resized(sc, s, x, y))
  {
  }

  /** The pulled edges follow the cursor: the right and the bottom one down to the least size; the left and the top one
      as long as the least size is kept, and else not at all; and none beyond the top of the workspace. */
  lemma ResizeFollows(sc: Screen, s: Session, x: real, y: real)
    requires s.Resizing?
    ensures var v, r, dx, dy := Resized(sc, s, x, y), s.rect, x - s.mouseX, y - s.mouseY;
      && (s.handle in {R, TR, BR} ==>
            v.left == r.left && v.Right() == Max(r.Right() + dx, r.left + LeastWidth(sc)))
      && (s.handle in {L, TL, BL} ==>
            v.Right() == r.Right() && v.left == r.left + if r.width - dx >= LeastWidth(sc) then dx else 0.0)
      && (s.handle in {B, BL, BR} && r.top >= sc.workspace.top ==>
            v.top == r.top && v.Bottom() == Max(r.Bottom() + dy, r.top + LeastHeight(sc)))
      && (s.handle in {T, TL, TR} ==>
            && v.Bottom() == r.Bottom()
            && v.top == Max(sc.workspace.top, r.top + if r.height - dy >= LeastHeight(sc) then dy else 0.0))
    ensures LeastWidth(sc) == (if sc.minWidth > 0.0 then sc.minWidth else 320.0)
    ensures LeastHeight(sc) == (if sc.minHeight > 0.0 then sc.minHeight else 200.0)
  {
  }

  lemma PlacedRenders(sc: Screen, r: Rect)
    requires r.width >= sc.minWidth && r.height >= sc.minHeight
    ensures Render(sc, Placed(sc, r)) == r
  {
  }

  /** All through a resize the opposite edges stay and the window stays decent; only the last move counts. */
  lemma {:induction false} ResizeGesture(sc: Screen, w: Window, h: Handle, x: real, y: real, path: seq<(real, real)>)
    requires SavedIsComplete(w) && !Snapped(w) && w.sessions == []
    requires Decent(sc, Render(sc, w.style))
    ensures var r, v := Render(sc, w.style), Held(sc, w, HandlePressed(h, x, y), path);
      var s := Resizing(h, r, x, y);
      && !Snapped(v) && v.sessions == [s]
      && OppositeEdgesStay(h, r, Render(sc, v.style)) && Decent(sc, Render(sc, v.style))
      && (path != [] ==> Render(sc, v.style) == Resized(sc, s, path[|path| - 1].0, path[|path| - 1].1))
      && (path != [] && path[|path| - 1] == (x, y) ==> Render(sc, v.style) == r)
  {
    if path != [] {
      var s := Resizing(h, Render(sc, w.style), x, y);
      ResizeGesture(sc, w, h, x, y, path[..|path| - 1]);
      var u := Held(sc, w, HandlePressed(h, x, y), path[..|path| - 1]);
      var (mx, my) := path[|path| - 1];
      assert MoveAll(sc, u, u.sessions, mx, my) == MoveOne(sc, u, s, mx, my);
      ResizeLaw(sc, s, mx, my);
      PlacedRenders(sc, Resized(sc, s, mx, my));
    }
  }
}
