/** The handlers of one registered window (desktop-shell/js/modules/window-manager.js). */
module WindowManager {
  import opened Options
  import opened WindowState

  class ManagedWindow {
    var style: Style
    var maximized: bool
    var snappedLeft: bool
    var snappedRight: bool
    var saved: Option<Style>
    var sessions: seq<Session>

    ghost function Current(): Window
      reads this
    {
      Window(style, maximized, snappedLeft, snappedRight, saved, sessions)
    }

    predicate IsSnapped()
      reads this
    {
      maximized || snappedLeft || snappedRight
    }

    method SaveWindowState(sc: Screen)
      modifies this`saved
      ensures Current() == Save(sc, old(Current()))
    {
      if IsSnapped() { return; }
      var ws, rect := sc.workspace, Render(sc, style);
      saved := Some(Style(
        if style.left != Auto then style.left else Px(rect.left - ws.left),
        if style.top != Auto then style.top else Px(rect.top - ws.top),
        if style.width != Auto then style.width else Px(rect.width),
        if style.height != Auto then style.height else Px(rect.height)));
    }

    method RestoreWindowState()
      modifies this
      ensures Current() == Restore(old(Current()))
    {
      if saved.Some? { style := saved.value; }
      maximized, snappedLeft, snappedRight := false, false, false;
    }

    method ToggleMaximize(sc: Screen)
      modifies this
      ensures Current() == Toggle(sc, old(Current()))
    {
      if IsSnapped() {
        RestoreWindowState();
      } else {
        SaveWindowState(sc);
        MaximizeWindow();
      }
    }

    method MaximizeWindow()
      modifies this
      ensures Current() == Maximize(old(Current()))
    {
      snappedLeft, snappedRight := false, false;
      maximized := true;
      style := Style(Px(0.0), Px(0.0), Pct(100.0), Pct(100.0));
    }

    method SnapWindowLeft(sc: Screen)
      modifies this
      ensures Current() == SnapLeft(sc, old(Current()))
    {
      SaveWindowState(sc);
      maximized, snappedRight := false, false;
      snappedLeft := true;
      style := Style(Px(0.0), Px(0.0), Pct(50.0), Pct(100.0));
    }

    method SnapWindowRight(sc: Screen)
      modifies this
      ensures Current() == SnapRight(sc, old(Current()))
    {
      SaveWindowState(sc);
      maximized, snappedLeft := false, false;
      snappedRight := true;
      style := Style(Pct(50.0), Px(0.0), Pct(50.0), Pct(100.0));
    }

    method OnKey(sc: Screen, key: Key)
      modifies this
      ensures Current() == Press(sc, old(Current()), key)
    {
      match key {
        case ArrowLeft => SnapWindowLeft(sc);
        case ArrowRight => SnapWindowRight(sc);
        case ArrowUp => SaveWindowState(sc); MaximizeWindow();
        case ArrowDown => if IsSnapped() { RestoreWindowState(); }
      }
    }

    method OnTitleDown(sc: Screen, x: real, y: real)
      requires SavedIsComplete(Current())
      modifies this
      ensures Current() == TitleDown(sc, old(Current()), x, y)
    {
      if IsSnapped() {
        var ws, rect := sc.workspace, Render(sc, style);
        if saved.Some? {
          var state := saved.value;
          if rect.width != 0.0 {
            var restoreOffsetPct := (x - rect.left) / rect.width;
            style := style.(left := Px(x - Number(state.width) * restoreOffsetPct - ws.left));
          }
          style := style.(width := state.width, height := state.height, top := Px(rect.top - ws.top));
        }
        maximized, snappedLeft, snappedRight := false, false, false;
      } else {
        SaveWindowState(sc);
      }
      var currentRect := Render(sc, style);
      sessions := Started(sessions, Dragging(x - currentRect.left, y - currentRect.top));
    }

    method OnHandleDown(sc: Screen, h: Handle, x: real, y: real)
      modifies this
      ensures Current() == HandleDown(sc, old(Current()), h, x, y)
    {
      if IsSnapped() { return; }
      SaveWindowState(sc);
      sessions := sessions + [Resizing(h, Render(sc, style), x, y)];
    }

    method DragMove(sc: Screen, s: Session, x: real, y: real)
      requires s.Dragging?
      modifies this`style
      ensures Current() == DragTo(sc, old(Current()), s, x, y)
    {
      var ws, rect := sc.workspace, Render(sc, style);
      var left := x - s.startX - ws.left;
      var top := y - s.startY - ws.top;
      left := Max(0.0, Min(left, ws.width - rect.width));
      top := Max(0.0, Min(top, ws.height - 40.0));
      style := style.(left := Px(left), top := Px(top));
    }

    method ResizeMove(sc: Screen, s: Session, x: real, y: real)
      requires s.Resizing?
      modifies this`style
      ensures Current() == MoveOne(sc, old(Current()), s, x, y)
    {
      var deltaX, deltaY := x - s.mouseX, y - s.mouseY;
      var newWidth, newHeight, newLeft, newTop := s.rect.width, s.rect.height, s.rect.left, s.rect.top;
      var minWidth, minHeight := LeastWidth(sc), LeastHeight(sc);
      if PullsRight(s.handle) {
        newWidth := Max(minWidth, s.rect.width + deltaX);
      } else if PullsLeft(s.handle) {
        var proposedWidth := s.rect.width - deltaX;
        if proposedWidth >= minWidth {
          newWidth, newLeft := proposedWidth, s.rect.left + deltaX;
        }
      }
      if PullsBottom(s.handle) {
        newHeight := Max(minHeight, s.rect.height + deltaY);
      } else if PullsTop(s.handle) {
        var proposedHeight := s.rect.height - deltaY;
        if proposedHeight >= minHeight {
          newHeight, newTop := proposedHeight, s.rect.top + deltaY;
        }
      }
      if newTop < sc.workspace.top {
        var diff := sc.workspace.top - newTop;
        newHeight := newHeight - diff;
        newTop := sc.workspace.top;
      }
      style := Style(Px(newLeft - sc.workspace.left), Px(newTop - sc.workspace.top), Px(newWidth), Px(newHeight));
    }

    method DragUp(sc: Screen, x: real, y: real)
      modifies this
      ensures Current() == Drop(sc, old(Current()), x, y)
    {
      var ws := sc.workspace;
      if x < ws.left + SNAP_THRESHOLD {
        SnapWindowLeft(sc);
      } else if x > ws.Right() - SNAP_THRESHOLD {
        SnapWindowRight(sc);
      } else if y < ws.top + SNAP_THRESHOLD {
        MaximizeWindow();
      } else {
        SaveWindowState(sc);
      }
    }

    /** The listeners on the document, each in turn. */
    method OnMouseMove(sc: Screen, x: real, y: real)
      modifies this`style
      ensures Current() == MoveAll(sc, old(Current()), old(sessions), x, y)
    {
      for i := 0 to |sessions|
        invariant MoveAll(sc, Current(), sessions[i..], x, y) == MoveAll(sc, old(Current()), sessions, x, y)
      {
        assert sessions[i..][1..] == sessions[i + 1..];
        var s := sessions[i];
        match s {
          case Dragging(_, _) => DragMove(sc, s, x, y);
          case Resizing(_, _, _, _) => ResizeMove(sc, s, x, y);
        }
      }
    }

    method OnMouseUp(sc: Screen, x: real, y: real)
      modifies this
      ensures Current() == UpAll(sc, old(Current()), old(sessions), x, y).(sessions := [])
    {
      for i := 0 to |sessions|
        invariant sessions == old(sessions)
        invariant UpAll(sc, Current(), sessions[i..], x, y) == UpAll(sc, old(Current()), sessions, x, y)
      {
        assert sessions[i..][1..] == sessions[i + 1..];
        var s := sessions[i];
        match s {
          case Dragging(_, _) => DragUp(sc, x, y);
          case Resizing(_, _, _, _) => SaveWindowState(sc);
        }
      }
      sessions := [];
    }
  }
}
