// The slot table of the desktop's window manager, apps/botdesk/src/botdesk.c. X events arrive as
// method calls; of the X server the model keeps the client sizes and a supply of window ids.
module WindowManager {
  import opened Arithmetic
  import opened CStrings

  const MAX_WINDOWS := 32
  const TITLE_H := 26
  const CLOSE_SIZE := 18
  const BORDER := 5
  const GRIP_SIZE := 14
  const MIN_W := 200
  const MIN_H := 150

  // One managed window; x, y, w, h are the frame's geometry.
  datatype Slot = Slot(used: bool, frame: int, client: int, x: int, y: int, w: int, h: int, focused: bool)

  datatype Size = Size(w: int, h: int)

  // The used slots in table order.
  function UsedList(ws: seq<Slot>): seq<int> {
    if ws == [] then []
    else UsedList(ws[..|ws| - 1]) + (if ws[|ws| - 1].used then [|ws| - 1] else [])
  }

  predicate Uses(ws: seq<Slot>, i: int) {
    0 <= i < |ws| && ws[i].used
  }

  // cur is used, and of the used slots only cur has the focus.
  ghost predicate Focused(ws: seq<Slot>, cur: int) {
    Uses(ws, cur) && forall i :: Uses(ws, i) ==> (ws[i].focused <==> i == cur)
  }

  // Exactly one managed window has the focus, if there is any.
  ghost predicate OneFocus(ws: seq<Slot>) {
    (exists i :: Uses(ws, i)) ==> exists cur :: Focused(ws, cur)
  }

  // Frames and clients are distinct, and frames are ids the server gave out.
  ghost predicate DistinctWindows(ws: seq<Slot>, nextId: int) {
    && (forall i :: Uses(ws, i) ==> ws[i].frame < nextId)
    && (forall i, j :: Uses(ws, i) && Uses(ws, j) && i != j ==>
          ws[i].frame != ws[j].frame && ws[i].client != ws[j].client)
  }

  // A frame is its client plus the fixed borders.
  ghost predicate Fits(s: Slot, sizes: map<int, Size>) {
    s.client in sizes && s.w == sizes[s.client].w + 2 * BORDER && s.h == sizes[s.client].h + TITLE_H + BORDER
  }

  ghost predicate FramesFit(ws: seq<Slot>, sizes: map<int, Size>) {
    forall i :: Uses(ws, i) ==> Fits(ws[i], sizes)
  }

  ghost predicate ClientsKnown(ws: seq<Slot>, sizes: map<int, Size>) {
    forall i :: Uses(ws, i) ==> ws[i].client in sizes
  }

  ghost predicate Consistent(ws: seq<Slot>, sizes: map<int, Size>, nextId: int) {
    |ws| == MAX_WINDOWS && OneFocus(ws) && DistinctWindows(ws, nextId) && ClientsKnown(ws, sizes)
  }

  // A drag keeps the pointer's offset in the frame; a resize keeps where and at what size it began.
  datatype Grab = Grab(drag: Option<(int, int, int)>, resize: Option<(int, int, int, int, int)>)

  predicate OnClose(s: Slot, x: int, y: int) {
    && (TITLE_H - CLOSE_SIZE) / 2 <= y < (TITLE_H - CLOSE_SIZE) / 2 + CLOSE_SIZE
    && s.w - CLOSE_SIZE - 5 <= x < s.w - 5
  }

  predicate OnGrip(s: Slot, x: int, y: int) {
    x >= s.w - GRIP_SIZE && y >= s.h - GRIP_SIZE
  }

  // What a granted configure request makes of the frame.
  function Framed(s: Slot, hasWidth: bool, width: nat, hasHeight: bool, height: nat): Slot {
    s.(w := if hasWidth then width + BORDER * 2 else s.w, h := if hasHeight then height + TITLE_H + BORDER else s.h)
  }

  // What pointer motion makes of a frame: a resize follows the pointer down to the smallest size
  // and wins over a drag, which keeps the grabbed point under the pointer.
  function Moved(s: Slot, grab: Grab, rootX: int, rootY: int): Slot {
    match grab.resize
    case Some((frame, startX, startY, startW, startH)) =>
      if s.frame == frame then s.(w := Max(MIN_W, startW + rootX - startX), h := Max(MIN_H, startH + rootY - startY)) else s
    case None =>
      match grab.drag
      case Some((frame, offX, offY)) => if s.frame == frame then s.(x := rootX - offX, y := rootY - offY) else s
      case None => s
  }

  // wm_set_focus, as a function of the table; -1 stands for NULL.
  function Focus(ws: seq<Slot>, idx: int): (ws': seq<Slot>)
    requires -1 <= idx < |ws|
    ensures |ws'| == |ws|
  {
    seq(|ws|, i requires 0 <= i < |ws| =>
      if i == idx then ws[i].(focused := true)
      else if ws[i].used then ws[i].(focused := false)
      else ws[i])
  }

  // wm_remove_managed: the first window left in the table inherits the focus.
  function Removed(ws: seq<Slot>, idx: int): (ws': seq<Slot>)
    requires 0 <= idx < |ws|
    ensures |ws'| == |ws|
  {
    var rest := ws[idx := ws[idx].(used := false)];
    if ws[idx].focused && UsedList(rest) != [] then
      ListMembers(rest);
      assert UsedList(rest)[0] in UsedList(rest);
      Focus(rest, UsedList(rest)[0])
    else rest
  }

  // A new frame around its client, placed on a diagonal by the number of windows already open.
  function Opened(client: int, size: Size, count: int, frame: int): Slot {
    Slot(true, frame, client, 48 + (count % 6) * 28, 48 + (count % 6) * 28,
         size.w + 2 * BORDER, size.h + TITLE_H + BORDER, false)
  }

  predicate IsFirstFree(ws: seq<Slot>, idx: int) {
    0 <= idx < |ws| && !ws[idx].used && forall j :: 0 <= j < idx ==> ws[j].used
  }

  // Motion ends a grab whose frame is gone.
  ghost function Held(ws: seq<Slot>, grab: Grab): Grab {
    if grab.resize.Some? then
      if exists i :: Uses(ws, i) && ws[i].frame == grab.resize.value.0 then grab else grab.(resize := None)
    else if grab.drag.Some? then
      if exists i :: Uses(ws, i) && ws[i].frame == grab.drag.value.0 then grab else grab.(drag := None)
    else grab
  }

  // ----- Steps on the table

  lemma FocusKeeps(ws: seq<Slot>, idx: int, sizes: map<int, Size>, nextId: int)
    requires |ws| == MAX_WINDOWS && DistinctWindows(ws, nextId) && ClientsKnown(ws, sizes) && Uses(ws, idx)
    ensures Focused(Focus(ws, idx), idx) && Consistent(Focus(ws, idx), sizes, nextId)
    ensures UsedList(Focus(ws, idx)) == UsedList(ws)
    ensures FramesFit(Focus(ws, idx), sizes) <==> FramesFit(ws, sizes)
  {
    var ws' := Focus(ws, idx);
    assert Focused(ws', idx);
    assert forall i :: Uses(ws, i) ==> ws'[i].(focused := ws[i].focused) == ws[i];
    assert forall i :: Uses(ws', i) <==> Uses(ws, i);
    SameUse(ws, ws');
  }

  // Slots that differ neither in use nor in focus nor in their windows.
  lemma GeometryKeeps(ws: seq<Slot>, ws': seq<Slot>, nextId: int)
    requires |ws'| == |ws|
    requires forall i :: 0 <= i < |ws| ==>
               ws'[i].used == ws[i].used && ws'[i].focused == ws[i].focused
               && ws'[i].frame == ws[i].frame && ws'[i].client == ws[i].client
    ensures UsedList(ws') == UsedList(ws)
    ensures OneFocus(ws) ==> OneFocus(ws')
    ensures DistinctWindows(ws, nextId) ==> DistinctWindows(ws', nextId)
  {
    SameUse(ws, ws');
    assert forall i :: Uses(ws', i) <==> Uses(ws, i);
    if OneFocus(ws) && exists i :: Uses(ws', i) {
      var cur :| Focused(ws, cur);
      assert Focused(ws', cur);
    }
  }

  lemma AddKeeps(ws: seq<Slot>, idx: int, s: Slot, sizes: map<int, Size>, nextId: int)
    requires Consistent(ws, sizes, nextId) && 0 <= idx < |ws| && !ws[idx].used
    requires s.used && s.frame == nextId && Fits(s, sizes)
    requires forall i :: Uses(ws, i) ==> ws[i].client != s.client
    ensures var ws' := ws[idx := s]; DistinctWindows(ws', nextId + 1) && ClientsKnown(ws', sizes) && Uses(ws', idx)
    ensures FramesFit(ws[idx := s], sizes) <==> FramesFit(ws, sizes)
    ensures |UsedList(ws[idx := s])| == |UsedList(ws)| + 1
  {
    UpdateCount(ws, idx, s);
    assert forall i :: Uses(ws[idx := s], i) <==> Uses(ws, i) || i == idx;
  }

  lemma RemoveKeeps(ws: seq<Slot>, idx: int, sizes: map<int, Size>, nextId: int)
    requires Consistent(ws, sizes, nextId) && Uses(ws, idx)
    ensures var ws' := ws[idx := ws[idx].(used := false)];
            && DistinctWindows(ws', nextId) && ClientsKnown(ws', sizes) && (FramesFit(ws, sizes) ==> FramesFit(ws', sizes))
            && (!ws[idx].focused ==> OneFocus(ws'))
            && |UsedList(ws')| == |UsedList(ws)| - 1
            && forall i :: Uses(ws', i) <==> Uses(ws, i) && i != idx
  {
    var ws' := ws[idx := ws[idx].(used := false)];
    UpdateCount(ws, idx, ws'[idx]);
    assert forall i :: Uses(ws', i) <==> Uses(ws, i) && i != idx;
    if !ws[idx].focused {
      var cur :| Focused(ws, cur);
      assert Focused(ws', cur);
    }
  }

  // Resizing a client and its frame together.
  lemma ResizeKeeps(ws: seq<Slot>, idx: int, sizes: map<int, Size>, nextId: int, s: Slot, size: Size)
    requires Consistent(ws, sizes, nextId) && Uses(ws, idx)
    requires s == ws[idx].(x := s.x, y := s.y, w := s.w, h := s.h)
    ensures Consistent(ws[idx := s], sizes[ws[idx].client := size], nextId)
    ensures FramesFit(ws, sizes) ==>
              (FramesFit(ws[idx := s], sizes[ws[idx].client := size]) <==> Fits(s, sizes[ws[idx].client := size]))
    ensures UsedList(ws[idx := s]) == UsedList(ws)
  {
    GeometryKeeps(ws, ws[idx := s], nextId);
    assert ws[idx := s][idx] == s && Uses(ws[idx := s], idx);
    assert forall i :: Uses(ws, i) && i != idx ==> ws[idx := s][i] == ws[i] && ws[i].client != ws[idx].client;
  }

  // ----- Counting

  lemma {:induction false} SameUse(ws: seq<Slot>, ws': seq<Slot>)
    requires |ws'| == |ws| && forall i :: 0 <= i < |ws| ==> ws'[i].used == ws[i].used
    ensures UsedList(ws') == UsedList(ws)
  {
    if ws != [] {
      SameUse(ws[..|ws| - 1], ws'[..|ws| - 1]);
    }
  }

  lemma {:induction false} UpdateCount(ws: seq<Slot>, idx: int, s: Slot)
    requires 0 <= idx < |ws|
    ensures |UsedList(ws[idx := s])| == |UsedList(ws)| - (if ws[idx].used then 1 else 0) + (if s.used then 1 else 0)
  {
    var n := |ws| - 1;
    if idx == n {
      assert ws[idx := s][..n] == ws[..n];
    } else {
      assert ws[idx := s][..n] == ws[..n][idx := s];
      UpdateCount(ws[..n], idx, s);
    }
  }

  lemma {:induction false} ListMembers(ws: seq<Slot>)
    ensures forall i :: i in UsedList(ws) <==> Uses(ws, i)
    ensures forall p, q :: 0 <= p < q < |UsedList(ws)| ==> UsedList(ws)[p] < UsedList(ws)[q]
    ensures |UsedList(ws)| <= |ws|
    ensures |UsedList(ws)| == |ws| ==> forall i :: 0 <= i < |ws| ==> ws[i].used
    ensures (forall i :: 0 <= i < |ws| ==> ws[i].used) ==> |UsedList(ws)| == |ws|
  {
    if ws != [] {
      var init := ws[..|ws| - 1];
      ListMembers(init);
      assert forall i :: 0 <= i < |init| ==> init[i] == ws[i];
      assert forall p :: 0 <= p < |UsedList(init)| ==> UsedList(init)[p] in UsedList(init);
    }
  }

  lemma {:induction false} NoneUsed(ws: seq<Slot>)
    requires forall i :: 0 <= i < |ws| ==> !ws[i].used
    ensures UsedList(ws) == []
  {
    if ws != [] {
      NoneUsed(ws[..|ws| - 1]);
    }
  }

  lemma FocusKeepsFrame(ws: seq<Slot>, idx: int)
    requires 0 <= idx < |ws|
    ensures Focus(ws, idx)[idx] == ws[idx].(focused := true)
  {
  }

  // A frame that fits its client still does after a configure request, if the server grants it.
  lemma FramedFits(ws: seq<Slot>, idx: int, sizes: map<int, Size>,
                   hasWidth: bool, width: nat, hasHeight: bool, height: nat, size: Size)
    requires Uses(ws, idx) && ws[idx].client in sizes && sizes[ws[idx].client].w > 0 && sizes[ws[idx].client].h > 0
    requires var now, refused := sizes[ws[idx].client], (hasWidth && width == 0) || (hasHeight && height == 0);
             size == if refused then now else Size(if hasWidth then width else now.w, if hasHeight then height else now.h)
    ensures FramesFit(ws, sizes) ==>
              (Fits(Framed(ws[idx], hasWidth, width, hasHeight, height), sizes[ws[idx].client := size]) <==>
               !((hasWidth && width == 0) || (hasHeight && height == 0)))
  {
    assert FramesFit(ws, sizes) ==> Fits(ws[idx], sizes);
  }

  // The size of a window that is not managed does not matter to any frame.
  lemma UnmanagedSize(ws: seq<Slot>, sizes: map<int, Size>, window: int, size: Size)
    requires forall i :: Uses(ws, i) ==> ws[i].client != window
    ensures FramesFit(ws, sizes[window := size]) <==> FramesFit(ws, sizes)
    ensures ClientsKnown(ws, sizes) ==> ClientsKnown(ws, sizes[window := size])
  {
  }

  lemma FirstOfList(ws: seq<Slot>, i: int)
    requires Uses(ws, i) && forall j :: 0 <= j < i ==> !ws[j].used
    ensures UsedList(ws) != [] && UsedList(ws)[0] == i
  {
    ListMembers(ws);
    assert i in UsedList(ws) && UsedList(ws)[0] in UsedList(ws);
  }

  lemma RemovedUses(ws: seq<Slot>, idx: int)
    requires 0 <= idx < |ws|
    ensures forall i :: Uses(Removed(ws, idx), i) <==> Uses(ws, i) && i != idx
    ensures forall i :: 0 <= i < |ws| ==> Removed(ws, idx)[i].client == ws[i].client
  {
    hide UsedList;
    ListMembers(ws[idx := ws[idx].(used := false)]);
  }

  class Manager {
    var windows: seq<Slot>
    var count: int
    var dragging: bool
    var dragFrame: int
    var dragOffX: int
    var dragOffY: int
    var resizing: bool
    var resizeFrame: int
    var resizeStartX: int
    var resizeStartY: int
    var resizeStartW: int
    var resizeStartH: int
    // the X server: sizes of the client windows, and the next free id
    var sizes: map<int, Size>
    var nextId: int

    constructor (sizes: map<int, Size>, nextId: int)
      requires forall c :: c in sizes ==> sizes[c].w > 0 && sizes[c].h > 0
      ensures Valid() && Fitting() && UsedList(windows) == []
    {
      var empty := Slot(false, 0, 0, 0, 0, 0, 0, false);
      windows := seq(MAX_WINDOWS, _ => empty);
      count := 0;
      dragging, dragFrame, dragOffX, dragOffY := false, 0, 0, 0;
      resizing, resizeFrame, resizeStartX, resizeStartY, resizeStartW, resizeStartH := false, 0, 0, 0, 0, 0;
      this.sizes, this.nextId := sizes, nextId;
      new;
      NoneUsed(windows);
    }

    // The invariant of every reachable state. The server never has a window without extent.
    ghost predicate Valid()
      reads this
    {
      && count == |UsedList(windows)|
      && Consistent(windows, sizes, nextId)
      && forall c :: c in sizes ==> sizes[c].w > 0 && sizes[c].h > 0
    }

    // Every frame is its client plus the borders: so at the start, and as long as clients are only
    // resized through the manager.
    ghost predicate Fitting()
      reads this
    {
      FramesFit(windows, sizes)
    }

    // The drag or resize in progress.
    ghost function Grabbed(): Grab
      reads this
    {
      Grab(if dragging then Some((dragFrame, dragOffX, dragOffY)) else None,
           if resizing then Some((resizeFrame, resizeStartX, resizeStartY, resizeStartW, resizeStartH)) else None)
    }

    // wm_find_by_client; -1 for NULL
    method FindByClient(client: int) returns (idx: int)
      ensures -1 <= idx < |windows|
      ensures if idx >= 0 then Uses(windows, idx) && windows[idx].client == client
              else forall i :: Uses(windows, i) ==> windows[i].client != client
    {
      for i := 0 to |windows|
        invariant forall j :: 0 <= j < i && Uses(windows, j) ==> windows[j].client != client
      {
        if windows[i].used && windows[i].client == client {
          return i;
        }
      }
      return -1;
    }

    // wm_find_by_frame; -1 for NULL
    method FindByFrame(frame: int) returns (idx: int)
      ensures -1 <= idx < |windows|
      ensures if idx >= 0 then Uses(windows, idx) && windows[idx].frame == frame
              else forall i :: Uses(windows, i) ==> windows[i].frame != frame
    {
      for i := 0 to |windows|
        invariant forall j :: 0 <= j < i && Uses(windows, j) ==> windows[j].frame != frame
      {
        if windows[i].used && windows[i].frame == frame {
          return i;
        }
      }
      return -1;
    }

    // wm_set_focus
    method SetFocus(idx: int)
      requires -1 <= idx < |windows|
      modifies `windows
      ensures windows == Focus(old(windows), idx)
    {
      ghost var ws := windows;
      for i := 0 to |windows|
        invariant |windows| == |ws|
        invariant forall j :: 0 <= j < |ws| ==> windows[j] == if j < i && j != idx && ws[j].used then ws[j].(focused := false) else ws[j]
      {
        if windows[i].used && windows[i].focused && i != idx {
          windows := windows[i := windows[i].(focused := false)];
        }
      }
      if idx == -1 {
        return;
      }
      windows := windows[idx := windows[idx].(focused := true)];
    }

    // wm_remove_managed
    method RemoveManaged(idx: int)
      requires Valid() && Uses(windows, idx)
      modifies `windows, `count
      ensures Valid() && count == old(count) - 1 && (old(Fitting()) ==> Fitting())
      ensures windows == Removed(old(windows), idx)
    {
      hide UsedList, DistinctWindows, ClientsKnown, FramesFit, Focused, Focus;
      RemoveKeeps(windows, idx, sizes, nextId);
      ListMembers(windows[idx := windows[idx].(used := false)]);
      var wasFocused := windows[idx].focused;
      windows := windows[idx := windows[idx].(used := false)];
      if count > 0 {
        count := count - 1;
      }
      if wasFocused {
        ghost var ws := windows;
        for i := 0 to |windows|
          invariant windows == ws
          invariant forall j :: 0 <= j < i ==> !windows[j].used
        {
          if windows[i].used {
            FirstOfList(windows, i);
            FocusKeeps(windows, i, sizes, nextId);
            SetFocus(i);
            return;
          }
        }
        NoneUsed(windows);
      }
    }

    // wm_handle_map_request. `own` is the desktop's own window; the server answers
    // XGetWindowAttributes with the client's size, if it still exists.
    method MapRequest(client: int, own: int)
      requires Valid()
      modifies this
      ensures Valid() && (old(Fitting()) ==> Fitting())
      ensures var managed := client != own && client in old(sizes) && old(count) < MAX_WINDOWS
                             && forall i :: Uses(old(windows), i) ==> old(windows)[i].client != client;
              if managed then
                && nextId == old(nextId) + 1
                && exists idx :: IsFirstFree(old(windows), idx)
                     && windows == Focus(old(windows)[idx := Opened(client, old(sizes)[client], old(count), old(nextId))], idx)
              else windows == old(windows) && nextId == old(nextId)
      ensures sizes == old(sizes)
    {
      hide UsedList, DistinctWindows, ClientsKnown, FramesFit, OneFocus, Focus;
      if client == own {
        return;
      }
      var known := FindByClient(client);
      if known >= 0 || count >= MAX_WINDOWS || client !in sizes {
        return;
      }
      var cw := if sizes[client].w > 0 then sizes[client].w else 640;
      var ch := if sizes[client].h > 0 then sizes[client].h else 480;
      var fw, fh := cw + BORDER * 2, ch + TITLE_H + BORDER;
      var fx, fy := 48 + (count % 6) * 28, 48 + (count % 6) * 28;
      var frame := nextId;
      var idx := FirstFree();
      var slot := Slot(true, frame, client, fx, fy, fw, fh, false);
      AddKeeps(windows, idx, slot, sizes, nextId);
      nextId := nextId + 1;
      windows := windows[idx := slot];
      count := count + 1;
      FocusKeeps(windows, idx, sizes, nextId);
      SetFocus(idx);
    }

    method FirstFree() returns (idx: int)
      requires Valid() && count < MAX_WINDOWS
      ensures IsFirstFree(windows, idx)
    {
      hide DistinctWindows, ClientsKnown, OneFocus, UsedList;
      ListMembers(windows);
      idx := 0;
      while windows[idx].used
        invariant 0 <= idx < |windows| && forall j :: 0 <= j < idx ==> windows[j].used
        decreases |windows| - idx
      {
        idx := idx + 1;
      }
    }

    // wm_handle_configure_request: the frame follows what its client asks for. The server grants it,
    // but refuses a size without extent, which the frame takes all the same.
    method ConfigureRequest(window: int, hasWidth: bool, width: nat, hasHeight: bool, height: nat)
      requires Valid()
      modifies this
      ensures Valid() && |windows| == |old(windows)|
      ensures forall i :: 0 <= i < |windows| ==>
                windows[i] == if Uses(old(windows), i) && old(windows)[i].client == window
                              then Framed(old(windows)[i], hasWidth, width, hasHeight, height) else old(windows)[i]
      ensures var refused := (hasWidth && width == 0) || (hasHeight && height == 0);
              && sizes == (if window !in old(sizes) || refused then old(sizes) else
                    old(sizes)[window := Size(if hasWidth then width else old(sizes)[window].w,
                                              if hasHeight then height else old(sizes)[window].h)])
              && (old(Fitting()) ==>
                    (Fitting() <==> !refused || forall i :: Uses(old(windows), i) ==> old(windows)[i].client != window))
    {
      hide UsedList, OneFocus, FramesFit;
      var idx := FindByClient(window);
      var refused := (hasWidth && width == 0) || (hasHeight && height == 0);
      var size := if window !in sizes then Size(1, 1)
                  else if refused then sizes[window]
                  else Size(if hasWidth then width else sizes[window].w, if hasHeight then height else sizes[window].h);
      if idx >= 0 {
        var slot := windows[idx];
        if hasWidth {
          slot := slot.(w := width + BORDER * 2);
        }
        if hasHeight {
          slot := slot.(h := height + TITLE_H + BORDER);
        }
        FramedFits(windows, idx, sizes, hasWidth, width, hasHeight, height, size);
        ResizeKeeps(windows, idx, sizes, nextId, slot, size);
        windows := windows[idx := slot];
      } else {
        UnmanagedSize(windows, sizes, window, size);
      }
      if window in sizes {
        sizes := sizes[window := size];
      }
      assert refused && window in old(sizes) ==> sizes == old(sizes);
    }

    // A client that is created, or changes its size on its own: frames are not redirected and nothing
    // handles the notification, so the table stays as it is.
    method ClientResize(window: int, size: Size)
      requires Valid() && size.w > 0 && size.h > 0
      modifies `sizes
      ensures Valid() && sizes == old(sizes)[window := size]
      ensures old(Fitting()) ==>
                (Fitting() <==> (forall i :: Uses(windows, i) && windows[i].client == window ==> size == old(sizes)[window]))
    {
      hide UsedList, OneFocus;
      sizes := sizes[window := size];
    }

    // wm_handle_destroy_notify: the client is gone from the server.
    method DestroyNotify(window: int)
      requires Valid()
      modifies this
      ensures Valid() && (old(Fitting()) ==> Fitting())
      ensures sizes == old(sizes) - {window}
      ensures if !exists i :: Uses(old(windows), i) && old(windows)[i].client == window then windows == old(windows)
              else exists i :: Uses(old(windows), i) && old(windows)[i].client == window && windows == Removed(old(windows), i)
    {
      hide UsedList, OneFocus, Focus;
      var idx := FindByClient(window);
      if idx >= 0 {
        RemovedUses(windows, idx);
        RemoveManaged(idx);
      }
      sizes := sizes - {window};
    }

    // wm_handle_unmap_notify: only an unmap reported relative to the frame is a close.
    method UnmapNotify(window: int, event: int)
      requires Valid()
      modifies this
      ensures Valid() && sizes == old(sizes) && (old(Fitting()) ==> Fitting())
      ensures if !exists i :: Uses(old(windows), i) && old(windows)[i].client == window && old(windows)[i].frame == event
              then windows == old(windows)
              else exists i :: Uses(old(windows), i) && old(windows)[i].client == window && windows == Removed(old(windows), i)
    {
      hide UsedList, OneFocus, ClientsKnown, FramesFit, Focus;
      var idx := FindByClient(window);
      if idx >= 0 && event == windows[idx].frame {
        RemoveManaged(idx);
      }
    }

    // wm_handle_button_press: focus, then close, resize or drag.
    method ButtonPress(window: int, x: int, y: int, rootX: int, rootY: int)
      requires Valid()
      modifies this
      ensures Valid() && UsedList(windows) == UsedList(old(windows)) && (old(Fitting()) ==> Fitting())
      ensures (forall i :: Uses(old(windows), i) ==> old(windows)[i].frame != window) ==>
                windows == old(windows) && Grabbed() == old(Grabbed())
      ensures forall i :: Uses(old(windows), i) && old(windows)[i].frame == window ==>
                && windows == Focus(old(windows), i)
                && (Grabbed() == if OnClose(old(windows)[i], x, y) then old(Grabbed())
                                 else if OnGrip(old(windows)[i], x, y) then
                                   old(Grabbed()).(resize := Some((window, rootX, rootY, old(windows)[i].w, old(windows)[i].h)))
                                 else if y < TITLE_H then old(Grabbed()).(drag := Some((window, x, y)))
                                 else old(Grabbed()))
    {
      hide UsedList, OneFocus, ClientsKnown, FramesFit, Focus, Focused;
      var idx := FindByFrame(window);
      if idx < 0 {
        return;
      }
      FocusKeeps(windows, idx, sizes, nextId);
      FocusKeepsFrame(windows, idx);
      SetFocus(idx);
      StartGrab(windows[idx], x, y, rootX, rootY);
    }

    // What a click at (x, y) in a frame takes hold of.
    method StartGrab(mw: Slot, x: int, y: int, rootX: int, rootY: int)
      modifies `dragging, `dragFrame, `dragOffX, `dragOffY, `resizing, `resizeFrame
      modifies `resizeStartX, `resizeStartY, `resizeStartW, `resizeStartH
      ensures Grabbed() == if OnClose(mw, x, y) then old(Grabbed())
                           else if OnGrip(mw, x, y) then old(Grabbed()).(resize := Some((mw.frame, rootX, rootY, mw.w, mw.h)))
                           else if y < TITLE_H then old(Grabbed()).(drag := Some((mw.frame, x, y)))
                           else old(Grabbed())
    {
      var cx, cy := mw.w - CLOSE_SIZE - 5, (TITLE_H - CLOSE_SIZE) / 2;
      if cy <= y < cy + CLOSE_SIZE && cx <= x < cx + CLOSE_SIZE {
        return;
      }
      if x >= mw.w - GRIP_SIZE && y >= mw.h - GRIP_SIZE {
        resizing, resizeFrame := true, mw.frame;
        resizeStartX, resizeStartY, resizeStartW, resizeStartH := rootX, rootY, mw.w, mw.h;
        return;
      }
      if y < TITLE_H {
        dragging, dragFrame, dragOffX, dragOffY := true, mw.frame, x, y;
      }
    }

    // wm_handle_motion
    method Motion(rootX: int, rootY: int)
      requires Valid()
      modifies this
      ensures Valid() && UsedList(windows) == UsedList(old(windows)) && (old(Fitting()) ==> Fitting())
      ensures Grabbed() == Held(old(windows), old(Grabbed()))
      ensures forall i :: Uses(old(windows), i) ==> windows[i] == Moved(old(windows)[i], old(Grabbed()), rootX, rootY)
    {
      hide UsedList, OneFocus;
      if resizing {
        var idx := FindByFrame(resizeFrame);
        if idx < 0 {
          resizing := false;
          return;
        }
        var nw := resizeStartW + (rootX - resizeStartX);
        var nh := resizeStartH + (rootY - resizeStartY);
        if nw < MIN_W {
          nw := MIN_W;
        }
        if nh < MIN_H {
          nh := MIN_H;
        }
        var slot := windows[idx].(w := nw, h := nh);
        var size := Size(nw - BORDER * 2, nh - TITLE_H - BORDER);
        ResizeKeeps(windows, idx, sizes, nextId, slot, size);
        sizes := sizes[slot.client := size];
        windows := windows[idx := slot];
        return;
      }
      if !dragging {
        return;
      }
      var idx := FindByFrame(dragFrame);
      if idx < 0 {
        dragging := false;
        return;
      }
      var slot := windows[idx].(x := rootX - dragOffX, y := rootY - dragOffY);
      ResizeKeeps(windows, idx, sizes, nextId, slot, sizes[slot.client]);
      assert sizes[slot.client := sizes[slot.client]] == sizes;
      windows := windows[idx := slot];
    }

    // wm_handle_button_release
    method ButtonRelease()
      requires Valid()
      modifies this
      ensures Valid() && windows == old(windows) && sizes == old(sizes) && Grabbed() == Grab(None, None)
    {
      dragging, resizing := false, false;
    }

    // wm_cycle_focus
    method CycleFocus(forward: bool)
      requires Valid()
      modifies `windows
      ensures Valid() && UsedList(windows) == UsedList(old(windows)) && (old(Fitting()) ==> Fitting())
      ensures old(count) == 0 ==> windows == old(windows)
      ensures forall cur :: Focused(old(windows), cur) ==> windows == Focus(old(windows), Neighbour(old(windows), cur, forward))
    {
      hide DistinctWindows, ClientsKnown, FramesFit, Focused, Focus, Turned, Distance, Neighbour;
      ghost var ws := windows;
      if count == 0 {
        NothingFocused(windows);
        return;
      }
      var cur := FindFocused();
      var idx, step := cur, 0;
      TurnedStep(cur, 0, forward);
      while step < MAX_WINDOWS
        invariant 0 <= step <= MAX_WINDOWS && windows == ws
        invariant 0 <= idx < MAX_WINDOWS && idx == Turned(cur, step, forward)
        invariant forall k :: 0 < k <= step ==> !windows[Turned(cur, k, forward)].used
        decreases MAX_WINDOWS - step
      {
        idx := if forward then (idx + 1) % MAX_WINDOWS else (idx - 1 + MAX_WINDOWS) % MAX_WINDOWS;
        TurnedStep(cur, step, forward);
        step := step + 1;
        if idx == cur {
          TurnedRound(cur, step, forward);
          break;
        }
        if windows[idx].used {
          NearestIsFound(ws, cur, step, forward);
          NearestIsNeighbour(ws, cur, idx, forward);
          FocusKeeps(windows, idx, sizes, nextId);
          FocusedUnique(ws, cur);
          SetFocus(idx);
          return;
        }
      }
      TurnedRound(cur, step, forward);
      AloneIsNeighbour(ws, cur, forward);
      FocusedUnique(ws, cur);
      FocusAgain(ws, cur);
    }

    // The index of the focused window; some window has the focus when any is managed.
    method FindFocused() returns (cur: int)
      requires Valid() && count > 0
      ensures 0 <= cur < |windows| && Focused(windows, cur)
    {
      ListMembers(windows);
      assert Uses(windows, UsedList(windows)[0]);
      ghost var focused :| Focused(windows, focused);
      cur := 0;
      while !(windows[cur].used && windows[cur].focused)
        invariant 0 <= cur <= focused
        decreases |windows| - cur
      {
        cur := cur + 1;
      }
    }
  }

  // ----- Gestures and placement

  // A frame after a run of pointer positions under the same grab.
  function Gesture(s: Slot, grab: Grab, moves: seq<(int, int)>): Slot {
    if moves == [] then s
    else
      var last := moves[|moves| - 1];
      Moved(Gesture(s, grab, moves[..|moves| - 1]), grab, last.0, last.1)
  }

  // A drag keeps the grabbed point of the frame under the pointer, wherever it has been before.
  lemma {:induction false} DragFollows(s: Slot, grab: Grab, x: int, y: int, moves: seq<(int, int)>)
    requires grab.resize.None? && grab.drag == Some((s.frame, x, y))
    ensures var s' := Gesture(s, grab, moves); s' == s.(x := s'.x, y := s'.y)
    ensures moves != [] ==>
              var s', last := Gesture(s, grab, moves), moves[|moves| - 1];
              s'.x + x == last.0 && s'.y + y == last.1
  {
    if moves != [] {
      DragFollows(s, grab, x, y, moves[..|moves| - 1]);
    }
  }

  // A resize moves the frame's lower right corner as the pointer moves, down to 200 by 150, whatever
  // else is grabbed, and leaves the upper left corner in place.
  lemma {:induction false} ResizeFollows(s: Slot, grab: Grab, x: int, y: int, moves: seq<(int, int)>)
    requires grab.resize == Some((s.frame, x, y, s.w, s.h))
    ensures var s' := Gesture(s, grab, moves); s' == s.(w := s'.w, h := s'.h)
    ensures moves != [] ==>
              var s', last := Gesture(s, grab, moves), moves[|moves| - 1];
              && (if s.w + last.0 - x >= 200 then s'.x + s'.w - last.0 == s.x + s.w - x else s'.w == 200)
              && (if s.h + last.1 - y >= 150 then s'.y + s'.h - last.1 == s.y + s.h - y else s'.h == 150)
  {
    if moves != [] {
      ResizeFollows(s, grab, x, y, moves[..|moves| - 1]);
    }
  }

  // A frame that no grab holds stays, and so does a dragged one while another is resized.
  lemma {:induction false} OthersStay(s: Slot, grab: Grab, moves: seq<(int, int)>)
    requires if grab.resize.Some? then grab.resize.value.0 != s.frame
             else grab.drag.Some? ==> grab.drag.value.0 != s.frame
    ensures Gesture(s, grab, moves) == s
  {
    if moves != [] {
      OthersStay(s, grab, moves[..|moves| - 1]);
    }
  }

  // Bringing the pointer back to where it pressed brings the frame back, if it was no smaller than
  // the smallest size.
  lemma GestureReturns(s: Slot, x: int, y: int, moves: seq<(int, int)>)
    requires moves != [] && moves[|moves| - 1] == (s.x + x, s.y + y)
    ensures Gesture(s, Grab(Some((s.frame, x, y)), None), moves) == s
    ensures s.w >= 200 && s.h >= 150 ==>
              Gesture(s, Grab(None, Some((s.frame, s.x + x, s.y + y, s.w, s.h))), moves) == s
  {
    DragFollows(s, Grab(Some((s.frame, x, y)), None), x, y, moves);
    ResizeFollows(s, Grab(None, Some((s.frame, s.x + x, s.y + y, s.w, s.h))), s.x + x, s.y + y, moves);
  }

  // After pointer motion the grab that was acted on is one of a managed frame, or none; one that
  // waits behind a resize is not looked at.
  lemma HeldIsManaged(ws: seq<Slot>, grab: Grab)
    ensures var held := Held(ws, grab);
            && (held.resize.Some? ==> held == grab && exists i :: Uses(ws, i) && ws[i].frame == grab.resize.value.0)
            && (grab.resize.Some? ==> held.drag == grab.drag)
            && (grab.resize.None? && held.drag.Some? ==> held == grab && exists i :: Uses(ws, i) && ws[i].frame == grab.drag.value.0)
    ensures forall i :: Uses(ws, i) && grab.resize.Some? && ws[i].frame == grab.resize.value.0 ==> Held(ws, grab) == grab
    ensures forall i :: Uses(ws, i) && grab.resize.None? && grab.drag.Some? && ws[i].frame == grab.drag.value.0 ==> Held(ws, grab) == grab
  {
  }

  // The close box is the 18 by 18 square in the middle of the 26 pixel title bar, 5 from the right;
  // the grip is the 14 by 14 corner at the lower right and what lies beyond. No click takes both.
  lemma ClickAreas(s: Slot, x: int, y: int)
    ensures OnClose(s, x, y) <==> 0 <= x - (s.w - 23) < 18 && 0 <= y - 4 < 18
    ensures OnGrip(s, x, y) <==> s.w - x <= 14 && s.h - y <= 14
    ensures s.h >= 36 ==> !(OnClose(s, x, y) && OnGrip(s, x, y))
  {
  }

  // A new frame leaves 5 pixels beside and below its client and 26 above; of any six frames opened
  // in a row no two have the same corner.
  lemma OpenedCascade(client: int, size: Size, client': int, size': Size, count: nat, count': nat, frame: int)
    requires count < count' <= count + 6
    ensures var s, s' := Opened(client, size, count, frame), Opened(client', size', count', frame);
            && s.w == size.w + 10 && s.h == size.h + 31 && s.used && s.client == client && s.frame == frame
            && s.x == s.y && 48 <= s.x <= 188 && (s.x - 48) % 28 == 0
            && (s'.x == s.x <==> count' == count + 6) && (count' == count + 1 && s'.x != 48 ==> s'.x == s.x + 28)
  {
  }

  // When the focused window goes, the first one left in the table gets the focus; otherwise the
  // focus stays where it was.
  lemma RemovedHeir(ws: seq<Slot>, idx: int, cur: int, first: int)
    requires Uses(ws, idx) && Focused(ws, cur)
    requires Uses(ws, first) && first != idx && forall j :: Uses(ws, j) && j != idx ==> first <= j
    ensures Focused(Removed(ws, idx), if cur == idx then first else cur)
  {
    var rest := ws[idx := ws[idx].(used := false)];
    forall j | 0 <= j < first ensures !rest[j].used {
      assert j != idx && ws[j].used ==> Uses(ws, j);
    }
    FirstOfList(rest, first);
    hide UsedList;
  }

  // ----- Cycling

  // The neighbouring position in a ring of n.
  function Cycled(p: int, n: int, forward: bool): (q: int)
    requires 0 <= p < n
    ensures 0 <= q < n
  {
    if forward then (if p + 1 < n then p + 1 else 0) else (if p > 0 then p - 1 else n - 1)
  }

  // Where slot i stands among the used ones.
  ghost function Rank(ws: seq<Slot>, i: int): (p: int)
    requires Uses(ws, i)
    ensures 0 <= p < |UsedList(ws)| && UsedList(ws)[p] == i
  {
    ListMembers(ws);
    var p :| 0 <= p < |UsedList(ws)| && UsedList(ws)[p] == i;
    p
  }

  // The next used slot in table order, around the end.
  ghost function Neighbour(ws: seq<Slot>, cur: int, forward: bool): (next: int)
    requires Uses(ws, cur)
    ensures Uses(ws, next)
  {
    ListMembers(ws);
    assert UsedList(ws)[Cycled(Rank(ws, cur), |UsedList(ws)|, forward)] in UsedList(ws);
    UsedList(ws)[Cycled(Rank(ws, cur), |UsedList(ws)|, forward)]
  }

  // The slot k steps from cur around the table.
  function Turned(cur: int, k: int, forward: bool): (i: int)
    ensures 0 <= cur < MAX_WINDOWS && 0 <= k <= MAX_WINDOWS ==> 0 <= i < MAX_WINDOWS
  {
    if forward then (if cur + k < MAX_WINDOWS then cur + k else cur + k - MAX_WINDOWS)
    else (if cur >= k then cur - k else cur - k + MAX_WINDOWS)
  }

  lemma TurnedStep(cur: int, k: int, forward: bool)
    requires 0 <= cur < MAX_WINDOWS && 0 <= k < MAX_WINDOWS
    ensures var idx := Turned(cur, k, forward);
            Turned(cur, k + 1, forward) == if forward then (idx + 1) % MAX_WINDOWS else (idx - 1 + MAX_WINDOWS) % MAX_WINDOWS
    ensures Turned(cur, 0, forward) == cur
  {
  }

  lemma TurnedRound(cur: int, k: int, forward: bool)
    requires 0 <= cur < MAX_WINDOWS && 0 < k <= MAX_WINDOWS
    ensures Turned(cur, k, forward) == cur <==> k == MAX_WINDOWS
  {
  }

  // How many steps it takes from cur to j.
  function Distance(cur: int, j: int, forward: bool): int {
    if forward then (if j >= cur then j - cur else j - cur + MAX_WINDOWS)
    else (if j <= cur then cur - j else cur - j + MAX_WINDOWS)
  }

  lemma TurnedDistance(cur: int, j: int, forward: bool)
    requires 0 <= cur < MAX_WINDOWS && 0 <= j < MAX_WINDOWS
    ensures Turned(cur, Distance(cur, j, forward), forward) == j
  {
  }

  lemma TurnedSteps(cur: int, k: int, forward: bool)
    requires 0 <= cur < MAX_WINDOWS && 0 <= k < MAX_WINDOWS
    ensures Distance(cur, Turned(cur, k, forward), forward) == k
  {
  }

  // The first used slot the scan meets is the used slot nearest to cur.
  lemma NearestIsFound(ws: seq<Slot>, cur: int, step: int, forward: bool)
    requires |ws| == MAX_WINDOWS && 0 <= cur < MAX_WINDOWS && 0 < step <= MAX_WINDOWS
    requires Turned(cur, step, forward) != cur
    requires forall k :: 0 < k < step ==> !ws[Turned(cur, k, forward)].used
    ensures forall j :: Uses(ws, j) && j != cur ==>
              Distance(cur, Turned(cur, step, forward), forward) <= Distance(cur, j, forward)
  {
    TurnedRound(cur, step, forward);
    TurnedSteps(cur, step, forward);
    forall j | Uses(ws, j) && j != cur ensures step <= Distance(cur, j, forward) {
      TurnedDistance(cur, j, forward);
    }
  }

  lemma NearestIsNeighbour(ws: seq<Slot>, cur: int, idx: int, forward: bool)
    requires |ws| == MAX_WINDOWS && Uses(ws, cur) && Uses(ws, idx) && idx != cur
    requires forall j :: Uses(ws, j) && j != cur ==> Distance(cur, idx, forward) <= Distance(cur, j, forward)
    ensures Neighbour(ws, cur, forward) == idx
  {
    var list, p, q, next := UsedList(ws), Rank(ws, cur), Rank(ws, idx), Neighbour(ws, cur, forward);
    ListMembers(ws);
    hide UsedList;
    assert next in list;
    assert Cycled(p, |list|, forward) != p;
    assert next != cur;
    assert list[0] <= list[p] && list[p] <= list[|list| - 1] && list[0] <= list[q] && list[q] <= list[|list| - 1];
  }

  // With no other used slot the focus stays.
  lemma AloneIsNeighbour(ws: seq<Slot>, cur: int, forward: bool)
    requires |ws| == MAX_WINDOWS && Uses(ws, cur)
    requires forall k :: 0 < k < MAX_WINDOWS ==> !ws[Turned(cur, k, forward)].used
    ensures Neighbour(ws, cur, forward) == cur
  {
    ListMembers(ws);
    var next := Neighbour(ws, cur, forward);
    assert next in UsedList(ws);
    TurnedDistance(cur, next, forward);
  }

  lemma FocusedUnique(ws: seq<Slot>, cur: int)
    requires Focused(ws, cur)
    ensures forall c :: Focused(ws, c) ==> c == cur
  {
  }

  // Focusing the focused window changes nothing, and undoes focusing another one.
  lemma FocusAgain(ws: seq<Slot>, cur: int)
    requires Focused(ws, cur)
    ensures Focus(ws, cur) == ws
    ensures forall other :: Uses(ws, other) ==> Focus(Focus(ws, other), cur) == ws
  {
  }

  lemma NothingFocused(ws: seq<Slot>)
    requires UsedList(ws) == []
    ensures forall c :: !Focused(ws, c)
  {
    ListMembers(ws);
  }

  // The focused slot after k presses.
  ghost function After(ws: seq<Slot>, cur: int, k: nat, forward: bool): (i: int)
    requires Uses(ws, cur)
    ensures Uses(ws, i)
  {
    ListMembers(ws);
    if k == 0 then cur else Neighbour(ws, After(ws, cur, k - 1, forward), forward)
  }

  lemma RankUnique(ws: seq<Slot>, p: int)
    requires 0 <= p < |UsedList(ws)|
    ensures Uses(ws, UsedList(ws)[p]) && Rank(ws, UsedList(ws)[p]) == p
  {
    ListMembers(ws);
    assert UsedList(ws)[p] in UsedList(ws);
  }

  // Going back undoes going forward.
  lemma BackwardUndoesForward(ws: seq<Slot>, cur: int, forward: bool)
    requires Uses(ws, cur)
    ensures Uses(ws, Neighbour(ws, cur, forward))
    ensures Neighbour(ws, Neighbour(ws, cur, forward), !forward) == cur
  {
    RankUnique(ws, Cycled(Rank(ws, cur), |UsedList(ws)|, forward));
  }

  lemma {:induction false} AfterRank(ws: seq<Slot>, cur: int, k: nat)
    requires Uses(ws, cur) && k <= |UsedList(ws)|
    ensures var p, n := Rank(ws, cur), |UsedList(ws)|;
            After(ws, cur, k, true) == UsedList(ws)[if p + k < n then p + k else p + k - n]
  {
    var p, n := Rank(ws, cur), |UsedList(ws)|;
    if k > 0 {
      AfterRank(ws, cur, k - 1);
      RankUnique(ws, if p + (k - 1) < n then p + (k - 1) else p + (k - 1) - n);
    }
  }

  lemma FocusKeepsUse(ws: seq<Slot>, idx: int)
    requires Uses(ws, idx)
    ensures UsedList(Focus(ws, idx)) == UsedList(ws) && Focused(Focus(ws, idx), idx)
    ensures forall i :: Uses(Focus(ws, idx), i) <==> Uses(ws, i)
  {
    SameUse(ws, Focus(ws, idx));
  }

  // Where the focus goes next depends only on which slots are used.
  lemma SameNeighbour(ws: seq<Slot>, ws': seq<Slot>, cur: int, forward: bool)
    requires UsedList(ws') == UsedList(ws) && Uses(ws, cur) && Uses(ws', cur)
    ensures Neighbour(ws', cur, forward) == Neighbour(ws, cur, forward)
  {
    ListMembers(ws);
    hide UsedList;
    assert Rank(ws', cur) == Rank(ws, cur);
  }

  // The table after k presses.
  ghost function Pressed(ws: seq<Slot>, cur: int, k: nat, forward: bool): (ws': seq<Slot>)
    requires Focused(ws, cur)
    ensures UsedList(ws') == UsedList(ws)
    ensures Focused(ws', After(ws, cur, k, forward))
  {
    if k == 0 then ws
    else
      FocusKeepsUse(ws, After(ws, cur, k, forward));
      Focus(ws, After(ws, cur, k, forward))
  }

  // Each press of the run does what wm_cycle_focus does to the table it finds.
  lemma PressedStep(ws: seq<Slot>, cur: int, k: nat, forward: bool)
    requires Focused(ws, cur)
    ensures var now, at := Pressed(ws, cur, k, forward), After(ws, cur, k, forward);
            Pressed(ws, cur, k + 1, forward) == Focus(now, Neighbour(now, at, forward))
  {
    var now, at, next := Pressed(ws, cur, k, forward), After(ws, cur, k, forward), After(ws, cur, k + 1, forward);
    SameNeighbour(ws, now, at, forward);
    FocusKeepsUse(ws, at);
    hide UsedList, After, Neighbour;
    assert Focus(now, next) == Focus(ws, next);
  }

  // A press and a press the other way leave the table as it was.
  lemma OppositePressUndoes(ws: seq<Slot>, cur: int, forward: bool)
    requires Focused(ws, cur)
    ensures var there, at := Focus(ws, Neighbour(ws, cur, forward)), Neighbour(ws, cur, forward);
            Focused(there, at) && Focus(there, Neighbour(there, at, !forward)) == ws
  {
    var at := Neighbour(ws, cur, forward);
    FocusKeepsUse(ws, at);
    SameNeighbour(ws, Focus(ws, at), at, !forward);
    BackwardUndoesForward(ws, cur, forward);
    FocusAgain(ws, cur);
  }

  // As many presses as there are windows come back to the start,
  lemma CycleReturns(ws: seq<Slot>, cur: int)
    requires Uses(ws, cur)
    ensures After(ws, cur, |UsedList(ws)|, true) == cur
  {
    AfterRank(ws, cur, |UsedList(ws)|);
  }

  // with the very same table,
  lemma TableReturns(ws: seq<Slot>, cur: int)
    requires Focused(ws, cur)
    ensures Pressed(ws, cur, |UsedList(ws)|, true) == ws
  {
    assert Uses(ws, cur);
    hide UsedList, After, Focus, Focused;
    FocusAgain(ws, cur);
    CycleReturns(ws, cur);
  }

  // focus no window twice on the way,
  lemma CycleDistinct(ws: seq<Slot>, cur: int, j: nat, k: nat)
    requires Uses(ws, cur) && j < k < |UsedList(ws)|
    ensures After(ws, cur, j, true) != After(ws, cur, k, true)
  {
    ListMembers(ws);
    AfterRank(ws, cur, j);
    AfterRank(ws, cur, k);
    hide After, UsedList;
  }

  // and leave out none.
  lemma CycleReaches(ws: seq<Slot>, cur: int, i: int) returns (k: nat)
    requires Uses(ws, cur) && Uses(ws, i)
    ensures k < |UsedList(ws)| && After(ws, cur, k, true) == i
  {
    var p, q, n := Rank(ws, cur), Rank(ws, i), |UsedList(ws)|;
    k := if q >= p then q - p else q - p + n;
    AfterRank(ws, cur, k);
  }
}
