/** The two window-moving request handlers, restated as pure decisions: from
    what the host reported about the sender's window, they return the host
    calls to make, in order. */
module Handlers {
  import opened Wrappers
  import opened Windows
  import Selector

  /** The tab that sent the request and the window it is in. */
  datatype Sender = Sender(tabId: int, windowId: int)

  /** A rectangle in screen pixels (or, for a requested frame, in pixels of the
      requesting page's window). */
  datatype Rect = Rect(left: int, top: int, width: int, height: int)

  /** One call to the host's window or tab API. */
  datatype Action =
    | UpdateWindow(windowId: int, props: WindowProps)   // windows.update
    | CreateWindow(props: WindowProps)                  // windows.create
    | MoveTab(tabId: int, toWindow: int, index: int)    // tabs.move; index -1 is "at the end"
    | ActivateTab(tabId: int)                           // tabs.update with active: true

  /** The requested frame moved into screen coordinates by the window origin. */
  function OnScreen(frame: Rect, screenLeft: int, screenTop: int): Rect
  {
    Rect(screenLeft + frame.left, screenTop + frame.top, frame.width, frame.height)
  }

  /** The part of a popup window of outer rectangle `outer` below a menu bar
      `menubar` pixels high. */
  function ContentArea(outer: Rect, menubar: int): Rect
  {
    Rect(outer.left, outer.top + menubar, outer.width, outer.height - menubar)
  }

  /** The outer rectangle given to the popup: the requested frame on screen,
      grown upwards by the menu bar height, so that the popup's content area
      covers exactly the requested frame. */
  function PopupRect(screenLeft: int, screenTop: int, frame: Rect, menubar: int): (r: Rect)
    ensures ContentArea(r, menubar) == OnScreen(frame, screenLeft, screenTop)
    ensures r.top + r.height == screenTop + frame.top + frame.height
  {
    Rect(screenLeft + frame.left, screenTop + frame.top - menubar, frame.width, frame.height + menubar)
  }

  /** Only one outer rectangle has the requested content area, so PopupRect is
      the unique answer. */
  lemma PopupRectUnique(screenLeft: int, screenTop: int, frame: Rect, menubar: int, outer: Rect)
    ensures ContentArea(outer, menubar) == OnScreen(frame, screenLeft, screenTop)
            <==> outer == PopupRect(screenLeft, screenTop, frame, menubar)
  {
  }

  /** The position and size properties of a window property object. */
  function RectOf(props: WindowProps): Option<Rect>
  {
    if props.left.Some? && props.top.Some? && props.width.Some? && props.height.Some?
    then Some(Rect(props.left.value, props.top.value, props.width.value, props.height.value))
    else None
  }

  function PropsOf(a: Action): Option<WindowProps>
  {
    match a
    case UpdateWindow(_, p) => Some(p)
    case CreateWindow(p) => Some(p)
    case _ => None
  }

  /** The `please_make_me_a_popup` handler. `senderWindow` is what
      `windows.get` returned for the sender's window, `frame` the requested
      position, `menubar` the measured menu bar height. A window that is
      already a popup is moved in place; otherwise a new focused popup window
      is created around the sender's tab. Both property objects go through
      Firefix. */
  function PopupActions(isFirefox: bool, menubar: int, sender: Sender, senderWindow: Window, frame: Rect): (r: seq<Action>)
    ensures |r| == 1
    ensures r[0].UpdateWindow? <==> senderWindow.wtype == Popup
    ensures r[0].UpdateWindow? || r[0].CreateWindow?
    ensures r[0].UpdateWindow? ==> r[0].windowId == sender.windowId && r[0].props.tabId.None? && r[0].props.wtype.None?
    ensures r[0].CreateWindow? ==> r[0].props.tabId == Some(sender.tabId) && r[0].props.wtype == Some(Popup)
    ensures PropsOf(r[0]).Some?
    ensures RectOf(PropsOf(r[0]).value) == Some(PopupRect(senderWindow.left, senderWindow.top, frame, menubar))
    ensures PropsOf(r[0]).value.focused == (if isFirefox then None else Some(true))
  {
    var rect := PopupRect(senderWindow.left, senderWindow.top, frame, menubar);
    if senderWindow.wtype == Popup then
      [UpdateWindow(sender.windowId, Firefix(isFirefox,
         WindowProps(None, None, Some(true), Some(rect.left), Some(rect.top), Some(rect.width), Some(rect.height))))]
    else
      [CreateWindow(Firefix(isFirefox,
         WindowProps(Some(sender.tabId), Some(Popup), Some(true), Some(rect.left), Some(rect.top), Some(rect.width), Some(rect.height))))]
  }

  /** The two branches of the popup handler agree on everything except that
      creating a window also names the tab and the popup type. */
  lemma PopupBranchesShareRect(isFirefox: bool, menubar: int, sender: Sender, w: Window, frame: Rect)
    requires w.wtype != Popup
    ensures var upd := PopupActions(isFirefox, menubar, sender, w.(wtype := Popup), frame)[0];
            var cre := PopupActions(isFirefox, menubar, sender, w, frame)[0];
            upd.props == cre.props.(tabId := None, wtype := None)
  {
  }

  /** The `please_make_me_a_tab_again` handler. `senderType` is the type of
      the sender's window; `lastFocused` and `all` are what the host reported
      to `get_fallback_window`. A sender already in a normal window needs
      nothing. Otherwise the tab is moved to the end of the fallback window and
      made active, or, without a fallback, a new normal window is created for
      it (this create call does not go through Firefix). */
  function ReattachActions(sender: Sender, senderType: WindowType, lastFocused: Window, all: seq<Window>): (r: seq<Action>)
    ensures r == [] <==> senderType == Normal
    ensures r != [] && r[0].MoveTab? ==>
              && |r| == 2
              && r[0].tabId == sender.tabId && r[0].index == -1
              && r[1] == ActivateTab(sender.tabId)
              && r[0].toWindow != sender.windowId
              && exists w :: (w == lastFocused || w in all) && IsValidWindow(w) && w.id == r[0].toWindow
    ensures r != [] ==> r[0].MoveTab? || r == [CreateWindow(WindowProps(Some(sender.tabId), Some(Normal), None, None, None, None, None))]
    ensures r != [] && r[0].CreateWindow? <==>
              && senderType != Normal
              && !Selector.IsCandidate(lastFocused, sender.windowId)
              && forall j :: 0 <= j < |all| ==> !Selector.IsCandidate(all[j], sender.windowId)
    ensures senderType != Normal && Selector.IsCandidate(lastFocused, sender.windowId) ==>
              r == [MoveTab(sender.tabId, lastFocused.id, -1), ActivateTab(sender.tabId)]
    ensures senderType != Normal && !Selector.IsCandidate(lastFocused, sender.windowId) && r != [] && r[0].MoveTab? ==>
              exists i :: Selector.IsFirstFewest(all, sender.windowId, i) && r[0] == MoveTab(sender.tabId, all[i].id, -1)
    ensures senderType != Normal && Selector.FallbackWindow(lastFocused, all, sender.windowId).Some? ==>
              r == [MoveTab(sender.tabId, Selector.FallbackWindow(lastFocused, all, sender.windowId).value.id, -1),
                    ActivateTab(sender.tabId)]
  {
    if senderType == Normal then []
    else
      match Selector.FallbackWindow(lastFocused, all, sender.windowId)
      case Some(w) =>
        Selector.ChosenWindowIsValid(lastFocused, all, sender.windowId);
        [MoveTab(sender.tabId, w.id, -1), ActivateTab(sender.tabId)]
      case None =>
        [CreateWindow(WindowProps(Some(sender.tabId), Some(Normal), None, None, None, None, None))]
  }

  /** The worked example of the popup geometry: a 300 by 400 frame at (10, 20)
      in a window at (100, 50) under a 30-pixel menu bar. */
  lemma PopupRectExample()
    ensures PopupRect(100, 50, Rect(10, 20, 300, 400), 30) == Rect(110, 40, 300, 430)
  {
  }
}
