/** Browser windows as the host's window API reports them, the validity rule
    used to pick a destination window, and the property objects passed to the
    host's window create/update calls. */
module Windows {
  import opened Wrappers

  /** The host's `windows.WindowType`. */
  datatype WindowType = Normal | Popup | Panel | App | Devtools

  /** The host's `windows.WindowState`; `Shown` is the state the host calls "normal". */
  datatype WindowState = Shown | Minimized | Maximized | Fullscreen | Docked

  /** A window as returned by `windows.get`, `windows.getAll` and
      `windows.getLastFocused`. Only the attributes the module reads are kept;
      `tabCount` is the length of the window's tab list. */
  datatype Window = Window(
    id: int,
    wtype: WindowType,
    incognito: bool,
    state: WindowState,
    tabCount: nat,
    left: int,
    top: int)

  /** A window a tab may be put back into: not private, with a tab strip, and
      not minimized. */
  predicate IsValidWindow(w: Window)
  {
    !w.incognito && w.wtype == Normal && w.state != Minimized
  }

  /** The property object handed to `windows.create` or `windows.update`.
      `None` is a property that is not present on the object. */
  datatype WindowProps = WindowProps(
    tabId: Option<int>,
    wtype: Option<WindowType>,
    focused: Option<bool>,
    left: Option<int>,
    top: Option<int>,
    width: Option<int>,
    height: Option<int>)

  /** Firefox refuses the `focused` property on window create/update, so on that
      engine the property is taken off the object; on any other engine the
      object passes through untouched. */
  function Firefix(isFirefox: bool, props: WindowProps): (r: WindowProps)
    ensures isFirefox ==> r.focused.None?
    ensures !isFirefox ==> r == props
    ensures r.tabId == props.tabId && r.wtype == props.wtype
    ensures r.left == props.left && r.top == props.top
    ensures r.width == props.width && r.height == props.height
  {
    if isFirefox then props.(focused := None) else props
  }

  /** Stripping `focused` twice is the same as stripping it once. */
  lemma FirefixIdempotent(isFirefox: bool, props: WindowProps)
    ensures Firefix(isFirefox, Firefix(isFirefox, props)) == Firefix(isFirefox, props)
  {
  }

  /** Firefix loses nothing but `focused`: putting the original `focused` back
      restores the object exactly. */
  lemma FirefixOnlyDropsFocused(isFirefox: bool, props: WindowProps)
    ensures Firefix(isFirefox, props).(focused := props.focused) == props
  {
  }
}
