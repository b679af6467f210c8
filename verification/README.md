# Windowed background module, modelled in Dafny

This project models the decision logic of the background module of the
"Windowed" browser extension. The extension lets a page's tab be detached into
a small popup window and later put back into a normal tabbed window. The
background module is a thin layer over the host's window, tab and storage
APIs. Its pure rules are modelled here as total functions over plain data:

- `windows.dfy` (module `Windows`): windows as the host reports them. It holds
  the validity rule for a destination window (`is_valid_window`), the window
  property objects, and `firefix_window`, which drops `focused` on Firefox.
- `selector.dfy` (module `Selector`): `get_fallback_window`. It picks the
  last-focused window when that window qualifies. Otherwise it filters the
  host's window list and takes the head of a stable sort by tab count. The
  stable `Array.prototype.sort` is modelled as an insertion sort. Its contract
  says the result is sorted, a permutation, and stable: for each tab count, the
  windows keep their host order. It is proved that the head of that sort is
  the first window, in host order, among the qualifying windows with the fewest
  tabs. The comment above the function says "a random" window; the code picks
  the fewest-tabs one, and the model follows the code.
- `host_config.dfy` (module `HostConfig`): `clean_mode` and the pure part of
  `get_host_config`. The synced store is a map from keys to JavaScript values.
- `handlers.dfy` (module `Handlers`): the `please_make_me_a_popup` and
  `please_make_me_a_tab_again` handlers. Each becomes a function from what the
  host reported to the sequence of host calls it makes.
- `wrappers.dfy` (module `Wrappers`): `Option`, standing for `null`/absent,
  and `Result`, standing for a settled promise. `Success` is a fulfilled
  promise and `Failure` a rejected one.

Host inputs become parameters:
- the engine check is a boolean `isFirefox`;
- the measured menu bar height is an integer `menubar`;
- the host's replies (`windows.get`, `getLastFocused`, `getAll`,
  `storage.sync.get`) are values passed in.

Host calls that change something are returned as `Action` values, in order.
Every window's tab count is an explicit field. In the source, `getAll` is
called without `populate`, so the windows it returns have no `tabs` list. The
sort comparator then throws as soon as two windows qualify (see "## Findings").
`Selector.FallbackWindow` models the selector as evidently intended, with the
count known. `Selector.FallbackWindowAsWritten` models the code as written.

## Model

| member | source | states |
|---|---|---|
| `Windows.Firefix` | extension/Background/BackgroundModule.js:29-37 | on Firefox the result has no `focused` and every other property is unchanged; on any other engine the result is the input |
| `Windows.FirefixIdempotent` | extension/Background/BackgroundModule.js:29-37 | applying the Firefox fix twice equals applying it once |
| `Windows.FirefixOnlyDropsFocused` | extension/Background/BackgroundModule.js:32-33 | putting the original `focused` back onto the result restores the input exactly, so nothing else is lost |
| `Windows.IsValidWindow` | extension/Background/BackgroundModule.js:15-21 | a window is valid iff it is not incognito, its type is normal, and its state is not minimized |
| `Selector.Candidates` | extension/Background/BackgroundModule.js:58-60 | a window is in the filtered list iff it is in the host list, is valid and its id differs from the excluded id |
| `Selector.Insert` | extension/Background/BackgroundModule.js:61 | inserting into a list sorted by tab count keeps it sorted, adds exactly the one window, and puts it before every window with an equal tab count |
| `Selector.SortByTabs` | extension/Background/BackgroundModule.js:61 | the sort by tab count yields a sorted permutation in which windows with the same tab count keep their original order (stability) |
| `Selector.FirstFewestUnique` | extension/Background/BackgroundModule.js:58-61 | at most one host-list index is the first valid, non-excluded window with the fewest tabs |
| `Selector.HeadIsFirstFewest` | extension/Background/BackgroundModule.js:57-61 | when some window qualifies, element 0 of the sorted filtered list is the qualifying window with the fewest tabs, first in host order on a tie |
| `Selector.FallbackWindow` | extension/Background/BackgroundModule.js:45-69 | returns the last-focused window when it is valid and not excluded; otherwise returns the first-fewest qualifying window of the host list, and null iff none qualifies |
| `Selector.FallbackWindowAsWritten` | extension/Background/BackgroundModule.js:45-69 | as written, without tab lists: the last-focused window when it qualifies; otherwise a rejection iff two or more windows qualify, the only qualifying window when there is one, and null iff none qualifies |
| `Selector.MissingTabsRejects` | extension/Background/BackgroundModule.js:57-61 | with a non-qualifying last-focused window and two qualifying windows, the code as written rejects while the selector with tab counts returns a window |
| `Selector.AsWrittenAgreesWithoutComparison` | extension/Background/BackgroundModule.js:57-67 | with at most one qualifying window in the host list, the code as written and the selector with tab counts return the same window or null |
| `Selector.ChosenWindowIsValid` | extension/Background/BackgroundModule.js:15-21 | a chosen window is not incognito, has type normal, is not minimized, is not the excluded window, and comes from the host's replies |
| `Selector.FastPathIgnoresList` | extension/Background/BackgroundModule.js:51-55 | when the last-focused window qualifies, the host's full window list does not affect the result |
| `Selector.FallbackExample` | extension/Background/BackgroundModule.js:57-67 | with a minimized last-focused window and valid windows of 3, 1 and 5 tabs, the one-tab window is chosen |
| `HostConfig.ParseDirectMode` | extension/Background/BackgroundModule.js:88-89 | exactly "fullscreen", "windowed" and "in-window" are read back as a mode, and the mode read back carries that name |
| `HostConfig.ParseDirectModeRoundTrip` | extension/Background/BackgroundModule.js:76-79 | naming a mode and reading the name back gives the same mode for every mode except "ask" |
| `HostConfig.CleanMode` | extension/Background/BackgroundModule.js:86-92 | a stored direct-mode string is kept unchanged; any other value gives "fullscreen" exactly when the disabled value is the boolean `true`, else "ask" |
| `HostConfig.CleanModeIdempotent` | extension/Background/BackgroundModule.js:86-92 | cleaning an already cleaned mode, given by its name, with the same disabled value changes nothing |
| `HostConfig.CleanModeAsWritten` | extension/Background/BackgroundModule.js:86-92 | with loose `==`, the result is the stored value itself, "fullscreen" or "ask"; a stored direct-mode string, and every object whose string form is a direct mode name, is returned unchanged; for any stored value that is not an object it is one of the four mode names; a non-string result is always an object whose string form is a direct mode name; for any other stored value, including "ask", the result is "fullscreen" when disabled is the boolean `true`, else "ask" |
| `HostConfig.CleanModeAsWrittenLeaksObject` | extension/Background/BackgroundModule.js:88-89 | as written, a stored array `["windowed"]` comes back unchanged, and it is not a string |
| `HostConfig.CleanModeAgreesOffObjects` | extension/Background/BackgroundModule.js:86-92 | for every stored value that is not an object, the as-written and corrected versions return the same mode name |
| `HostConfig.StorageKeysDistinct` | extension/Background/BackgroundModule.js:95-97 | the keys `host`, `mode(host)` and `pip(host)` are pairwise distinct, and each derived key determines its host |
| `HostConfig.HostConfigOf` | extension/Background/BackgroundModule.js:94-108 | `pip` is true iff `pip(host)` holds exactly `true`; the mode is the stored `mode(host)` when it names a direct mode; otherwise it is "fullscreen" iff the bare host key holds exactly `true`, else "ask" |
| `HostConfig.HostConfigReadsOnlyItsKeys` | extension/Background/BackgroundModule.js:98-102 | two stores that agree on the host's three keys give the same configuration |
| `Handlers.PopupRect` | extension/Background/BackgroundModule.js:164-167 | the popup's content area below the menu bar is exactly the requested frame moved by the window origin, so the bottom edge is screenTop + frame.top + frame.height |
| `Handlers.PopupRectUnique` | extension/Background/BackgroundModule.js:178-181 | an outer rectangle has that content area iff it equals the computed popup rectangle |
| `Handlers.PopupActions` | extension/Background/BackgroundModule.js:147-186 | exactly one host call: update the sender's window in place iff it is already a popup, else create a window; a created window carries the tab and the popup type, an update carries neither; both use the popup rectangle, and `focused` is true except on Firefox, where it is absent |
| `Handlers.PopupBranchesShareRect` | extension/Background/BackgroundModule.js:158-183 | the update and create branches send the same properties apart from `tabId` and `type` |
| `Handlers.PopupRectExample` | extension/Background/BackgroundModule.js:164-167 | frame (10, 20, 300, 400) in a window at (100, 50) under a 30-pixel menu bar gives the rectangle (110, 40, 300, 430) |
| `Handlers.ReattachActions` | extension/Background/BackgroundModule.js:194-215 | no call iff the sender is in a normal window. Otherwise: move the tab to the end of the window `get_fallback_window` returns, then activate it. That window is the last-focused one when it qualifies, else the first window in host order with the fewest tabs. A new normal window is created with the tab iff no window qualifies |

## Left out

- Engine detection through `runtime.getBrowserInfo` (lines 5-10) is left out: host I/O. It becomes the `isFirefox` parameter.
- The menu bar height measured from `window.outerHeight - window.innerHeight` (line 74) is left out: it depends on the extension's own window. It becomes the `menubar` parameter.
- `Math.round` is left out: it rounds floating point. Coordinates and sizes are integers, where rounding is the identity.
- `new URL(tab.url).host` (line 95) is left out: library URL parsing. The host string is an input. The thrown error for an unparsable URL is not modelled.
- Rejected host calls are not modelled. An example is `getLastFocused` when no normal window exists. Such errors propagate to the message wrapper, which is left out as well.
- `onMessage` (lines 116-131) is left out: listener and promise plumbing. It wraps each handler's result or error in a `resolve`/`reject` envelope.
- The `update_windowed_button` handler (lines 133-140) is left out: it calls `update_button_on_tab`, which is not part of this model.
- `ping_content_script` and `current_port_promises` (lines 217-244) are left out: they de-duplicate concurrent port probes, a concern of asynchronous scheduling.
- `Windows.Window` leaves out some host details. It assumes the window's `left` and `top` are always known; on a real host they are optional.
- `Selector.FallbackWindow` assumes each window's tab count is known. In the source, `getAll` (line 57) is called without `populate`, so `tabs` is absent. With two or more qualifying windows, the comparator at line 61 then throws a TypeError. `get_fallback_window` rejects, and the reattach request ends as a `reject` envelope instead of choosing the fewest-tabs window. With zero or one qualifying window nothing is thrown. `Selector.FallbackWindowAsWritten` models this behaviour.
- `Handlers.ReattachActions` uses `Selector.FallbackWindow`, the selector with tab counts. It does not model the rejection the code as written produces.
- `HostConfig.HostConfigOf` uses the strict `HostConfig.CleanMode`. For a stored object under `mode(host)` whose string form is a direct mode name, such as `["windowed"]`, the code as written (lines 104-105) returns the object itself as `mode`. The model returns that mode's name instead.
- `Handlers.PopupActions` ignores the window returned by `windows.create`, as the source does.

## Findings

| source | as written | input that shows it | evidently intended | confidence | as-written member | corrected member |
|---|---|---|---|---|---|---|
| extension/Background/BackgroundModule.js:88 | `clean_mode` compares the stored mode with loose `==`. An object whose string form is a mode name passes the test and is returned as it is | stored `mode(host)` = `["windowed"]` (an array); the result is the array, not one of the four mode strings the return type promises | compare strictly, so that only the strings "fullscreen", "windowed" and "in-window" are kept and every other value falls back to "fullscreen"/"ask" | medium; not executed | `HostConfig.CleanModeAsWrittenLeaksObject` | `HostConfig.CleanMode` |
| extension/Background/BackgroundModule.js:57-61 | `windows.getAll` is called without `populate`, so the returned windows have no `tabs` list, and the sort comparator reads `a.tabs.length` | the last-focused window is minimized and two other normal windows are valid; the comparator throws a TypeError, so the request is rejected | call `getAll` with `populate: true`, so the window with the fewest tabs is chosen | medium; not executed | `Selector.MissingTabsRejects` | `Selector.FallbackWindow` |

`HostConfig.HostConfigOf` uses the corrected `HostConfig.CleanMode`. The two
versions agree on every stored value that is not an object
(`HostConfig.CleanModeAgreesOffObjects`).
