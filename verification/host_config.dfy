/** The per-site display configuration: three values read from the
    extension's synced key-value store under keys derived from the page's
    host, normalised into a display mode and a picture-in-picture flag. */
module HostConfig {
  import opened Wrappers

  /** A value read from the store, as JavaScript sees it. A key that is not
      stored reads as `Undefined`. `Obj(text)` is an object or array; `text` is
      the string it turns into when loosely compared with a string (for an
      array, its elements joined with commas). Numbers are kept without their
      value: none of the comparisons below can succeed on one. */
  datatype JsValue = Undefined | Null | Bool(b: bool) | Num | Str(s: string) | Obj(text: string)

  /** The display modes a page can be shown in. */
  datatype Mode = Fullscreen | Windowed | InWindow | Ask

  /** The string by which a mode is stored and sent to the content script. */
  function ModeName(m: Mode): string
  {
    match m
    case Fullscreen => "fullscreen"
    case Windowed => "windowed"
    case InWindow => "in-window"
    case Ask => "ask"
  }

  /** Stored mode strings that are taken as they are; "ask" is not one of them. */
  const DirectModes: set<string> := {"fullscreen", "windowed", "in-window"}

  /** Reads a stored mode string back into a mode, when it is one of the
      directly accepted names. */
  function ParseDirectMode(s: string): (r: Option<Mode>)
    ensures r.Some? <==> s in DirectModes
    ensures r.Some? ==> ModeName(r.value) == s && r.value != Ask
  {
    if s == "fullscreen" then Some(Fullscreen)
    else if s == "windowed" then Some(Windowed)
    else if s == "in-window" then Some(InWindow)
    else None
  }

  /** Mode names are distinct, so the parse inverts the naming on every mode
      except Ask. */
  lemma ParseDirectModeRoundTrip(m: Mode)
    ensures m != Ask <==> ParseDirectMode(ModeName(m)) == Some(m)
    ensures m == Ask ==> ParseDirectMode(ModeName(m)) == None
  {
  }

  /** `clean_mode` with the stored mode compared by strict equality: a stored
      string naming one of the three direct modes is kept, anything else
      becomes Fullscreen when the legacy "disabled" value is exactly `true`,
      and Ask otherwise. */
  function CleanMode(mode: JsValue, disabled: JsValue): (r: Mode)
    ensures mode.Str? && mode.s in DirectModes ==> ModeName(r) == mode.s
    ensures !(mode.Str? && mode.s in DirectModes) ==>
              (r == Fullscreen <==> disabled == Bool(true)) && (r == Fullscreen || r == Ask)
  {
    var direct := if mode.Str? then ParseDirectMode(mode.s) else None;
    match direct
    case Some(m) => m
    case None => if disabled == Bool(true) then Fullscreen else Ask
  }

  /** Feeding the cleaned mode back in, by its stored name, changes nothing. */
  lemma CleanModeIdempotent(mode: JsValue, disabled: JsValue)
    ensures CleanMode(Str(ModeName(CleanMode(mode, disabled))), disabled) == CleanMode(mode, disabled)
  {
  }

  /** JavaScript's `v == s` for a string `s` that is not numeric, as the three
      direct mode names are: only a string equal to `s`, or an object whose
      string form is `s`, compares equal. */
  predicate LooselyEquals(v: JsValue, s: string)
    requires s in DirectModes
  {
    match v
    case Str(t) => t == s
    case Obj(text) => text == s
    case _ => false
  }

  /** `clean_mode` as the code writes it, with loose `==`: the stored value
      itself is returned when it loosely equals a direct mode name. */
  function CleanModeAsWritten(mode: JsValue, disabled: JsValue): (r: JsValue)
    ensures r == mode || r == Str("fullscreen") || r == Str("ask")
    ensures (mode.Obj? && mode.text in DirectModes) || (mode.Str? && mode.s in DirectModes) ==> r == mode
    ensures !mode.Obj? ==> r.Str? && r.s in DirectModes + {"ask"}
    ensures !r.Str? ==> r == mode && r.Obj? && r.text in DirectModes
    ensures !((mode.Obj? && mode.text in DirectModes) || (mode.Str? && mode.s in DirectModes)) ==>
              (r == Str("fullscreen") <==> disabled == Bool(true)) && (r == Str("fullscreen") || r == Str("ask"))
  {
    if LooselyEquals(mode, "fullscreen") || LooselyEquals(mode, "windowed") || LooselyEquals(mode, "in-window")
    then mode
    else Str(if disabled == Bool(true) then "fullscreen" else "ask")
  }

  /** The as-written version lets a stored array such as `["windowed"]` through
      unchanged: the result is not a mode string at all. */
  lemma CleanModeAsWrittenLeaksObject()
    ensures CleanModeAsWritten(Obj("windowed"), Undefined) == Obj("windowed")
    ensures !CleanModeAsWritten(Obj("windowed"), Undefined).Str?
  {
    assert LooselyEquals(Obj("windowed"), "windowed");
  }

  /** On every value that is not an object the code as written and the
      corrected `CleanMode` agree, name for mode. */
  lemma CleanModeAgreesOffObjects(mode: JsValue, disabled: JsValue)
    requires !mode.Obj?
    ensures CleanModeAsWritten(mode, disabled) == Str(ModeName(CleanMode(mode, disabled)))
  {
  }

  /** The page's configuration as the content script receives it. */
  datatype Config = Config(mode: Mode, pip: bool)

  /** The synced store: stored values by key. */
  type Store = map<string, JsValue>

  /** A destructured read of one key from the store's reply. */
  function Lookup(store: Store, key: string): JsValue
  {
    if key in store then store[key] else Undefined
  }

  function ModeKey(host: string): string
  {
    "mode(" + host + ")"
  }

  function PipKey(host: string): string
  {
    "pip(" + host + ")"
  }

  /** The three keys of one host never collide, and each derived key names its
      host uniquely. */
  lemma {:induction false} StorageKeysDistinct(host: string, other: string)
    ensures ModeKey(host) != host && PipKey(host) != host
    ensures ModeKey(host) != PipKey(other)
    ensures ModeKey(host) == ModeKey(other) ==> host == other
    ensures PipKey(host) == PipKey(other) ==> host == other
  {
    assert ModeKey(host)[0] == 'm' && PipKey(other)[0] == 'p';
    if ModeKey(host) == ModeKey(other) {
      assert host == ModeKey(host)[5..|ModeKey(host)| - 1];
      assert other == ModeKey(other)[5..|ModeKey(other)| - 1];
    }
    if PipKey(host) == PipKey(other) {
      assert host == PipKey(host)[4..|PipKey(host)| - 1];
      assert other == PipKey(other)[4..|PipKey(other)| - 1];
    }
  }

  /** The pure part of `get_host_config`: the host string of the tab's URL, and
      the store's values. The mode comes from key `mode(<host>)` with the legacy
      "disabled" flag under the bare host; picture-in-picture is on only when
      `pip(<host>)` holds exactly `true`. */
  function HostConfigOf(store: Store, host: string): (r: Config)
    ensures r.pip <==> PipKey(host) in store && store[PipKey(host)] == Bool(true)
    ensures ModeKey(host) in store && store[ModeKey(host)].Str? && store[ModeKey(host)].s in DirectModes ==>
              ModeName(r.mode) == store[ModeKey(host)].s
    ensures !(ModeKey(host) in store && store[ModeKey(host)].Str? && store[ModeKey(host)].s in DirectModes) ==>
              (r.mode == Fullscreen <==> host in store && store[host] == Bool(true)) && r.mode != Windowed && r.mode != InWindow
  {
    Config(CleanMode(Lookup(store, ModeKey(host)), Lookup(store, host)),
           Lookup(store, PipKey(host)) == Bool(true))
  }

  /** The configuration depends on the host's three keys and on nothing else
      in the store. */
  lemma HostConfigReadsOnlyItsKeys(s1: Store, s2: Store, host: string)
    requires forall k :: k in {host, ModeKey(host), PipKey(host)} ==> Lookup(s1, k) == Lookup(s2, k)
    ensures HostConfigOf(s1, host) == HostConfigOf(s2, host)
  {
    assert Lookup(s1, host) == Lookup(s2, host);
    assert Lookup(s1, ModeKey(host)) == Lookup(s2, ModeKey(host));
    assert Lookup(s1, PipKey(host)) == Lookup(s2, PipKey(host));
  }
}
