/** content.js's settings: the configuration object, merged with the keys
    an update carries, and the tab and toast loops it switches on and off.

    A loop is the handle of its repeating timer, `None` when it is not
    running. Handles are numbered from 1 (the browser never hands out 0,
    so a running loop's handle is truthy), and `running` is the set of
    timers the browser has not cleared. */
module Settings {
  import opened Js

  /** The configuration object, less `asmVolume`, which only feeds audio. */
  datatype Config = Config(
    tabLooper: bool,
    toastLooper: bool,
    tabLimit: int,
    asmDelay: Num,
    fontSize: int,
    widgetWidth: int)

  const Defaults := Config(false, false, 10, Int(3), 14, 160)

  /** The keys an update carries; an absent key is `None`. */
  datatype Patch = Patch(
    tabLooper: Option<bool>,
    toastLooper: Option<bool>,
    tabLimit: Option<int>,
    asmDelay: Option<Num>,
    fontSize: Option<int>,
    widgetWidth: Option<int>)

  /** The update with no keys (`stored || {}` when nothing is stored). */
  const NoKeys: Patch := Patch(None, None, None, None, None, None)

  function Pick<T>(key: Option<T>, current: T): T {
    if key.Some? then key.value else current
  }

  /** `{ ...cfg, ...newCfg }`: every key the update has replaces the
      current value, every other key keeps it. */
  function Merge(cfg: Config, p: Patch): (r: Config)
    ensures p.tabLooper.Some? ==> r.tabLooper == p.tabLooper.value
    ensures p.toastLooper.Some? ==> r.toastLooper == p.toastLooper.value
    ensures p.tabLimit.Some? ==> r.tabLimit == p.tabLimit.value
    ensures p.asmDelay.Some? ==> r.asmDelay == p.asmDelay.value
    ensures p.fontSize.Some? ==> r.fontSize == p.fontSize.value
    ensures p.widgetWidth.Some? ==> r.widgetWidth == p.widgetWidth.value
    ensures p.tabLooper.None? ==> r.tabLooper == cfg.tabLooper
    ensures p.toastLooper.None? ==> r.toastLooper == cfg.toastLooper
    ensures p.tabLimit.None? ==> r.tabLimit == cfg.tabLimit
    ensures p.asmDelay.None? ==> r.asmDelay == cfg.asmDelay
    ensures p.fontSize.None? ==> r.fontSize == cfg.fontSize
    ensures p.widgetWidth.None? ==> r.widgetWidth == cfg.widgetWidth
  {
    Config(
      Pick(p.tabLooper, cfg.tabLooper),
      Pick(p.toastLooper, cfg.toastLooper),
      Pick(p.tabLimit, cfg.tabLimit),
      Pick(p.asmDelay, cfg.asmDelay),
      Pick(p.fontSize, cfg.fontSize),
      Pick(p.widgetWidth, cfg.widgetWidth))
  }

  /** The keys of `p`, overridden by those of `q`: the spread of both. */
  function Then(p: Patch, q: Patch): Patch {
    Patch(
      if q.tabLooper.Some? then q.tabLooper else p.tabLooper,
      if q.toastLooper.Some? then q.toastLooper else p.toastLooper,
      if q.tabLimit.Some? then q.tabLimit else p.tabLimit,
      if q.asmDelay.Some? then q.asmDelay else p.asmDelay,
      if q.fontSize.Some? then q.fontSize else p.fontSize,
      if q.widgetWidth.Some? then q.widgetWidth else p.widgetWidth)
  }

  /** An update with no keys changes nothing, the same update twice is the
      update once, and two updates in a row are their combined update. */
  lemma MergeLaws(cfg: Config, p: Patch, q: Patch)
    ensures Merge(cfg, NoKeys) == cfg
    ensures Merge(Merge(cfg, p), p) == Merge(cfg, p)
    ensures Merge(Merge(cfg, p), q) == Merge(cfg, Then(p, q))
  {
  }

  // ---------------------------------------------------------------------
  // Loops

  datatype Loops = Loops(tab: Option<nat>, toast: Option<nat>, nextTimer: nat, running: set<nat>)

  datatype State = State(cfg: Config, loops: Loops)

  /** Before the stored settings arrive: defaults, no loop running. */
  const Initial := State(Defaults, Loops(None, None, 1, {}))

  function Handles(h: Option<nat>): set<nat> {
    if h.Some? then {h.value} else {}
  }

  /** The timers running are exactly the loops' handles, two loops never
      share a timer, and every handle was handed out before. */
  predicate Wf(l: Loops) {
    && l.running == Handles(l.tab) + Handles(l.toast)
    && (l.tab.Some? && l.toast.Some? ==> l.tab.value != l.toast.value)
    && l.nextTimer >= 1
    && (forall h :: h in l.running ==> 1 <= h < l.nextTimer)
  }

  /** `startTabLoop`: a no-op while the loop runs, otherwise a new timer. */
  function StartTab(l: Loops): (r: Loops)
    requires Wf(l)
    ensures Wf(r) && r.tab.Some? && r.toast == l.toast
    ensures l.tab.Some? ==> r == l
    ensures l.tab.None? ==> r.running == l.running + {r.tab.value} && r.tab.value !in l.running
  {
    if l.tab.Some? then l
    else Loops(Some(l.nextTimer), l.toast, l.nextTimer + 1, l.running + {l.nextTimer})
  }

  /** `stopTabLoop`: clear the timer, forget the handle. */
  function StopTab(l: Loops): (r: Loops)
    requires Wf(l)
    ensures Wf(r) && r.tab.None? && r.toast == l.toast
    ensures r.running == l.running - Handles(l.tab)
  {
    Loops(None, l.toast, l.nextTimer, l.running - Handles(l.tab))
  }

  function StartToast(l: Loops): (r: Loops)
    requires Wf(l)
    ensures Wf(r) && r.toast.Some? && r.tab == l.tab
    ensures l.toast.Some? ==> r == l
    ensures l.toast.None? ==> r.running == l.running + {r.toast.value} && r.toast.value !in l.running
  {
    if l.toast.Some? then l
    else Loops(l.tab, Some(l.nextTimer), l.nextTimer + 1, l.running + {l.nextTimer})
  }

  function StopToast(l: Loops): (r: Loops)
    requires Wf(l)
    ensures Wf(r) && r.toast.None? && r.tab == l.tab
    ensures r.running == l.running - Handles(l.toast)
  {
    Loops(l.tab, None, l.nextTimer, l.running - Handles(l.toast))
  }

  /** `applySettings`: merge the update, then start or stop each loop so
      that it runs exactly when its flag is set. A loop already in the
      right state keeps its timer. */
  function Apply(s: State, p: Patch): (r: State)
    requires Wf(s.loops)
    ensures r.cfg == Merge(s.cfg, p) && Wf(r.loops)
  {
    var cfg := Merge(s.cfg, p);
    var l1 := if cfg.tabLooper && s.loops.tab.None? then StartTab(s.loops) else s.loops;
    var l2 := if !cfg.tabLooper && l1.tab.Some? then StopTab(l1) else l1;
    var l3 := if cfg.toastLooper && l2.toast.None? then StartToast(l2) else l2;
    var l4 := if !cfg.toastLooper && l3.toast.Some? then StopToast(l3) else l3;
    State(cfg, l4)
  }

  /** After an update each loop runs exactly when its flag says so; a loop
      that was running and stays on keeps the same timer, so no second
      timer is ever started for it. */
  lemma ApplyReconciles(s: State, p: Patch)
    requires Wf(s.loops)
    ensures var r := Apply(s, p);
            && (r.loops.tab.Some? <==> r.cfg.tabLooper)
            && (r.loops.toast.Some? <==> r.cfg.toastLooper)
            && (r.cfg.tabLooper && s.loops.tab.Some? ==> r.loops.tab == s.loops.tab)
            && (r.cfg.toastLooper && s.loops.toast.Some? ==> r.loops.toast == s.loops.toast)
            && |r.loops.running| <= 2
  {
    var r := Apply(s, p);
    assert |Handles(r.loops.tab)| <= 1 && |Handles(r.loops.toast)| <= 1;
  }

  /** Applying the same update twice is applying it once. */
  lemma ApplyIdempotent(s: State, p: Patch)
    requires Wf(s.loops)
    ensures Apply(Apply(s, p), p) == Apply(s, p)
  {
    ApplyReconciles(s, p);
  }

  /** The bootstrap: apply the stored settings, then start each loop whose
      flag is set. The second step never changes anything. */
  function Bootstrap(stored: Patch): (r: State)
    ensures r == Apply(Initial, stored)
  {
    var s := Apply(Initial, stored);
    var l1 := if s.cfg.tabLooper then StartTab(s.loops) else s.loops;
    var l2 := if s.cfg.toastLooper then StartToast(l1) else l1;
    State(s.cfg, l2)
  }

  /** The panel's Start/Stop Tab Loop button: it flips the loop without
      touching the flag. */
  function ToggleTab(s: State): (r: State)
    requires Wf(s.loops)
    ensures r.cfg == s.cfg && Wf(r.loops)
    ensures r.loops.tab.Some? <==> s.loops.tab.None?
  {
    State(s.cfg, if s.loops.tab.Some? then StopTab(s.loops) else StartTab(s.loops))
  }

  /** Because the button leaves the flag alone, the next update, even one
      with no keys, undoes a toggle. */
  lemma ToggleUndoneByApply(s: State, p: Patch)
    requires Wf(s.loops) && p.tabLooper.None?
    requires s.loops.tab.Some? <==> s.cfg.tabLooper
    ensures var r := Apply(ToggleTab(s), p);
            r.loops.tab.Some? <==> s.loops.tab.Some?
  {
    ApplyReconciles(ToggleTab(s), p);
  }

  /** The reset message stops both loops and leaves the configuration as it
      is; the next update restarts whatever the flags ask for. */
  function Reset(s: State): (r: State)
    requires Wf(s.loops)
    ensures r.cfg == s.cfg && r.loops.tab.None? && r.loops.toast.None? && r.loops.running == {}
  {
    State(s.cfg, StopToast(StopTab(s.loops)))
  }

  lemma ResetThenApply(s: State)
    requires Wf(s.loops)
    ensures var r := Apply(Reset(s), NoKeys);
            (r.loops.tab.Some? <==> s.cfg.tabLooper) && (r.loops.toast.Some? <==> s.cfg.toastLooper)
  {
    ApplyReconciles(Reset(s), NoKeys);
  }
}
