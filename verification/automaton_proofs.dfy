/** Properties of the call-automation loop over sequences of events. */
module AutomatonProofs {
  import opened Js
  import opened Variants
  import opened Trigger
  import opened Clicks
  import opened Automaton
  import Delay

  // ---------------------------------------------------------------------
  // Event and effect sequences

  /** `n` firings of the countdown interval, on an unchanging page. */
  function Ticks(n: nat, page: Page): seq<Event> {
    seq(n, i => Tick(page))
  }

  /** One resumption of the sequence per page. */
  function Resumes(pages: seq<Page>): seq<Event> {
    seq(|pages|, i requires 0 <= i < |pages| => Resume(pages[i]))
  }

  function Repeat(e: Effect, n: nat): (r: seq<Effect>)
    ensures |r| == n && forall i :: 0 <= i < n ==> r[i] == e
  {
    seq(n, i => e)
  }

  /** Events that neither start the loop nor press the next-call button. */
  predicate Quiet(e: Event) {
    e.Poll? || e.Tick? || e.Resume? || e.DelayInput?
  }

  /** A page on which no click raises. */
  predicate NoRaise(page: Page) {
    forall t :: page(t) != Raises
  }

  lemma ResumesCons(pages: seq<Page>)
    requires |pages| > 0
    ensures Resumes(pages)[0] == Resume(pages[0])
    ensures Resumes(pages)[1..] == Resumes(pages[1..])
  {
  }

  // ---------------------------------------------------------------------
  // Reachable states

  /** Every event keeps the machine in the states the panel can reach. */
  lemma StepPreservesWf(v: Variant, m: Machine, e: Event)
    requires Wf(m)
    ensures Wf(Step(v, m, e).m)
  {
    match e
    case Tick(page) => TickPreservesWf(v, m, page);
    case Press(page) => if !m.Busy() { PressPreservesWf(v, m, page); }
    case Resume(page) => ResumePreservesWf(v, m, page);
    case _ =>
  }

  lemma TickPreservesWf(v: Variant, m: Machine, page: Page)
    requires Wf(m)
    ensures Wf(CountdownTick(v, m, page).m)
  {
    if m.countdown.Some? && AtMost(m.countdown.value, 0) {
      PressPreservesWf(v, m.(countdown := None), page);
    }
  }

  lemma PressPreservesWf(v: Variant, m: Machine, page: Page)
    requires Wf(m)
    ensures Wf(NextCall(v, m, page).m)
  {
    var m1 := m.(countdown := None);
    if !m1.Busy() && NaturalClick(v, page(EndInteraction)) == Clicked {
      assert NextCall(v, m, page).m == AfterEnd(v, m1, page).m;
    }
  }

  lemma ResumePreservesWf(v: Variant, m: Machine, page: Page)
    requires Wf(m)
    ensures Wf(ResumeSequence(v, m, page).m)
  {
    match m.sequence {
      case NotRunning =>
      case EndRetry(k) =>
      case Cancelling(k) =>
    }
  }

  lemma {:induction false} RunPreservesWf(v: Variant, m: Machine, es: seq<Event>)
    requires Wf(m)
    ensures Wf(Run(v, m, es).m)
    decreases |es|
  {
    if |es| > 0 {
      StepPreservesWf(v, m, es[0]);
      RunPreservesWf(v, Step(v, m, es[0]).m, es[1..]);
    }
  }

  lemma InitIsWf()
    ensures Wf(Init)
  {
  }

  // ---------------------------------------------------------------------
  // start and stop

  /** In main.js a second `startLoop` changes nothing. */
  lemma WrapUpStartIdempotent(m: Machine)
    ensures StartLoop(WrapUp, StartLoop(WrapUp, m)) == StartLoop(WrapUp, m)
  {
  }

  /** content.js has no such guard: starting twice and stopping once leaves
      a poll interval running, and it can still start a countdown. */
  lemma BaseStartTwiceLeaksPoll(snap: Snapshot)
    requires ShouldCountdown(Base, Observe(snap), false, true)
    ensures var m := StopLoop(StartLoop(Base, StartLoop(Base, Init)));
            && !m.active && m.strayPolls == 1
            && Step(Base, m, Poll(snap)).m.countdown.Some?
  {
  }

  /** Driven through its button, content.js never leaks a poll interval:
      every state reached from the initial one has none. */
  lemma {:induction false} ButtonNeverLeaks(v: Variant, es: seq<Event>)
    ensures Run(v, Init, es).m.strayPolls == 0
  {
    RunPreservesWf(v, Init, es);
  }

  /** After a stop, no event that does not restart the loop or press the
      button can make the countdown click next-call. */
  lemma {:induction false} SilentWhileStopped(v: Variant, m: Machine, es: seq<Event>)
    requires !m.active && !m.Polling() && m.countdown.None?
    requires forall i :: 0 <= i < |es| ==> Quiet(es[i])
    ensures Fire !in Run(v, m, es).effects
    ensures !Run(v, m, es).m.active && !Run(v, m, es).m.Polling() && Run(v, m, es).m.countdown.None?
    decreases |es|
  {
    if |es| > 0 {
      var o := Step(v, m, es[0]);
      assert !o.m.active && !o.m.Polling() && o.m.countdown.None?;
      assert Fire !in o.effects;
      SilentWhileStopped(v, o.m, es[1..]);
    }
  }

  /** Hovering the panel stops the loop for good: whatever quiet events
      follow, the next-call button is never clicked by a countdown. */
  lemma {:induction false} HoverSilences(v: Variant, m: Machine, es: seq<Event>)
    requires Wf(m)
    requires forall i :: 0 <= i < |es| ==> Quiet(es[i])
    ensures var o := Run(v, m, [Hover] + es);
            Fire !in o.effects && !o.m.active && o.m.countdown.None?
  {
    var m1 := StopLoop(m);
    assert ([Hover] + es)[0] == Hover && ([Hover] + es)[1..] == es;
    SilentWhileStopped(v, m1, es);
    var r := Run(v, m1, es);
    assert Run(v, m, [Hover] + es) == Out(r.m, [] + r.effects);
  }

  // ---------------------------------------------------------------------
  // the countdown

  /** While `seconds` stays above 0, each tick gives the mid cue and counts
      down by one. */
  lemma {:induction false} CountdownPending(v: Variant, m: Machine, d: int, k: nat, page: Page)
    requires m.countdown == Some(Int(d)) && (k == 0 || k <= d)
    ensures Run(v, m, Ticks(k, page)) == Out(m.(countdown := Some(Int(d - k))), Repeat(Beep(Mid), k))
    decreases k
  {
    if k > 0 {
      var m1 := m.(countdown := Some(Int(d - 1)));
      assert Ticks(k, page)[0] == Tick(page);
      assert Ticks(k, page)[1..] == Ticks(k - 1, page);
      CountdownPending(v, m1, d - 1, k - 1, page);
      assert [Beep(Mid)] + Repeat(Beep(Mid), k - 1) == Repeat(Beep(Mid), k);
    }
  }

  /** A countdown of `d` seconds gives the mid cue on its first `d` ticks
      (none when `d` is 0 or negative), and on the next one gives the final
      cue, clears itself and clicks next-call exactly once. */
  lemma {:induction false} CountdownFiresOnce(v: Variant, m: Machine, d: int, page: Page)
    requires m.countdown == Some(Int(d))
    ensures var n := if d < 0 then 0 else d;
            var o := Run(v, m, Ticks(n + 1, page));
            && o.m.countdown.None? && SameLoop(o.m, m)
            && |o.effects| >= n + 2
            && (forall i :: 0 <= i < n ==> o.effects[i] == Beep(Mid))
            && o.effects[n] == Beep(Final)
            && o.effects[n + 1] == Fire
            && (forall i :: 0 <= i < |o.effects| && i != n + 1 ==> o.effects[i] != Fire)
  {
    var n := if d < 0 then 0 else d;
    var m1 := m.(countdown := Some(Int(d - n)));
    RunTicks(v, m, n + 1, page);
    TicksThen(v, m, d, n, 1, page);
    var last := CountdownTick(v, m1, page);
    assert TickRun(v, m1, 1, page) == last by {
      assert TickRun(v, last.m, 0, page) == Out(last.m, []);
      assert last.effects + [] == last.effects;
    }
    assert AtMost(m1.countdown.value, 0);
    FiringEffects(n, last.effects);
  }

  /** `n` firings of the countdown interval, tick by tick. */
  function TickRun(v: Variant, m: Machine, n: nat, page: Page): Out
    decreases n
  {
    if n == 0 then Out(m, [])
    else
      var o := CountdownTick(v, m, page);
      var r := TickRun(v, o.m, n - 1, page);
      Out(r.m, o.effects + r.effects)
  }

  lemma {:induction false} RunTicks(v: Variant, m: Machine, n: nat, page: Page)
    ensures Run(v, m, Ticks(n, page)) == TickRun(v, m, n, page)
    decreases n
  {
    if n > 0 {
      var ts := Ticks(n, page);
      assert ts[0] == Tick(page) && ts[1..] == Ticks(n - 1, page);
      var o := CountdownTick(v, m, page);
      assert Step(v, m, Tick(page)) == o;
      RunTicks(v, o.m, n - 1, page);
    }
  }

  /** A tick while `seconds` is above 0 gives the mid cue and counts down. */
  lemma MidTick(v: Variant, m: Machine, n: nat, page: Page)
    requires n > 0 && m.countdown.Some? && m.countdown.value.Int? && m.countdown.value.v > 0
    ensures var r := TickRun(v, m.(countdown := Some(Dec(m.countdown.value))), n - 1, page);
            TickRun(v, m, n, page) == Out(r.m, [Beep(Mid)] + r.effects)
  {
    assert CountdownTick(v, m, page) == Out(m.(countdown := Some(Dec(m.countdown.value))), [Beep(Mid)]);
  }

  /** The first `k` ticks of a countdown of `d >= k` seconds give the mid cue
      each and count down by `k`; the ticks after them run from there. */
  lemma {:induction false} TicksThen(v: Variant, m: Machine, d: int, k: nat, j: nat, page: Page)
    requires m.countdown == Some(Int(d)) && (k == 0 || k <= d)
    ensures var r := TickRun(v, m.(countdown := Some(Int(d - k))), j, page);
            TickRun(v, m, k + j, page) == Out(r.m, Repeat(Beep(Mid), k) + r.effects)
    decreases k
  {
    var r := TickRun(v, m.(countdown := Some(Int(d - k))), j, page);
    if k > 0 {
      var m1 := m.(countdown := Some(Int(d - 1)));
      var r1 := TickRun(v, m1, k - 1 + j, page);
      assert TickRun(v, m, k + j, page) == Out(r1.m, [Beep(Mid)] + r1.effects) by {
        MidTick(v, m, k + j, page);
      }
      assert r1 == Out(r.m, Repeat(Beep(Mid), k - 1) + r.effects) by {
        TicksThen(v, m1, d - 1, k - 1, j, page);
        assert m1.(countdown := Some(Int(d - 1 - (k - 1)))) == m.(countdown := Some(Int(d - k)));
      }
      OneMoreMid(TickRun(v, m, k + j, page), r1, r, k);
    } else {
      assert m.(countdown := Some(Int(d - k))) == m;
      assert Repeat(Beep(Mid), k) + r.effects == r.effects;
    }
  }

  lemma OneMoreMid(t: Out, r1: Out, r: Out, k: nat)
    requires k > 0 && t == Out(r1.m, [Beep(Mid)] + r1.effects)
    requires r1 == Out(r.m, Repeat(Beep(Mid), k - 1) + r.effects)
    ensures t == Out(r.m, Repeat(Beep(Mid), k) + r.effects)
  {
    RepeatCons(Beep(Mid), k);
    assert [Beep(Mid)] + (Repeat(Beep(Mid), k - 1) + r.effects)
        == ([Beep(Mid)] + Repeat(Beep(Mid), k - 1)) + r.effects;
  }

  /** Mid cues followed by a firing tick's effects hold one `Fire`, right
      after the final cue. */
  lemma FiringEffects(n: nat, last: seq<Effect>)
    requires |last| >= 2 && last[0] == Beep(Final) && last[1] == Fire && OnlyClicks(last[2..])
    ensures var es := Repeat(Beep(Mid), n) + last;
            && |es| >= n + 2
            && (forall i :: 0 <= i < n ==> es[i] == Beep(Mid))
            && es[n] == Beep(Final) && es[n + 1] == Fire
            && (forall i :: 0 <= i < |es| && i != n + 1 ==> es[i] != Fire)
  {
    var es := Repeat(Beep(Mid), n) + last;
    forall i | 0 <= i < |es| && i != n + 1
      ensures es[i] != Fire
    {
      if i > n + 1 {
        assert es[i] == last[2..][i - n - 2];
      }
    }
  }

  /** A countdown whose `seconds` is NaN never fires: every tick gives the
      mid cue and nothing else changes. */
  lemma {:induction false} NaNCountdownNeverFires(v: Variant, m: Machine, n: nat, page: Page)
    requires m.countdown == Some(NaN)
    ensures Run(v, m, Ticks(n, page)) == Out(m, Repeat(Beep(Mid), n))
    decreases n
  {
    if n > 0 {
      assert Ticks(n, page)[1..] == Ticks(n - 1, page);
      NaNCountdownNeverFires(v, m, n - 1, page);
      assert [Beep(Mid)] + Repeat(Beep(Mid), n - 1) == Repeat(Beep(Mid), n);
    }
  }

  /** A poll tick while a countdown is pending changes nothing. */
  lemma PollDuringCountdown(v: Variant, m: Machine, snap: Snapshot)
    requires m.countdown.Some?
    ensures Step(v, m, Poll(snap)) == Out(m, [])
  {
  }

  /** From a reachable state, a poll tick on which the trigger holds starts
      a countdown that clicks next-call exactly once, after the configured
      delay (or at once for an Agent Call in Wrap Up). */
  lemma TriggerFiresOnce(v: Variant, m: Machine, snap: Snapshot, page: Page)
    requires Wf(m) && m.active
    requires ShouldCountdown(v, Observe(snap), m.countdown.Some?, m.ready)
    ensures var m1 := Step(v, m, Poll(snap)).m;
            var d := CountdownLength(v, Observe(snap), m.delay).v;
            var n := if d < 0 then 0 else d;
            var o := Run(v, m1, Ticks(n + 1, page));
            && m1.countdown == Some(Int(d))
            && |o.effects| >= n + 2 && o.effects[n + 1] == Fire
            && (forall i :: 0 <= i < |o.effects| && i != n + 1 ==> o.effects[i] != Fire)
  {
    var m1 := Step(v, m, Poll(snap)).m;
    CountdownFiresOnce(v, m1, CountdownLength(v, Observe(snap), m.delay).v, page);
  }

  // ---------------------------------------------------------------------
  // the delay input

  /** With the delay rule as content.js writes it, typing ".5" and then
      meeting the trigger starts a countdown that never fires, and the
      pending countdown keeps every later poll from starting another. */
  lemma AsWrittenDelayWedgesLoop(m: Machine, snap: Snapshot, n: nat, page: Page)
    requires m.delay == Delay.BaseAsWritten(".5")
    requires m.Polling() && ShouldCountdown(Base, Observe(snap), m.countdown.Some?, m.ready)
    ensures var m1 := Step(Base, m, Poll(snap)).m;
            && m1.countdown == Some(NaN)
            && Run(Base, m1, Ticks(n, page)) == Out(m1, Repeat(Beep(Mid), n))
            && forall s :: Step(Base, m1, Poll(s)) == Out(m1, [])
  {
    Delay.BaseAsWrittenStoresNaN();
    NaNCountdownNeverFires(Base, Step(Base, m, Poll(snap)).m, n, page);
  }

  /** Without a typed delay the as-written program and the corrected one
      take the same steps. */
  lemma {:induction false} RunAsWrittenAgrees(m: Machine, es: seq<Event>)
    requires forall i :: 0 <= i < |es| ==> !es[i].DelayInput?
    ensures RunAsWritten(m, es) == Run(Base, m, es)
    decreases |es|
  {
    if |es| > 0 {
      RunAsWrittenAgrees(Step(Base, m, es[0]).m, es[1..]);
    }
  }

  /** The wedge is reachable from the state the panel starts in: start the
      loop, type ".5", and let a call trigger. The machine then leaves the
      well-formed states, its countdown never fires and no later poll does
      anything. */
  lemma AsWrittenWedgeReachable(snap: Snapshot, n: nat, page: Page)
    requires ShouldCountdown(Base, Observe(snap), false, true)
    ensures var m := RunAsWritten(Init, [LoopButton, DelayInput(".5"), Poll(snap)]).m;
            && m.countdown == Some(NaN) && !Wf(m)
            && RunAsWritten(m, Ticks(n, page)) == Out(m, Repeat(Beep(Mid), n))
            && forall s :: StepAsWritten(m, Poll(s)) == Out(m, [])
  {
    var m1 := StartLoop(Base, Init);
    var m2 := m1.(delay := Delay.BaseAsWritten(".5"));
    var es := [LoopButton, DelayInput(".5"), Poll(snap)];
    assert es[1..] == [DelayInput(".5"), Poll(snap)] && es[1..][1..] == [Poll(snap)];
    assert [Poll(snap)][1..] == [];
    AsWrittenDelayWedgesLoop(m2, snap, n, page);
    var m3 := Step(Base, m2, Poll(snap)).m;
    assert StepAsWritten(Init, LoopButton).m == m1;
    assert StepAsWritten(m1, DelayInput(".5")).m == m2;
    assert StepAsWritten(m2, Poll(snap)).m == m3;
    assert RunAsWritten(m3, []).m == m3;
    assert RunAsWritten(m2, [Poll(snap)]).m == m3;
    assert RunAsWritten(m1, es[1..]).m == m3;
    assert RunAsWritten(Init, es).m == m3;
    RunAsWrittenAgrees(m3, Ticks(n, page));
  }

  /** With the corrected rule, whatever is typed, the next countdown clicks
      next-call exactly once, after as many mid cues as the stored delay. */
  lemma TypedDelayFires(m: Machine, text: string, snap: Snapshot, page: Page)
    requires Wf(m) && m.active
    requires ShouldCountdown(Base, Observe(snap), m.countdown.Some?, m.ready)
    ensures var m1 := Step(Base, m, DelayInput(text)).m;
            var m2 := Step(Base, m1, Poll(snap)).m;
            && m1.delay.Int? && m1.delay.v >= 0
            && m2.countdown == Some(m1.delay)
            && var d: nat := m1.delay.v;
               var o := Run(Base, m2, Ticks(d + 1, page));
               && |o.effects| >= d + 2
               && (forall i :: 0 <= i < d ==> o.effects[i] == Beep(Mid))
               && o.effects[d + 1] == Fire
               && (forall i :: 0 <= i < |o.effects| && i != d + 1 ==> o.effects[i] != Fire)
  {
    var m1 := Step(Base, m, DelayInput(text)).m;
    assert m1 == m.(delay := m1.delay);
    assert m1.Polling() && ShouldCountdown(Base, Observe(snap), m1.countdown.Some?, m1.ready);
    var m2 := m1.(countdown := Some(m1.delay));
    assert Step(Base, m1, Poll(snap)).m == m2;
    CountdownFiresOnce(Base, m2, m1.delay.v, page);
  }

  // ---------------------------------------------------------------------
  // the next-call sequence

  /** How many more resumptions the sequence can need at most. */
  function Remaining(s: Sequence): nat {
    match s
    case NotRunning => 0
    case EndRetry(k) => if k <= EndTries then EndTries - k + 1 + CancelClicks else 1 + CancelClicks
    case Cancelling(k) => if k <= CancelClicks then CancelClicks - k + 1 else 1
  }

  lemma ResumeProgresses(v: Variant, m: Machine, page: Page)
    requires m.Busy()
    ensures Remaining(ResumeSequence(v, m, page).m.sequence) < Remaining(m.sequence)
  {
  }

  /** The sequence resumed once per page, with the effects concatenated:
      `Run` over `Resumes(pages)` without the other kinds of event. */
  function Resumed(v: Variant, m: Machine, pages: seq<Page>): Out
    decreases |pages|
  {
    if |pages| == 0 then Out(m, [])
    else
      var o := ResumeSequence(v, m, pages[0]);
      var r := Resumed(v, o.m, pages[1..]);
      Out(r.m, o.effects + r.effects)
  }

  lemma {:induction false} RunResumes(v: Variant, m: Machine, pages: seq<Page>)
    ensures Run(v, m, Resumes(pages)) == Resumed(v, m, pages)
    decreases |pages|
  {
    if |pages| > 0 {
      ResumesCons(pages);
      RunResumes(v, ResumeSequence(v, m, pages[0]).m, pages[1..]);
    }
  }

  /** A press followed by resumptions. */
  lemma PressThenResumes(v: Variant, m: Machine, page: Page, pages: seq<Page>)
    requires !m.Busy()
    ensures Run(v, m, [Press(page)] + Resumes(pages)) ==
              var o := NextCall(v, m, page);
              var r := Resumed(v, o.m, pages);
              Out(r.m, o.effects + r.effects)
  {
    var es := [Press(page)] + Resumes(pages);
    assert es[0] == Press(page) && es[1..] == Resumes(pages);
    RunResumes(v, NextCall(v, m, page).m, pages);
  }

  lemma {:induction false} ResumedTerminates(v: Variant, m: Machine, pages: seq<Page>)
    requires |pages| >= Remaining(m.sequence)
    ensures !Resumed(v, m, pages).m.Busy()
    decreases |pages|
  {
    if |pages| > 0 {
      var o := ResumeSequence(v, m, pages[0]);
      if m.Busy() {
        ResumeProgresses(v, m, pages[0]);
      }
      ResumedTerminates(v, o.m, pages[1..]);
    }
  }

  /** The button is always enabled again: a running sequence ends within
      `Remaining` resumptions, whatever the page does. */
  lemma SequenceTerminates(v: Variant, m: Machine, pages: seq<Page>)
    requires |pages| >= Remaining(m.sequence)
    ensures !Run(v, m, Resumes(pages)).m.Busy()
  {
    RunResumes(v, m, pages);
    ResumedTerminates(v, m, pages);
  }

  /** A press on an enabled button is followed by at most 20 resumptions. */
  lemma PressEndsWithin20(v: Variant, m: Machine, page: Page, pages: seq<Page>)
    requires !m.Busy() && |pages| >= EndTries - 1 + 1 + CancelClicks
    ensures !Run(v, m, [Press(page)] + Resumes(pages)).m.Busy()
  {
    PressThenResumes(v, m, page, pages);
    var o := NextCall(v, m, page);
    assert Remaining(o.m.sequence) <= EndTries - 1 + 1 + CancelClicks;
    ResumedTerminates(v, o.m, pages);
  }

  /** The cancel-renew phase, undisturbed by exceptions: one click per
      resumption up to 15 in all, then `readyForNextCountdown` is set and
      the button enabled. */
  lemma {:induction false} CancelPhase(v: Variant, m: Machine, k: nat, pages: seq<Page>)
    requires m.sequence == Cancelling(k) && 1 <= k <= CancelClicks
    requires forall i :: 0 <= i < |pages| ==> NoRaise(pages[i])
    requires |pages| == CancelClicks - k + 1
    ensures Resumed(v, m, pages) ==
              Out(m.(ready := true, sequence := NotRunning), Repeat(Click(CancelRenew), CancelClicks - k))
    decreases CancelClicks - k
  {
    assert pages[0](CancelRenew) != Raises;
    var o := ResumeSequence(v, m, pages[0]);
    if k < CancelClicks {
      assert o.m == m.(sequence := Cancelling(k + 1));
      CancelPhase(v, o.m, k + 1, pages[1..]);
      RepeatCons(Click(CancelRenew), CancelClicks - k);
    }
  }

  /** What end-interaction attempt `i` finds: the page of the i-th step of
      the run (the press is step 0). */
  function EndFound(pages: seq<Page>, i: nat): Probe {
    if i < |pages| then pages[i](EndInteraction) else Missing
  }

  function EndProbe(pages: seq<Page>): nat -> Probe {
    (i: nat) => EndFound(pages, i)
  }

  /** The step, from attempt `k` on, at which the retry gives way to the
      rest of the sequence: the first attempt that clicks, or the
      resumption after the last await. */
  function EndStep(v: Variant, pages: seq<Page>, k: nat): (s: nat)
    requires k <= EndTries
    ensures k <= s <= EndTries
    decreases EndTries - k
  {
    if k == EndTries then EndTries
    else if NaturalClick(v, EndFound(pages, k)) == Clicked then k
    else EndStep(v, pages, k + 1)
  }

  /** How many end-interaction attempts are made in all. */
  function EndAttempts(v: Variant, pages: seq<Page>, k: nat): nat
    requires k <= EndTries
  {
    var s := EndStep(v, pages, k);
    if s < EndTries then s + 1 else EndTries
  }

  /** `EndStep` agrees with the retry loop: the loop clicks exactly when
      some attempt before the last clicks, and makes `EndAttempts`
      attempts. */
  lemma {:induction false} EndStepIsRetry(v: Variant, pages: seq<Page>, k: nat)
    requires k <= EndTries
    requires forall i :: 0 <= i < |pages| ==> NoRaise(pages[i])
    ensures var r := RetryFrom(v, EndProbe(pages), EndTries, k);
            && r.attempts == EndAttempts(v, pages, k)
            && (r.outcome == Clicked <==> EndStep(v, pages, k) < EndTries)
    decreases EndTries - k
  {
    if k < EndTries {
      var probe := EndProbe(pages);
      var c := NaturalClick(v, EndFound(pages, k));
      assert probe(k) == EndFound(pages, k);
      assert c != Raised by {
        if k < |pages| {
          assert NoRaise(pages[k]);
        }
      }
      RetryStep(v, probe, EndTries, k);
      if c != Clicked {
        EndStepIsRetry(v, pages, k + 1);
      }
    }
  }

  /** The clicks of an undisturbed sequence after end-interaction. */
  function Closing(): seq<Effect> {
    [Click(Disposition), Click(SubmitDisposition)] + Repeat(Click(CancelRenew), CancelClicks)
  }

  /** Disposition, submit and the whole cancel-renew phase, on pages where
      no click raises. */
  lemma AfterEndCompletes(v: Variant, m: Machine, page: Page, pages: seq<Page>)
    requires NoRaise(page)
    requires forall i :: 0 <= i < |pages| ==> NoRaise(pages[i])
    requires |pages| == CancelClicks
    ensures var a := AfterEnd(v, m, page);
            var r := Resumed(v, a.m, pages);
            r.m == m.(ready := true, sequence := NotRunning) && a.effects + r.effects == Closing()
  {
    var a := AfterEnd(v, m, page);
    assert page(Disposition) != Raises && page(SubmitDisposition) != Raises && page(CancelRenew) != Raises;
    assert a.m == m.(ready := false, sequence := Cancelling(1));
    CancelPhase(v, a.m, 1, pages);
    assert a.effects + Repeat(Click(CancelRenew), CancelClicks - 1) == Closing();
  }

  /** The sequence from its k-th refused end-interaction attempt to its end,
      without exceptions. */
  lemma {:induction false} EndPhase(v: Variant, m: Machine, k: nat, pages: seq<Page>)
    requires m.sequence == EndRetry(k) && 1 <= k <= EndTries
    requires forall i :: 0 <= i < |pages| ==> NoRaise(pages[i])
    requires |pages| == EndStep(v, pages, k) + 1 + CancelClicks
    ensures Resumed(v, m, pages[k..]) ==
              Out(m.(ready := true, sequence := NotRunning),
                  Repeat(Click(EndInteraction), EndAttempts(v, pages, k) - k) + Closing())
    decreases EndTries - k, 1
  {
    if EndStep(v, pages, k) == k {
      EndPhaseLeaves(v, m, k, pages);
    } else {
      EndPhaseRefused(v, m, k, pages);
    }
  }

  /** The step of `EndPhase` where the retry ends: attempt k clicks, or all
      attempts are spent. */
  lemma EndPhaseLeaves(v: Variant, m: Machine, k: nat, pages: seq<Page>)
    requires m.sequence == EndRetry(k) && 1 <= k <= EndTries
    requires forall i :: 0 <= i < |pages| ==> NoRaise(pages[i])
    requires EndStep(v, pages, k) == k && |pages| == k + 1 + CancelClicks
    ensures Resumed(v, m, pages[k..]) ==
              Out(m.(ready := true, sequence := NotRunning),
                  Repeat(Click(EndInteraction), EndAttempts(v, pages, k) - k) + Closing())
  {
    var page := pages[k];
    var a := AfterEnd(v, m, page);
    var n := EndAttempts(v, pages, k) - k;
    LeavingResume(v, m, k, pages);
    var rest := Resumed(v, a.m, pages[k + 1..]);
    assert Resumed(v, m, pages[k..]) == Out(rest.m, Repeat(Click(EndInteraction), n) + a.effects + rest.effects) by {
      assert pages[k..][0] == page && pages[k..][1..] == pages[k + 1..];
    }
    assert NoRaise(page);
    AfterEndCompletes(v, m, page, pages[k + 1..]);
    assert Repeat(Click(EndInteraction), n) + a.effects + rest.effects
        == Repeat(Click(EndInteraction), n) + (a.effects + rest.effects);
  }

  /** The resumption at which the retry ends: after the last attempt, or
      after a refused attempt when this one clicks. */
  lemma LeavingResume(v: Variant, m: Machine, k: nat, pages: seq<Page>)
    requires m.sequence == EndRetry(k) && 1 <= k <= EndTries && k < |pages|
    requires NoRaise(pages[k]) && EndStep(v, pages, k) == k
    ensures var a := AfterEnd(v, m, pages[k]);
            ResumeSequence(v, m, pages[k]) ==
              Out(a.m, Repeat(Click(EndInteraction), EndAttempts(v, pages, k) - k) + a.effects)
  {
    var a := AfterEnd(v, m, pages[k]);
    if k < EndTries {
      assert NaturalClick(v, EndFound(pages, k)) == Clicked;
      assert [Click(EndInteraction)] + a.effects == Repeat(Click(EndInteraction), 1) + a.effects;
    } else {
      assert a.effects == Repeat(Click(EndInteraction), 0) + a.effects;
    }
  }

  /** The step of `EndPhase` where attempt k is refused again. */
  lemma {:induction false} EndPhaseRefused(v: Variant, m: Machine, k: nat, pages: seq<Page>)
    requires m.sequence == EndRetry(k) && 1 <= k <= EndTries
    requires forall i :: 0 <= i < |pages| ==> NoRaise(pages[i])
    requires EndStep(v, pages, k) > k && |pages| == EndStep(v, pages, k) + 1 + CancelClicks
    ensures Resumed(v, m, pages[k..]) ==
              Out(m.(ready := true, sequence := NotRunning),
                  Repeat(Click(EndInteraction), EndAttempts(v, pages, k) - k) + Closing())
    decreases EndTries - k, 0
  {
    var m1 := m.(sequence := EndRetry(k + 1));
    var rest := Resumed(v, m1, pages[k + 1..]);
    var final := m.(ready := true, sequence := NotRunning);
    RefusedStep(v, pages, k);
    var n := EndAttempts(v, pages, k) - k;
    assert rest == Out(final, Repeat(Click(EndInteraction), n - 1) + Closing()) by {
      EndPhase(v, m1, k + 1, pages);
      assert m1.(ready := true, sequence := NotRunning) == final;
    }
    assert Resumed(v, m, pages[k..]) == Out(rest.m, [Click(EndInteraction)] + rest.effects) by {
      assert k < |pages| && NoRaise(pages[k]);
      RefusedResume(v, m, k, pages);
    }
    OneMoreAttempt(Resumed(v, m, pages[k..]), rest, final, n);
  }

  /** An attempt that does not end the retry leaves the end step and the
      number of attempts as they are from the next attempt on. */
  lemma RefusedStep(v: Variant, pages: seq<Page>, k: nat)
    requires k <= EndTries && EndStep(v, pages, k) > k
    ensures k < EndTries && NaturalClick(v, EndFound(pages, k)) != Clicked
    ensures EndStep(v, pages, k + 1) == EndStep(v, pages, k)
    ensures EndAttempts(v, pages, k + 1) == EndAttempts(v, pages, k)
  {
  }

  /** A resumption in which end-interaction is refused once more. */
  lemma RefusedResume(v: Variant, m: Machine, k: nat, pages: seq<Page>)
    requires m.sequence == EndRetry(k) && k < EndTries && k < |pages|
    requires NoRaise(pages[k]) && NaturalClick(v, pages[k](EndInteraction)) != Clicked
    ensures var rest := Resumed(v, m.(sequence := EndRetry(k + 1)), pages[k + 1..]);
            Resumed(v, m, pages[k..]) == Out(rest.m, [Click(EndInteraction)] + rest.effects)
  {
    var page := pages[k];
    assert pages[k..][0] == page && pages[k..][1..] == pages[k + 1..];
    assert ResumeSequence(v, m, page) == Out(m.(sequence := EndRetry(k + 1)), [Click(EndInteraction)]);
  }

  /** One more refused end-interaction attempt in front of the rest of the
      sequence. */
  lemma OneMoreAttempt(o: Out, rest: Out, final: Machine, n: nat)
    requires o == Out(rest.m, [Click(EndInteraction)] + rest.effects)
    requires n > 0 && rest == Out(final, Repeat(Click(EndInteraction), n - 1) + Closing())
    ensures o == Out(final, Repeat(Click(EndInteraction), n) + Closing())
  {
    RepeatCons(Click(EndInteraction), n);
    assert [Click(EndInteraction)] + (Repeat(Click(EndInteraction), n - 1) + Closing())
        == Repeat(Click(EndInteraction), n) + Closing();
  }

  lemma RepeatCons(e: Effect, n: nat)
    requires n > 0
    ensures [e] + Repeat(e, n - 1) == Repeat(e, n)
  {
  }

  /** A press on an enabled button, followed by its resumptions on pages
      where no click raises: end-interaction is tried as `retryClick` tries
      it (at most 5 times, stopping at the first click), the sequence goes
      on whether or not that succeeded, disposition and submit are clicked
      once each, cancel-renew exactly 15 times, and at the end the countdown
      is gone, `readyForNextCountdown` is set and the button enabled. The
      run needs one page per step: the press, the awaits of the retry and
      the 15 cancel-renew awaits. */
  lemma NextCallSequence(v: Variant, m: Machine, pages: seq<Page>)
    requires !m.Busy()
    requires forall i :: 0 <= i < |pages| ==> NoRaise(pages[i])
    requires |pages| == EndStep(v, pages, 0) + 1 + CancelClicks
    ensures var r := RetryClick(v, EndProbe(pages), EndTries);
            && 1 <= r.attempts <= EndTries
            && Run(v, m, [Press(pages[0])] + Resumes(pages[1..])) ==
                 Out(m.(countdown := None, ready := true),
                     Repeat(Click(EndInteraction), r.attempts) + Closing())
  {
    PressThenResumes(v, m, pages[0], pages[1..]);
    PressSequence(v, m, pages);
    EndStepIsRetry(v, pages, 0);
  }

  /** `NextCallSequence` after the press. */
  lemma PressSequence(v: Variant, m: Machine, pages: seq<Page>)
    requires !m.Busy()
    requires forall i :: 0 <= i < |pages| ==> NoRaise(pages[i])
    requires |pages| == EndStep(v, pages, 0) + 1 + CancelClicks
    ensures var o := NextCall(v, m, pages[0]);
            var rest := Resumed(v, o.m, pages[1..]);
            && rest.m == m.(countdown := None, ready := true)
            && o.effects + rest.effects == Repeat(Click(EndInteraction), EndAttempts(v, pages, 0)) + Closing()
  {
    if EndStep(v, pages, 0) == 0 {
      PressClicks(v, m, pages);
    } else {
      PressRefused(v, m, pages);
    }
  }

  /** The press whose first end-interaction attempt clicks. */
  lemma PressClicks(v: Variant, m: Machine, pages: seq<Page>)
    requires !m.Busy()
    requires forall i :: 0 <= i < |pages| ==> NoRaise(pages[i])
    requires EndStep(v, pages, 0) == 0 && |pages| == 1 + CancelClicks
    ensures var o := NextCall(v, m, pages[0]);
            var rest := Resumed(v, o.m, pages[1..]);
            && rest.m == m.(countdown := None, ready := true)
            && o.effects + rest.effects == Repeat(Click(EndInteraction), EndAttempts(v, pages, 0)) + Closing()
  {
    var page := pages[0];
    assert NoRaise(page);
    var m1 := m.(countdown := None);
    var a := AfterEnd(v, m1, page);
    assert NaturalClick(v, EndFound(pages, 0)) == Clicked;
    assert NextCall(v, m, page) == Out(a.m, [Click(EndInteraction)] + a.effects);
    AfterEndCompletes(v, m1, page, pages[1..]);
    var rest := Resumed(v, a.m, pages[1..]);
    assert [Click(EndInteraction)] + a.effects + rest.effects
        == Repeat(Click(EndInteraction), 1) + (a.effects + rest.effects);
  }

  /** The press whose first end-interaction attempt is refused. */
  lemma PressRefused(v: Variant, m: Machine, pages: seq<Page>)
    requires !m.Busy()
    requires forall i :: 0 <= i < |pages| ==> NoRaise(pages[i])
    requires EndStep(v, pages, 0) > 0 && |pages| == EndStep(v, pages, 0) + 1 + CancelClicks
    ensures var o := NextCall(v, m, pages[0]);
            var rest := Resumed(v, o.m, pages[1..]);
            && rest.m == m.(countdown := None, ready := true)
            && o.effects + rest.effects == Repeat(Click(EndInteraction), EndAttempts(v, pages, 0)) + Closing()
  {
    var page := pages[0];
    var m2 := m.(countdown := None, sequence := EndRetry(1));
    assert NextCall(v, m, page) == Out(m2, [Click(EndInteraction)]) by {
      assert NoRaise(page);
      assert NaturalClick(v, EndFound(pages, 0)) != Clicked;
    }
    assert EndStep(v, pages, 1) == EndStep(v, pages, 0);
    EndPhase(v, m2, 1, pages);
    var rest := Resumed(v, m2, pages[1..]);
    OneMoreAttempt(Out(rest.m, [Click(EndInteraction)] + rest.effects), rest,
                   m.(countdown := None, ready := true), EndAttempts(v, pages, 0));
  }

  /** `readyForNextCountdown` only ever becomes true at the normal end of
      the sequence. */
  lemma ReadyOnlyOnCompletion(v: Variant, m: Machine, e: Event)
    requires !m.ready && Step(v, m, e).m.ready
    ensures e.Resume? && m.sequence.Cancelling? && m.sequence.clicked >= CancelClicks
  {
  }

  /** An exception during the cancel-renew phase enables the button but
      leaves `readyForNextCountdown` false, so no poll can start a countdown
      until a later sequence completes. */
  lemma RaiseAfterWindowBlocksLoop(v: Variant, m: Machine, page: Page, snap: Snapshot)
    requires Wf(m) && m.sequence.Cancelling? && m.sequence.clicked < CancelClicks
    requires page(CancelRenew) == Raises
    ensures var m1 := Step(v, m, Resume(page)).m;
            && !m1.Busy() && !m1.ready
            && Step(v, m1, Poll(snap)).m == m1
  {
  }

  /** An exception during the end-interaction retry ends the sequence
      before `readyForNextCountdown` is touched. */
  lemma RaiseDuringRetryKeepsReady(v: Variant, m: Machine, page: Page)
    requires m.sequence.EndRetry? && m.sequence.failed < EndTries
    requires page(EndInteraction) == Raises
    ensures var m1 := Step(v, m, Resume(page)).m;
            !m1.Busy() && m1.ready == m.ready
  {
  }

  /** The button is disabled while the sequence runs, and a disabled button
      receives no click: a countdown that a poll starts during the
      end-interaction retry survives a press and is still pending. */
  lemma BusyPressIgnored(v: Variant, snap: Snapshot, page: Page)
    requires ShouldCountdown(v, Observe(snap), false, true)
    ensures var missing: Page := t => Missing;
            var m := Run(v, Init, [LoopButton, Press(missing)]).m;
            var m1 := Step(v, m, Poll(snap)).m;
            && m1.Busy() && m1.countdown.Some?
            && Step(v, m1, Press(page)) == Out(m1, [])
  {
    CountdownDuringRetry(v, snap);
  }

  /** In main.js an Agent Call in Wrap Up skips the configured delay: the
      triggering poll gives the initial cue and the very next countdown
      firing gives the final cue and clicks next-call, whatever the delay.
      content.js ignores the same call. */
  lemma AgentWrapUpFiresAtOnce(m: Machine, snap: Snapshot, page: Page)
    requires Wf(m) && m.active && m.countdown.None? && m.ready
    requires snap.state == Some(WrapUpState) && snap.callType == Some(AgentCall)
    ensures var o := Step(WrapUp, m, Poll(snap));
            var t := Step(WrapUp, o.m, Tick(page));
            && o.effects == [Beep(Initial)]
            && |t.effects| >= 2 && t.effects[0] == Beep(Final) && t.effects[1] == Fire
            && t.m.countdown.None?
    ensures Step(Base, m, Poll(snap)) == Out(m, [])
  {
  }

  /** `readyForNextCountdown` is lowered only after the end-interaction
      retry, so while the retry awaits, a poll can start a new countdown. */
  lemma CountdownDuringRetry(v: Variant, snap: Snapshot)
    requires ShouldCountdown(v, Observe(snap), false, true)
    ensures var missing: Page := t => Missing;
            var m := Run(v, Init, [LoopButton, Press(missing)]).m;
            && m.sequence == EndRetry(1) && m.ready
            && Step(v, m, Poll(snap)).m.countdown.Some?
  {
    var missing: Page := t => Missing;
    var es := [LoopButton, Press(missing)];
    var m1 := StartLoop(v, Init);
    assert Step(v, Init, LoopButton) == Out(m1, []);
    assert missing(EndInteraction) == Missing;
    var m2 := m1.(countdown := None, sequence := EndRetry(1));
    assert Step(v, m1, Press(missing)) == Out(m2, [Click(EndInteraction)]);
    assert es[0] == LoopButton && es[1..] == [Press(missing)];
    assert [Press(missing)][1..] == [];
    assert Run(v, m1, [Press(missing)]) == Out(m2, [Click(EndInteraction)] + []);
    assert Run(v, Init, es).m == m2;
  }
}
