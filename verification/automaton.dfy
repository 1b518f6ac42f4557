/** The call-automation loop as a discrete-event machine.

    The source keeps module-level flags and two kinds of interval timers
    (a 10 ms poll and a 1 s countdown) and runs the next-call sequence as an
    async function that awaits between clicks. Here every timer firing,
    every resumption of the awaiting sequence and every panel interaction
    is one `Event`, and `Step` is the code that runs for it. */
module Automaton {
  import opened Js
  import opened Variants
  import opened Trigger
  import opened Clicks
  import Delay

  /** How many times the cancel-renew control is clicked. */
  const CancelClicks := 15

  /** The three audible cues (their sound is not modelled). */
  datatype Cue = Initial | Mid | Final

  /** What a step does to the outside world: a cue, a click of the
      next-call button by the countdown, or one click attempt on a target. */
  datatype Effect = Beep(cue: Cue) | Fire | Click(target: Target)

  /** Where the next-call sequence stands. `EndRetry(n)`: awaiting after
      the n-th refused end-interaction attempt. `Cancelling(n)`: awaiting
      after the n-th cancel-renew click. While it is not `NotRunning` the
      next-call button is disabled. */
  datatype Sequence = NotRunning | EndRetry(failed: nat) | Cancelling(clicked: nat)

  /** The loop's state.
      - `active`: `loopActive`;
      - `pollHeld`: the poll interval handle is set;
      - `strayPolls`: poll intervals still running whose handle was
        overwritten by a second `startLoop` (content.js only);
      - `countdown`: the countdown interval, with its remaining `seconds`;
      - `ready`: `readyForNextCountdown`;
      - `sequence`: the next-call sequence;
      - `delay`: the configured countdown length. */
  datatype Machine = Machine(
    active: bool,
    pollHeld: bool,
    strayPolls: nat,
    countdown: Option<Num>,
    ready: bool,
    sequence: Sequence,
    delay: Num)
  {
    /** The next-call button is disabled. */
    predicate Busy() {
      !sequence.NotRunning?
    }

    /** Some poll interval is running. */
    predicate Polling() {
      pollHeld || strayPolls > 0
    }
  }

  /** The state when the panel is built. */
  const Init := Machine(false, false, 0, None, true, NotRunning, Int(Delay.DefaultDelay))

  datatype Out = Out(m: Machine, effects: seq<Effect>)

  /** The events the loop reacts to: the loop button, the pointer entering
      the panel, a poll timer firing with what it reads, the countdown
      timer firing, the next-call button, the sequence resuming after an
      await, and a new value in the delay input. Events that click carry
      the page as it is at that moment. */
  datatype Event =
    | LoopButton
    | Hover
    | Poll(snap: Snapshot)
    | Tick(page: Page)
    | Press(page: Page)
    | Resume(page: Page)
    | DelayInput(text: string)

  /** The fields of the loop itself, as opposed to the sequence's. */
  predicate SameLoop(a: Machine, b: Machine) {
    a.active == b.active && a.pollHeld == b.pollHeld && a.strayPolls == b.strayPolls && a.delay == b.delay
  }

  // ---------------------------------------------------------------------
  // start and stop

  /** `startLoop`. The WrapUp copy returns at once when the loop is active;
      otherwise it clears `countdown` and starts a poll interval. The Base
      copy always starts a poll interval, and a second start leaves the
      first one running with no handle to stop it. */
  function StartLoop(v: Variant, m: Machine): (r: Machine)
    ensures r.active
    ensures v == WrapUp && m.active ==> r == m
    ensures !(v == WrapUp && m.active) ==> r.pollHeld
    ensures v == WrapUp && !m.active ==> r.countdown == None
    ensures v == Base ==> r.countdown == m.countdown
    ensures r.strayPolls == if m.pollHeld && !(v == WrapUp && m.active) then m.strayPolls + 1 else m.strayPolls
    ensures r.ready == m.ready && r.sequence == m.sequence && r.delay == m.delay
  {
    var stray := if m.pollHeld then m.strayPolls + 1 else m.strayPolls;
    match v
    case Base => m.(active := true, pollHeld := true, strayPolls := stray)
    case WrapUp =>
      if m.active then m
      else m.(active := true, pollHeld := true, strayPolls := stray, countdown := None)
  }

  /** `stopLoop`: clears the poll interval it holds and the countdown and
      marks the loop inactive. It does not touch `readyForNextCountdown`. */
  function StopLoop(m: Machine): (r: Machine)
    ensures !r.active && !r.pollHeld && r.countdown == None
    ensures r.strayPolls == m.strayPolls
    ensures r.ready == m.ready && r.sequence == m.sequence && r.delay == m.delay
  {
    m.(active := false, pollHeld := false, countdown := None)
  }

  // ---------------------------------------------------------------------
  // poll tick

  /** One firing of a poll interval: when the trigger holds, a countdown of
      `CountdownLength` starts with the initial cue; otherwise nothing
      changes. */
  function PollTick(v: Variant, m: Machine, snap: Snapshot): (o: Out)
    ensures o.m != m <==> m.Polling() && ShouldCountdown(v, Observe(snap), m.countdown.Some?, m.ready)
    ensures o.m != m ==>
              o.m == m.(countdown := Some(CountdownLength(v, Observe(snap), m.delay)))
              && o.effects == [Beep(Initial)]
    ensures o.m == m ==> o.effects == []
  {
    if m.Polling() && ShouldCountdown(v, Observe(snap), m.countdown.Some?, m.ready) then
      Out(m.(countdown := Some(CountdownLength(v, Observe(snap), m.delay))), [Beep(Initial)])
    else Out(m, [])
  }

  // ---------------------------------------------------------------------
  // the next-call sequence

  /** The `catch`: the sequence ends and the button is enabled again;
      `readyForNextCountdown` keeps whatever value it had. */
  function Abort(m: Machine): Machine {
    m.(sequence := NotRunning)
  }

  /** After the end-interaction retry: `readyForNextCountdown` becomes
      false, the disposition and its submit button are clicked once each,
      the first cancel-renew click is made, and the sequence awaits. An
      exception from any click ends the sequence there. */
  function AfterEnd(v: Variant, m: Machine, page: Page): (o: Out)
    ensures !o.m.ready && SameLoop(o.m, m) && o.m.countdown == m.countdown
    ensures o.m.sequence == NotRunning || o.m.sequence == Cancelling(1)
    ensures 1 <= |o.effects| <= 3 && o.effects[0] == Click(Disposition)
    ensures |o.effects| >= 2 ==> o.effects[1] == Click(SubmitDisposition)
    ensures |o.effects| == 3 ==> o.effects[2] == Click(CancelRenew)
    ensures o.m.sequence == Cancelling(1) <==>
              page(Disposition) != Raises && page(SubmitDisposition) != Raises && page(CancelRenew) != Raises
  {
    var m1 := m.(ready := false);
    if NaturalClick(v, page(Disposition)) == Raised then
      Out(Abort(m1), [Click(Disposition)])
    else if NaturalClick(v, page(SubmitDisposition)) == Raised then
      Out(Abort(m1), [Click(Disposition), Click(SubmitDisposition)])
    else if NaturalClick(v, page(CancelRenew)) == Raised then
      Out(Abort(m1), [Click(Disposition), Click(SubmitDisposition), Click(CancelRenew)])
    else
      Out(m1.(sequence := Cancelling(1)), [Click(Disposition), Click(SubmitDisposition), Click(CancelRenew)])
  }

  /** Effects that are all clicks: no cue and no firing among them. */
  predicate OnlyClicks(s: seq<Effect>) {
    forall i :: 0 <= i < |s| ==> s[i].Click?
  }

  /** End-interaction attempt number `k` (counting from 0): a click carries
      on with the rest of the sequence at once, a refusal awaits before the
      next attempt, an exception ends the sequence. */
  function EndAttempt(v: Variant, m: Machine, k: nat, page: Page): (o: Out)
    requires k < EndTries
    ensures SameLoop(o.m, m) && o.m.countdown == m.countdown
    ensures |o.effects| >= 1 && o.effects[0] == Click(EndInteraction)
    ensures OnlyClicks(o.effects)
    ensures NaturalClick(v, page(EndInteraction)) == Refused ==>
              o.m == m.(sequence := EndRetry(k + 1)) && o.effects == [Click(EndInteraction)]
    ensures NaturalClick(v, page(EndInteraction)) == Raised ==>
              o.m == Abort(m) && o.effects == [Click(EndInteraction)]
    ensures NaturalClick(v, page(EndInteraction)) == Clicked ==> !o.m.ready
  {
    match NaturalClick(v, page(EndInteraction))
    case Raised => Out(Abort(m), [Click(EndInteraction)])
    case Refused => Out(m.(sequence := EndRetry(k + 1)), [Click(EndInteraction)])
    case Clicked =>
      var o := AfterEnd(v, m, page);
      Out(o.m, [Click(EndInteraction)] + o.effects)
  }

  /** The next-call button's handler: it always clears a pending countdown;
      if the button is disabled nothing else happens; otherwise the button
      is disabled and the first end-interaction attempt runs. */
  function NextCall(v: Variant, m: Machine, page: Page): (o: Out)
    ensures o.m.countdown == None && SameLoop(o.m, m)
    ensures m.Busy() ==> o == Out(m.(countdown := None), [])
    ensures !m.Busy() ==> |o.effects| >= 1 && o.effects[0] == Click(EndInteraction)
    ensures OnlyClicks(o.effects)
  {
    var m1 := m.(countdown := None);
    if m1.Busy() then Out(m1, []) else EndAttempt(v, m1, 0, page)
  }

  /** The sequence resuming after an await. After the last refused
      end-interaction attempt it carries on regardless; after the last
      cancel-renew click it sets `readyForNextCountdown` and enables the
      button. */
  function ResumeSequence(v: Variant, m: Machine, page: Page): (o: Out)
    ensures SameLoop(o.m, m) && o.m.countdown == m.countdown
    ensures OnlyClicks(o.effects)
    ensures !m.Busy() ==> o == Out(m, [])
  {
    match m.sequence
    case NotRunning => Out(m, [])
    case EndRetry(k) =>
      if k < EndTries then EndAttempt(v, m, k, page) else AfterEnd(v, m, page)
    case Cancelling(k) =>
      if k < CancelClicks then
        if NaturalClick(v, page(CancelRenew)) == Raised then Out(Abort(m), [Click(CancelRenew)])
        else Out(m.(sequence := Cancelling(k + 1)), [Click(CancelRenew)])
      else Out(m.(ready := true, sequence := NotRunning), [])
  }

  // ---------------------------------------------------------------------
  // countdown tick

  /** One firing of the countdown interval. While `seconds` is above 0 (or
      NaN, which is never `<= 0`) it gives the mid cue and counts down; at
      or below 0 it gives the final cue, clears the countdown and clicks
      the next-call button once. */
  function CountdownTick(v: Variant, m: Machine, page: Page): (o: Out)
    ensures m.countdown.None? ==> o == Out(m, [])
    ensures m.countdown.Some? && !AtMost(m.countdown.value, 0) ==>
              o == Out(m.(countdown := Some(Dec(m.countdown.value))), [Beep(Mid)])
    ensures m.countdown.Some? && AtMost(m.countdown.value, 0) ==>
              && o.m.countdown.None? && SameLoop(o.m, m)
              && |o.effects| >= 2 && o.effects[0] == Beep(Final) && o.effects[1] == Fire
              && OnlyClicks(o.effects[2..])
  {
    match m.countdown
    case None => Out(m, [])
    case Some(s) =>
      if AtMost(s, 0) then
        var o := NextCall(v, m.(countdown := None), page);
        Out(o.m, [Beep(Final), Fire] + o.effects)
      else Out(m.(countdown := Some(Dec(s))), [Beep(Mid)])
  }

  // ---------------------------------------------------------------------
  // the machine

  /** One event. A disabled button receives no click, so pressing the
      next-call button while its sequence runs does nothing at all: the
      handler does not run and a pending countdown survives. */
  function Step(v: Variant, m: Machine, e: Event): (o: Out)
    ensures e.LoopButton? || e.Hover? || e.DelayInput? ==>
              o.effects == [] && o.m.ready == m.ready && o.m.sequence == m.sequence
    ensures e.Press? && m.Busy() ==> o == Out(m, [])
  {
    match e
    case LoopButton => Out(if m.active then StopLoop(m) else StartLoop(v, m), [])
    case Hover => Out(StopLoop(m), [])
    case Poll(snap) => PollTick(v, m, snap)
    case Tick(page) => CountdownTick(v, m, page)
    case Press(page) => if m.Busy() then Out(m, []) else NextCall(v, m, page)
    case Resume(page) => ResumeSequence(v, m, page)
    case DelayInput(text) => Out(m.(delay := Delay.FromInput(v, text)), [])
  }

  /** The events applied in order, with their effects concatenated. */
  function Run(v: Variant, m: Machine, es: seq<Event>): Out
    decreases |es|
  {
    if |es| == 0 then Out(m, [])
    else
      var o := Step(v, m, es[0]);
      var r := Run(v, o.m, es[1..]);
      Out(r.m, o.effects + r.effects)
  }

  /** content.js exactly as written: the delay input stores the as-written
      `BaseAsWritten` value, which can be NaN; every other event is as in
      `Step`. `Step` itself runs the corrected rule. */
  function StepAsWritten(m: Machine, e: Event): (o: Out)
    ensures !e.DelayInput? ==> o == Step(Base, m, e)
    ensures e.DelayInput? ==> o.effects == [] && o.m == m.(delay := Delay.BaseAsWritten(e.text))
  {
    match e
    case DelayInput(text) => Out(m.(delay := Delay.BaseAsWritten(text)), [])
    case _ => Step(Base, m, e)
  }

  function RunAsWritten(m: Machine, es: seq<Event>): Out
    decreases |es|
  {
    if |es| == 0 then Out(m, [])
    else
      var o := StepAsWritten(m, es[0]);
      var r := RunAsWritten(o.m, es[1..]);
      Out(r.m, o.effects + r.effects)
  }

  /** The states the panel can reach: no stray poll interval, a poll
      interval exactly while the loop is active, a countdown only while it
      is active, integer delays and countdowns, the sequence's counters in
      range, and `readyForNextCountdown` false throughout the cancel-renew
      phase. */
  predicate Wf(m: Machine) {
    && m.strayPolls == 0
    && m.pollHeld == m.active
    && (m.countdown.Some? ==> m.active && m.countdown.value.Int?)
    && m.delay.Int?
    && (m.sequence.EndRetry? ==> 1 <= m.sequence.failed <= EndTries)
    && (m.sequence.Cancelling? ==> 1 <= m.sequence.clicked <= CancelClicks && !m.ready)
  }
}
