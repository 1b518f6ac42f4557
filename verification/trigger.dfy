/** The decision a poll tick makes: start a countdown or not, and how long. */
module Trigger {
  import opened Js
  import opened Variants
  import Stopwatch

  const LiveCall := ": Live Call"
  const Dialing := ": Dialing"
  const WrapUpState := ": Wrap Up"
  const InboundCall := "Inbound Call"
  const AgentCall := "Agent Call"

  /** Dialing counts only once it has lasted this many seconds. */
  const DialThreshold := 35

  /** What one poll tick reads from the softphone: the trimmed text of the
      call-state label, of the stopwatch and of the call-type label, each
      `None` when the element or its text is missing. */
  datatype Snapshot = Snapshot(state: Option<string>, time: Option<string>, callType: Option<string>)

  /** The values the trigger is computed from. */
  datatype Observation = Observation(state: Option<string>, callType: Option<string>, dialing: Num)

  function Observe(s: Snapshot): Observation {
    Observation(s.state, s.callType, Stopwatch.DialingSeconds(s.time))
  }

  /** The call-state clause of the trigger. */
  predicate StateQualifies(v: Variant, state: Option<string>, dialing: Num) {
    || state == Some(LiveCall)
    || (v == WrapUp && state == Some(WrapUpState))
    || (state == Some(Dialing) && AtLeast(dialing, DialThreshold))
  }

  /** `shouldCountdown`: the state qualifies, no countdown is pending, the
      call is not inbound (an absent call type is not inbound) and the
      loop is ready for a new countdown. */
  predicate ShouldCountdown(v: Variant, o: Observation, countdownActive: bool, ready: bool) {
    && StateQualifies(v, o.state, o.dialing)
    && !countdownActive
    && o.callType != Some(InboundCall)
    && ready
  }

  /** The length of the countdown a trigger starts. */
  function CountdownLength(v: Variant, o: Observation, delay: Num): Num {
    if v == WrapUp && o.callType == Some(AgentCall) && o.state == Some(WrapUpState) then Int(0)
    else delay
  }

  /** An inbound call never triggers, whatever its state or time. */
  lemma InboundNeverTriggers(v: Variant, o: Observation, countdownActive: bool, ready: bool)
    requires o.callType == Some(InboundCall)
    ensures !ShouldCountdown(v, o, countdownActive, ready)
  {
  }

  /** No countdown starts while one is pending, and none while the loop is
      not ready. */
  lemma NoOverlap(v: Variant, o: Observation, countdownActive: bool, ready: bool)
    requires countdownActive || !ready
    ensures !ShouldCountdown(v, o, countdownActive, ready)
  {
  }

  /** Dialing triggers exactly from 35 seconds on: 34 does not, 35 does. */
  lemma DialingThreshold(v: Variant, callType: Option<string>, seconds: Num)
    requires callType != Some(InboundCall)
    ensures ShouldCountdown(v, Observation(Some(Dialing), callType, seconds), false, true)
            <==> AtLeast(seconds, 35)
    ensures !ShouldCountdown(v, Observation(Some(Dialing), callType, Int(34)), false, true)
    ensures ShouldCountdown(v, Observation(Some(Dialing), callType, Int(35)), false, true)
  {
  }

  /** The WrapUp copy accepts exactly what the Base copy accepts, plus the
      Wrap Up state under the same inbound, pending and ready conditions. */
  lemma WrapUpExtendsBase(o: Observation, countdownActive: bool, ready: bool)
    ensures ShouldCountdown(WrapUp, o, countdownActive, ready) <==>
              || ShouldCountdown(Base, o, countdownActive, ready)
              || (&& o.state == Some(WrapUpState) && !countdownActive
                  && o.callType != Some(InboundCall) && ready)
    ensures o.state != Some(WrapUpState) ==>
              (ShouldCountdown(WrapUp, o, countdownActive, ready) <==>
               ShouldCountdown(Base, o, countdownActive, ready))
  {
  }

  /** Only an Agent Call in Wrap Up shortens the countdown, and only in the
      WrapUp copy; every other trigger waits the configured delay. */
  lemma AgentWrapUpIsImmediate(v: Variant, o: Observation, delay: Num)
    ensures v == WrapUp && o.callType != Some(AgentCall) ==> CountdownLength(v, o, delay) == delay
    ensures v == WrapUp && o.state != Some(WrapUpState) ==> CountdownLength(v, o, delay) == delay
    ensures v == Base ==> CountdownLength(v, o, delay) == delay
    ensures v == WrapUp && o.state == Some(WrapUpState) && o.callType == Some(AgentCall) ==>
              ShouldCountdown(v, o, false, true) && CountdownLength(v, o, delay) == Int(0)
  {
  }

  /** Because only the seconds field is read, a call that has been dialing
      for 1 minute 5 seconds does not trigger. */
  lemma DialingPastAMinute(v: Variant)
    ensures !ShouldCountdown(v, Observe(Snapshot(Some(Dialing), Some("01:05"), None)), false, true)
  {
    Stopwatch.OneMinuteFiveSeconds();
  }

  /** With no readable header at all, nothing triggers. */
  lemma MissingHeaderNeverTriggers(v: Variant, time: Option<string>, callType: Option<string>,
                                   countdownActive: bool, ready: bool)
    ensures !ShouldCountdown(v, Observe(Snapshot(None, time, callType)), countdownActive, ready)
  {
  }
}
