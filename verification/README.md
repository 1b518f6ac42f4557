# FlowMate call automation, modelled in Dafny

FlowMate is a browser extension for agents working a Salesforce console
with an embedded softphone. Its core is the "ASM next call" loop: a poll
timer reads the softphone's call-state text, call type and stopwatch; when
a call is live (or has been dialing for 35 seconds, or, in the newer copy,
is in Wrap Up) it starts a countdown with audible cues; at zero the
countdown presses the "ASM Next Call" button, whose handler ends the
interaction (retrying up to 5 times), picks a disposition, submits it and
clicks "cancel preview renew" 15 times. Around it sit a tab-trim loop, a
Kill Tabs button and the settings that switch the loops on and off.

The loop exists in two drifted copies, modelled as one machine with a
`Variant`:

- `Base` is content.js;
- `WrapUp` is main.js and extension/main.js, whose loops are the same
  code.

The modules follow the program's parts:

- `Js`: the few JavaScript semantics the loop depends on. These are
  numbers as integers or NaN, truthiness, `parseInt`, `Number`, `trim`
  and `split`.
- `Stopwatch`: turning the stopwatch text into `dialingSeconds`.
- `Trigger`: the `shouldCountdown` predicate and the countdown length.
- `Clicks`: `naturalClick` and its bounded retry. The page is a function
  from the four targets to what a lookup finds.
- `Delay`: what a typed delay stores.
- `Automaton`: the loop as a discrete-event machine. Every poll firing,
  countdown firing, button press, hover, typed delay and resumption of the
  awaiting next-call handler is one event. Time is the order of events.
- `AutomatonProofs`: properties over event sequences.
- `Tabs`: the tab-trim loop and Kill Tabs.
- `Settings`: `applySettings`, with the tab and toast loops it reconciles.

## Model

| member | source | states |
|---|---|---|
| Stopwatch.DialingSeconds | content.js:525-529 | Absent or empty stopwatch text gives 0. NaN arises only from text with exactly three fields. A truthy value needs a colon in the text. The field lemmas below give the value for every number of fields. |
| Stopwatch.TwoFields | content.js:525-529 | Two colon-free fields give `Number` of the second, or 0 when that is 0 or NaN (unparsable). |
| Stopwatch.ThreeFields | content.js:525-529 | Three colon-free fields give `Number` of the third, NaN included. |
| Stopwatch.ManyFields | content.js:525-529 | Four or more fields read like two: the second field, or 0 when that is 0 or unparsable. |
| Stopwatch.UnparsableSeconds | content.js:525-529 | "01:ab" reads as 0. |
| Stopwatch.MinutesSeconds | content.js:525-529 | A `mm:ss` display of digits reads as the value of its seconds field. |
| Stopwatch.HoursMinutesSeconds | content.js:525-529 | An `hh:mm:ss` display of digits reads as the value of its seconds field. |
| Stopwatch.NoColonIsZero | content.js:525-529 | Text without a colon gives 0. |
| Stopwatch.OneMinuteFiveSeconds | main.js:293-297 | "01:05" reads as 5: minutes are ignored. |
| Js.ParseInt | content.js:441 | `parseInt(s, 10)` on decimal text: skip leading white space, read an optional sign and the longest run of digits; NaN when there is none. Its lemmas follow. |
| Js.ToNumber | content.js:527 | `Number(s)` on integer text: surrounding white space ignored, blank text is 0, a signed run of digits is its value, anything else NaN. |
| Js.Split | content.js:527 | `split(":")` gives one more piece than there are colons, and no piece holds a colon. |
| Js.ParseIntDecimal | content.js:440-441 | `parseInt` reads back any rendered natural number, with or without a minus sign, whatever non-digit text follows it. |
| Js.ParseIntNaN | content.js:440-441 | `parseInt` is NaN exactly when no digit follows the leading white space and optional sign. |
| Js.ToNumberDigits | content.js:527 | `Number` of a field of digits is its decimal value. |
| Js.JoinSplit | content.js:527 | Joining the pieces of `split(":")` gives back the text. |
| Js.SplitJoin | content.js:527 | Splitting a join of colon-free pieces gives back the pieces. |
| Js.TrimStartStrips | content.js:441 | Trimming the start keeps a suffix that does not start with white space, and drops only white space. |
| Js.TrimEndStrips | content.js:527 | Trimming the end keeps a prefix that does not end with white space, and drops only white space. |
| Trigger.ShouldCountdown | content.js:535-540 | `shouldCountdown`: the state qualifies (Live Call, Dialing for at least 35 seconds, and in main.js also Wrap Up), no countdown is pending, the call is not inbound and the loop is ready. The lemmas below pin it down. |
| Trigger.CountdownLength | main.js:311-314 | The countdown length: 0 for an Agent Call in Wrap Up in main.js, the configured delay otherwise. `AutomatonProofs.AgentWrapUpFiresAtOnce` is its end-to-end consequence. |
| Trigger.DialingThreshold | content.js:535-540 | For a call that is not inbound, with no countdown pending and the loop ready, Dialing triggers iff the seconds are at least 35. 34 does not trigger; 35 does. |
| Trigger.InboundNeverTriggers | content.js:535-540 | An "Inbound Call" never triggers, in either copy, whatever its state, time, pending countdown or readiness. |
| Trigger.NoOverlap | content.js:535-540 | No countdown starts while one is pending or while `readyForNextCountdown` is false. |
| Trigger.MissingHeaderNeverTriggers | content.js:535-540 | With no readable call-state text, nothing triggers, whatever the call type and stopwatch read. |
| Trigger.WrapUpExtendsBase | main.js:302-308 | The main.js trigger holds iff the content.js one holds, or the state is Wrap Up under the same inbound, pending and ready conditions. Outside Wrap Up the two copies agree. |
| Trigger.AgentWrapUpIsImmediate | main.js:311-314 | In main.js an Agent Call in Wrap Up triggers on a ready loop with no countdown, with length 0. Any other call type, or any other state, waits the configured delay. content.js always waits the delay. |
| Trigger.DialingPastAMinute | main.js:293-308 | A call dialing for "01:05" does not trigger. |
| Delay.BaseAsWritten | content.js:440-441 | When the content.js rule yields a number, it is at least 0. It can yield NaN. |
| Delay.BaseAsWrittenStoresNaN | content.js:440-441 | The content.js rule stores NaN for the input ".5". |
| Delay.FromInput | main.js:370-372 | The stored delay is always a number. In main.js it is the parsed value when that is truthy, else 3. In content.js (corrected) it is at least 0 and agrees with the as-written rule whenever that gives a number. Where that rule gives NaN, the corrected one stores 0. |
| Delay.CorrectedStoresZero | content.js:440-441 | The corrected content.js rule stores 0 for ".5". |
| Delay.TypedNumber | main.js:370-372 | Typing n stores n in both copies, except 0, which becomes 3 in main.js. A typed negative becomes 0 in content.js and is kept in main.js. |
| Delay.EmptyInput | content.js:440-441 | An emptied input stores 0 in content.js and 3 in main.js. |
| Clicks.NaturalClick | content.js:488-504 | A click raises iff the lookup raises. It succeeds iff the element is present and enabled: not `disabled` and not `aria-disabled="true"`. main.js's copy does not look at disabled state. |
| Clicks.RetryClick | content.js:506-512 | At most `tries` attempts are made. A success means the last attempt clicked and every earlier one was refused. The result is a refusal iff every one of the `tries` attempts was refused. |
| Clicks.RetryExtremes | content.js:506-512 | A target clickable at once costs one attempt. One that never appears costs all of them. |
| Automaton.StartLoop | main.js:280-286 | The guarded copy returns unchanged when active. Otherwise it clears the countdown and starts a poll interval. content.js always starts another poll interval, orphaning the previous one. |
| Automaton.StopLoop | content.js:560-568 | Inactive, no poll handle and no countdown. `readyForNextCountdown`, the sequence and the delay are kept. |
| Automaton.PollTick | content.js:542-545 | The state changes iff a poll is running and the trigger holds. It then gains a countdown of the computed length and gives the initial cue; otherwise nothing happens. |
| Automaton.NextCall | content.js:391-399 | The handler always clears the countdown. When the button is disabled, nothing else happens. That guard can never run: a disabled button receives no click, from the user or from the countdown's `click()`, and `Automaton.Step` models that. The guard is kept as written. Otherwise the first end-interaction attempt is made. |
| Automaton.Step | content.js:421-466 | One event. The loop button, hover and a typed delay give no effects and leave readiness and the sequence alone. A press on the disabled button does nothing at all, because a disabled button receives no click. |
| Automaton.StepAsWritten | content.js:440-441 | content.js as written: a typed delay stores the as-written value, NaN included. Every other event is as in `Step`. |
| Automaton.EndAttempt | main.js:216-219 | A refusal awaits before the next attempt. A raise ends the sequence. A click leaves `readyForNextCountdown` false. |
| Automaton.AfterEnd | content.js:400-405 | `readyForNextCountdown` becomes false. Disposition, submit and the first cancel-renew are clicked in order. It awaits in the cancel phase iff none of those clicks raised. |
| Automaton.ResumeSequence | content.js:406-413 | Leaves the loop's own fields and the countdown alone. It only ever clicks. |
| Automaton.CountdownTick | content.js:545-555 | With `seconds` above 0 (or NaN) it gives the mid cue and counts down. At or below 0 it gives the final cue, then exactly one Fire, then only clicks, and clears the countdown. |
| AutomatonProofs.RunPreservesWf | content.js:514-568 | Well-formedness is kept by every event sequence of the machine with the corrected delay rule: no orphaned poll, a poll handle exactly while active, integer delays and countdowns, and counters in range. `AutomatonProofs.AsWrittenWedgeReachable` shows the as-written program leaves it. |
| AutomatonProofs.ButtonNeverLeaks | content.js:421 | From the initial state no event sequence orphans a poll interval, because the loop button starts a poll only when the loop is off. |
| AutomatonProofs.WrapUpStartIdempotent | main.js:280-286 | A second `startLoop` in main.js changes nothing. |
| AutomatonProofs.BaseStartTwiceLeaksPoll | content.js:514-518 | In content.js, starting twice and stopping once leaves an orphaned poll that can still start a countdown. |
| AutomatonProofs.SilentWhileStopped | content.js:560-568 | Once the loop is stopped with no poll interval running, polls, countdown firings, resumptions and typed delays never fire next-call. The loop stays stopped, with no countdown. |
| AutomatonProofs.HoverSilences | content.js:463-466 | Hovering the panel stops the loop. No quiet event after it fires next-call. |
| AutomatonProofs.CountdownPending | content.js:545-555 | While `seconds` stays above 0, k ticks give k mid cues and count down by k. |
| AutomatonProofs.CountdownFiresOnce | content.js:545-555 | A countdown of d gives d mid cues, then the final cue and exactly one Fire. d = 0 or below fires on the first tick. |
| AutomatonProofs.NaNCountdownNeverFires | content.js:545-555 | A countdown whose `seconds` is NaN gives only mid cues and never changes state. |
| AutomatonProofs.PollDuringCountdown | content.js:538 | A poll while a countdown is pending does nothing. |
| AutomatonProofs.AgentWrapUpFiresAtOnce | main.js:310-322 | In main.js, an Agent Call in Wrap Up on a ready loop gives the initial cue, and the very next countdown firing gives the final cue and clicks next-call, whatever the delay. content.js does nothing for the same call. |
| AutomatonProofs.TriggerFiresOnce | main.js:310-330 | From a well-formed active state, a triggering poll starts a countdown of the computed length, which fires exactly once. |
| AutomatonProofs.RunAsWrittenAgrees | content.js:440-441 | With no typed delay, the as-written program and the corrected one take the same steps. |
| AutomatonProofs.AsWrittenWedgeReachable | content.js:440-441 | From the panel's initial state, starting the loop, typing ".5" and one triggering poll leave a NaN countdown. The state is not well formed, the countdown never fires, and no later poll does anything. |
| AutomatonProofs.AsWrittenDelayWedgesLoop | content.js:440-441 | Under the as-written rule, typing ".5" and triggering leaves a NaN countdown. It never fires, and every later poll does nothing. |
| AutomatonProofs.TypedDelayFires | content.js:440-441 | Under the corrected rule, whatever is typed, the next countdown fires exactly once after as many mid cues as the stored delay. |
| AutomatonProofs.ResumeProgresses | content.js:406-413 | Each resumption of a running sequence brings it closer to its end. |
| AutomatonProofs.SequenceTerminates | content.js:391-415 | Whatever the page does, a running sequence ends within a bounded number of resumptions, and the button is enabled again. |
| AutomatonProofs.PressEndsWithin20 | main.js:216-233 | A press on an enabled button is followed by at most 20 awaits before the button is enabled again. |
| AutomatonProofs.CancelPhase | content.js:406-410 | Undisturbed, cancel-renew is clicked until 15 clicks in all. Then `readyForNextCountdown` is set and the button enabled. |
| AutomatonProofs.EndStepIsRetry | content.js:506-512 | The end step used by the sequence proofs agrees with the retry loop's attempt count and outcome. |
| AutomatonProofs.AfterEndCompletes | content.js:400-410 | Where no click raises, everything after end-interaction gives exactly disposition, submit and 15 cancel-renew clicks. The sequence ends ready, with the button enabled. |
| AutomatonProofs.NextCallSequence | main.js:209-235 | See the note under this table. |
| AutomatonProofs.ReadyOnlyOnCompletion | content.js:399-413 | `readyForNextCountdown` turns true only on the resumption that ends a complete cancel phase. |
| AutomatonProofs.RaiseAfterWindowBlocksLoop | content.js:410-414 | An exception in the cancel phase enables the button but leaves `readyForNextCountdown` false, so polls do nothing. |
| AutomatonProofs.RaiseDuringRetryKeepsReady | content.js:399-413 | An exception during the end-interaction retry ends the sequence with `readyForNextCountdown` untouched. |
| AutomatonProofs.BusyPressIgnored | content.js:392-395 | A countdown started by a poll while the end-interaction retry awaits survives a press of the disabled button, which does nothing, and stays pending. |
| AutomatonProofs.CountdownDuringRetry | content.js:399-400 | While the end-interaction retry awaits, `readyForNextCountdown` is still true, so a poll can start a new countdown. |
| Tabs.ClosableExactly | content.js:180-189 | The reference list holds exactly the tabs that have a close button, in ascending order. |
| Tabs.KillTabsInOrder | content.js:180-189 | content.js's Kill Tabs clicks the closable tabs in list order. |
| Tabs.KillTabsRightmostFirst | main.js:464-473 | main.js's Kill Tabs clicks the same tabs from the last to the first. |
| Tabs.KillTabsOrders | main.js:464-473 | Both buttons click exactly the closable tabs, each once. content.js goes in ascending order and main.js in descending order, the reverse. |
| Tabs.TrimTickInOrder | content.js:621-630 | One content.js tick clicks the FIRST tab's close button once per tab beyond `tabLimit`, if it has one, and nothing else. |
| Tabs.TrimTick | main.js:485-492 | One main.js tick clicks at most once, on the first tab. It clicks iff more than 10 tabs are open and that tab has a close button. |
| Tabs.TrimConverges | main.js:483-494 | With every tab closable, the loop closes the oldest tab per tick until 10 remain, then nothing. |
| Tabs.TrimKeepsTen | main.js:483-494 | The loop never takes the bar below 10 tabs, or below its start if it had fewer. |
| Tabs.TrimStuck | main.js:483-494 | A first tab without a close button stops the loop from ever closing anything. |
| Settings.Merge | content.js:601 | Every key an update carries replaces the current value, and every other key keeps it. |
| Settings.StartTab | content.js:621-630 | Starting the tab loop is a no-op while it runs. Otherwise it starts one new timer, distinct from any running one. |
| Settings.StopTab | content.js:632-635 | Stopping the tab loop clears exactly its timer. |
| Settings.StartToast | content.js:636-641 | Starting the toast loop is a no-op while it runs. Otherwise it starts one new timer. |
| Settings.StopToast | content.js:642-645 | Stopping the toast loop clears exactly its timer. |
| Settings.Apply | content.js:600-619 | The merged configuration is stored, and the loops stay well formed. |
| Settings.ApplyReconciles | content.js:614-618 | After an update the tab loop runs iff `tabLooper` and the toast loop iff `toastLooper`. A loop that stays on keeps its timer, and at most two timers run. |
| Settings.Bootstrap | content.js:648-656 | The bootstrap's extra start calls change nothing beyond applying the stored settings. |
| Settings.ToggleTab | content.js:191-195 | The panel's tab-loop button flips the loop and leaves the configuration alone. |
| Settings.ToggleUndoneByApply | content.js:614-616 | An update that carries no `tabLooper` key undoes a toggle of the tab loop. |
| Settings.Reset | content.js:661-666 | The reset message stops both loops and leaves no timer running. |
| Settings.ResetThenApply | content.js:661-666 | After a reset, an update with no keys restarts exactly the loops the flags ask for. |

`AutomatonProofs.NextCallSequence` covers a press on an enabled button,
followed by its resumptions, on pages where no click raises:

- end-interaction is tried as the retry loop tries it, 1 to 5 times,
  stopping at the first click;
- the sequence continues whether or not that attempt succeeded;
- disposition and submit are then clicked once each;
- cancel-renew is clicked exactly 15 times;
- the run ends with no countdown, `readyForNextCountdown` set and the
  button enabled.

### Where the code and the documented behaviour differ

The model follows the code in each of these cases:

- `stopLoop` does not reset `readyForNextCountdown`, in any copy
  (content.js:560-568). A stop in the middle of a sequence keeps the value.
- An exception caught by the next-call handler does not restore
  `readyForNextCountdown` (content.js:411-413). If it comes after
  end-interaction, the value stays false and the loop cannot trigger
  again. `AutomatonProofs.RaiseAfterWindowBlocksLoop` shows this.
- `readyForNextCountdown` becomes false only after the end-interaction
  retry (content.js:399-400), not when the handler starts. While the retry
  awaits, a poll can start a new countdown.
  `AutomatonProofs.CountdownDuringRetry` shows this.
- Only the seconds field of a two-field stopwatch is read
  (content.js:528). A call dialing for 1:05 reads as 5 seconds.

## Left out

- Panel construction, styling, dragging, snapping, the trash and reset
  buttons, opacity changes and button labels are left out. Only the
  `stopLoop` that hovering the panel triggers is modelled.
- `playDing` and the volume input are left out: they are WebAudio with
  floating-point gains. The cues are the abstract `Initial`, `Mid` and
  `Final`.
- Timers and awaited delays are not modelled: `setInterval`,
  `setTimeout`, the 250 ms awaits and the 10 ms and 1 s periods. Each
  firing or resumption is an event, and any interleaving of events is
  allowed.
- The DOM is left out. `querySelector`, event dispatch and focus become
  a page function from the four targets to Missing, Present (with
  `disabled` and `aria-disabled`) or Raises. A tab becomes whether it has
  a close button.
- Browser I/O is left out: `chrome.storage`, `chrome.runtime` messaging,
  the MutationObserver that re-attaches panels, and frame and host
  detection. The stored settings and the messages are parameters.
- popup.js and vite.config.ts are not part of this model. They are
  extension messaging and bundler configuration.
- The toast loop's clicks and the Kill Toasts burst are left out: they
  have no decision logic. Only the toast loop's timer is modelled, as
  `applySettings` starts and stops it.
- Js.ToNumber and Js.ParseInt: only decimal integer text is modelled.
  Fractions, exponents, hexadecimal, `Infinity` and non-ASCII white space
  are not. `Num` is an unbounded integer, not a double. So a value of 2^53
  or more, which loses precision in JavaScript, is kept exact. A digit run
  long enough to overflow a double, which becomes `Infinity`, stays a
  finite integer. Stopwatch fields and typed delays are small decimal
  integers in practice.
- Settings.Config: `asmVolume` is left out, because it is a float that
  only feeds audio. The other keys have the types the defaults give them.
  The model does not cover stored values of other types.
- Settings.Apply: `cfg.asmDelay` is the content.js loop's delay, and the
  model does not feed it into `Automaton.Machine.delay`. A settings
  update that changes the delay is not an automaton event.
- Tabs.TrimTickInOrder: only the clicks are modelled. What repeated
  clicks on the same, possibly already closed, tab do to the tab bar is
  left out. The tab-bar lemmas concern the main.js loop, and they assume
  a clicked close button closes its tab.
- content.js's loop never starts on the two surfaces it checks for.
  The script stops with a ReferenceError before its bootstrap runs.
  - On the Salesforce console, content.js:14 reaches content.js:48, which
    calls a panel builder defined only inside main.js.
  - In the Five9 softphone, content.js:20 builds the ASM panel, which reads
    `cfg` at content.js:303 before its declaration at content.js:60 has run.
  - So the `Base` machine describes content.js on any other page it is
    injected into. Which pages those are is set outside the files modelled
    here.
- The ASM panel of extension/main.js is never built. Its panel helper
  throws at extension/main.js:124, because the drag handle it registers a
  listener on is undefined. That happens at extension/main.js:178, before
  the next-call button is created. `WrapUp` models the loop code that
  extension/main.js shares with main.js.
- AutomatonProofs.RunPreservesWf / Automaton.Step: the machine runs the
  corrected content.js delay rule, so its delay is never NaN. The
  as-written rule is `Automaton.StepAsWritten`. Under it the NaN state is
  reachable (`AutomatonProofs.AsWrittenWedgeReachable`), and
  well-formedness does not hold there.
- The Kill Tabs button in extension/main.js is left out. Its loop uses
  variables it never declares, and its panel is never built, because the
  control-button helper it relies on returns nothing.
- The content.js reset message removes the loop's panel but does not stop
  the loop. Panels and their removal are not modelled.

## Findings

| source | as written | input that shows it | evidently intended | confidence | as-written member | corrected member |
|---|---|---|---|---|---|---|
| content.js:440-441 | The delay input stores `Math.max(0, parseInt(value \|\| "0", 10))`. A value with no leading digit makes `parseInt` NaN, and `Math.max(0, NaN)` is NaN. The next countdown then starts with `seconds` NaN. `NaN <= 0` is false, so it gives mid cues forever, never clicks next-call, and, being pending, blocks every later trigger until the loop is stopped or the next-call button is pressed by hand. | On a page where content.js's panel loads (neither the Salesforce console nor the Five9 softphone, where the script stops early), type ".5" into the delay input, a valid value for a number input. Then let a Live Call trigger. | A non-negative whole number of seconds, with unparsable input treated as 0, as the `Math.max(0, …)` clamp and the input's `min: "0"` suggest. | medium, not executed | AutomatonProofs.AsWrittenDelayWedgesLoop | AutomatonProofs.TypedDelayFires |

The as-written rule is `Delay.BaseAsWritten`, and
`Delay.BaseAsWrittenStoresNaN` shows its NaN. The corrected rule is
`Delay.FromInput`, which the machine uses, with
`Delay.CorrectedStoresZero`.
`Automaton.StepAsWritten` runs the as-written rule inside the machine.
`AutomatonProofs.AsWrittenWedgeReachable` reaches the wedged state from
the panel's initial state.
