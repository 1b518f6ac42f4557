/** The click primitive (`naturalClick`) and its bounded retry
    (`retryClick`), with the page abstracted to what a lookup finds. */
module Clicks {
  import opened Js
  import opened Variants

  /** The controls the next-call sequence acts on. */
  datatype Target = EndInteraction | Disposition | SubmitDisposition | CancelRenew

  /** What looking up a target finds: nothing, an element with its
      `disabled` property and `aria-disabled` attribute, or a failure that
      raises an exception out of the click. */
  datatype Probe = Missing | Present(disabled: bool, ariaDisabled: Option<string>) | Raises

  /** The page at one moment, as far as the clicks can see it. */
  type Page = Target -> Probe

  datatype Outcome = Clicked | Refused | Raised

  /** An element the content.js primitive is willing to click. */
  predicate Enabled(p: Probe)
    requires p.Present?
  {
    !p.disabled && p.ariaDisabled != Some("true")
  }

  /** `naturalClick`: a missing element is refused; content.js also refuses
      a disabled or `aria-disabled="true"` element, while main.js clicks
      whatever it finds. */
  function NaturalClick(v: Variant, p: Probe): (r: Outcome)
    ensures r == Raised <==> p.Raises?
    ensures r == Clicked <==> p.Present? && (v == WrapUp || Enabled(p))
  {
    match p
    case Missing => Refused
    case Raises => Raised
    case Present(_, _) => if v == WrapUp || Enabled(p) then Clicked else Refused
  }

  /** How many times the end-interaction control is tried. */
  const EndTries := 5

  /** The result of a retried click and how many attempts it made. */
  datatype Retry = Retry(outcome: Outcome, attempts: nat)

  /** The retry loop from attempt `i` on; `probe(j)` is what attempt `j`
      finds. */
  function RetryFrom(v: Variant, probe: nat -> Probe, tries: nat, i: nat): (r: Retry)
    requires i <= tries
    ensures i <= r.attempts <= tries
    ensures r.outcome == Refused ==> r.attempts == tries
    ensures r.outcome != Refused ==> r.attempts > i && NaturalClick(v, probe(r.attempts - 1)) == r.outcome
    ensures forall j :: i <= j < r.attempts && (j < r.attempts - 1 || r.outcome == Refused) ==>
              NaturalClick(v, probe(j)) == Refused
    decreases tries - i
  {
    if i == tries then Retry(Refused, tries)
    else
      var c := NaturalClick(v, probe(i));
      if c == Refused then RetryFrom(v, probe, tries, i + 1) else Retry(c, i + 1)
  }

  /** One attempt of the retry loop: a refusal moves on to the next
      attempt, anything else ends the loop. */
  lemma RetryStep(v: Variant, probe: nat -> Probe, tries: nat, i: nat)
    requires i < tries
    ensures var c := NaturalClick(v, probe(i));
            RetryFrom(v, probe, tries, i) ==
              if c == Refused then RetryFrom(v, probe, tries, i + 1) else Retry(c, i + 1)
  {
  }

  /** `retryClick(selector, tries, wait)` and the inline loop of main.js:
      at most `tries` attempts, stopping at the first that does not refuse;
      the result is refused only when every attempt was refused. */
  function RetryClick(v: Variant, probe: nat -> Probe, tries: nat): (r: Retry)
    ensures r.attempts <= tries
    ensures r.outcome == Clicked ==>
              r.attempts >= 1 && NaturalClick(v, probe(r.attempts - 1)) == Clicked
              && forall j :: 0 <= j < r.attempts - 1 ==> NaturalClick(v, probe(j)) == Refused
    ensures r.outcome == Refused <==>
              r.attempts == tries && forall j :: 0 <= j < tries ==> NaturalClick(v, probe(j)) == Refused
  {
    RetryFrom(v, probe, tries, 0)
  }

  /** A target that is there and enabled from the start is clicked on the
      first attempt; one that never appears costs all attempts. */
  lemma RetryExtremes(v: Variant, probe: nat -> Probe, tries: nat)
    requires tries > 0
    ensures NaturalClick(v, probe(0)) == Clicked ==> RetryClick(v, probe, tries) == Retry(Clicked, 1)
    ensures (forall j :: 0 <= j < tries ==> probe(j) == Missing) ==>
              RetryClick(v, probe, tries) == Retry(Refused, tries)
  {
  }
}
