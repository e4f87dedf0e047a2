/**
 The fallback loader of one image slot (`loadCurrentVariant` and the
 `idxVariant`/`variants` state inside `render` in app.js).

 The image element is abstracted to the sequence of load outcomes it reports,
 one per URL assigned to it: `Failed` for an `error` event and `Loaded` with
 the natural size for a `load` event.
 */
module Loader {

  const PlaceholderUrl := "https://via.placeholder.com/600x450?text=FERJO"

  datatype Orientation = Portrait | Landscape

  datatype Event = Failed | Loaded(naturalWidth: nat, naturalHeight: nat)

  /** What the image slot is doing: waiting on a candidate, showing one, or showing the placeholder. */
  datatype Surface = Attempting(url: string) | Shown(url: string, orientation: Orientation) | Placeholder

  /**
   `variants` is the chain being tried, `next` the source's `idxVariant` (the
   position of the next candidate), and `srcLog` every value assigned to the
   element's `src` for this chain, in order.
   */
  datatype State = State(variants: seq<string>, next: nat, surface: Surface, srcLog: seq<string>)

  /** The class put on the image box once a candidate has loaded. */
  function Classify(naturalWidth: nat, naturalHeight: nat): Orientation {
    if naturalHeight > naturalWidth then Portrait else Landscape
  }

  /**
   `loadCurrentVariant`: assign the next candidate, or the placeholder once none
   is left. Each call assigns exactly one URL, and a chain whose log holds the
   candidates tried so far stays valid.
   */
  function LoadCurrent(variants: seq<string>, next: nat, log: seq<string>): (s: State)
    ensures s.variants == variants
    ensures s.surface.Placeholder? <==> next >= |variants|
    ensures |s.srcLog| == |log| + 1 && s.srcLog[..|log|] == log
    ensures next <= |variants| && log == variants[..next] ==> Valid(s)
  {
    if |variants| == 0 || next >= |variants| then State(variants, next, Placeholder, log + [PlaceholderUrl])
    else State(variants, next + 1, Attempting(variants[next]), log + [variants[next]])
  }

  /** A fresh chain: `idxVariant = 0` and a first call to `loadCurrentVariant`. */
  function Start(variants: seq<string>): (s: State)
    ensures |variants| == 0 ==> s.surface == Placeholder && s.srcLog == [PlaceholderUrl]
    ensures |variants| > 0 ==> s.surface == Attempting(variants[0]) && s.srcLog == [variants[0]]
  {
    LoadCurrent(variants, 0, [])
  }

  /**
   The `onerror`/`onload` handlers; once the placeholder is up both are
   cleared, and a shown image stays. An event assigns at most one URL, after
   the ones already assigned.
   */
  function Step(s: State, e: Event): (r: State)
    ensures r.variants == s.variants
    ensures !s.surface.Attempting? ==> r == s
    ensures |s.srcLog| <= |r.srcLog| <= |s.srcLog| + 1 && r.srcLog[..|s.srcLog|] == s.srcLog
    ensures r.surface.Shown? <==> s.surface.Shown? || (s.surface.Attempting? && e.Loaded?)
  {
    match s.surface
    case Attempting(url) =>
      (match e
       case Failed => LoadCurrent(s.variants, s.next, s.srcLog)
       case Loaded(w, h) => s.(surface := Shown(url, Classify(w, h))))
    case _ => s
  }

  function Run(s: State, events: seq<Event>): State
    decreases |events|
  {
    if |events| == 0 then s else Run(Step(s, events[0]), events[1..])
  }

  /**
   The attempts so far are exactly the candidates before `next`, tried in
   order, followed by the placeholder once the chain is used up.
   */
  ghost predicate Valid(s: State) {
    && s.next <= |s.variants|
    && s.srcLog == s.variants[..s.next] + (if s.surface.Placeholder? then [PlaceholderUrl] else [])
    && (s.surface.Placeholder? ==> s.next == |s.variants|)
    && (!s.surface.Placeholder? ==> s.next >= 1 && s.surface.url == s.variants[s.next - 1])
  }

  lemma StartIsValid(variants: seq<string>)
    ensures Valid(Start(variants))
  {
    assert variants[..0] == [];
  }

  lemma StepPreservesValid(s: State, e: Event)
    requires Valid(s)
    ensures Valid(Step(s, e))
    ensures Step(s, e).variants == s.variants
  {
    if s.surface.Attempting? && e.Failed? {
      if s.next < |s.variants| {
        assert s.variants[..s.next + 1] == s.variants[..s.next] + [s.variants[s.next]];
      } else {
        assert s.variants[..s.next] == s.variants;
      }
    }
  }

  /** Once the slot shows an image or the placeholder, no later event changes it. */
  lemma {:induction false} SettledStays(s: State, events: seq<Event>)
    requires !s.surface.Attempting?
    ensures Run(s, events) == s
    decreases |events|
  {
    if |events| > 0 {
      SettledStays(Step(s, events[0]), events[1..]);
    }
  }

  /** The number of `error` events before the first `load` event. */
  function LeadingFailures(events: seq<Event>): (j: nat)
    ensures j <= |events|
    ensures forall i :: 0 <= i < j ==> events[i] == Failed
    ensures j < |events| ==> events[j].Loaded?
  {
    if |events| == 0 || events[0].Loaded? then 0 else 1 + LeadingFailures(events[1..])
  }

  /**
   Reference outcome of trying the chain `variants` from position `k` against
   `events`: with `j` leading failures, the chain is used up once `k + j`
   reaches its length; otherwise the candidate at `k + j` is shown if a load
   event came, and is still pending if none did.
   */
  ghost function ExpectedFrom(variants: seq<string>, k: nat, events: seq<Event>): Surface {
    var j := LeadingFailures(events);
    if k + j >= |variants| then Placeholder
    else if j == |events| then Attempting(variants[k + j])
    else Shown(variants[k + j], Classify(events[j].naturalWidth, events[j].naturalHeight))
  }

  ghost function ExpectedLogFrom(variants: seq<string>, k: nat, events: seq<Event>): seq<string> {
    var j := LeadingFailures(events);
    if k + j >= |variants| then variants + [PlaceholderUrl] else variants[..k + j + 1]
  }

  lemma {:induction false} RunFrom(variants: seq<string>, k: nat, events: seq<Event>)
    requires k <= |variants|
    ensures Run(LoadCurrent(variants, k, variants[..k]), events).surface == ExpectedFrom(variants, k, events)
    ensures Run(LoadCurrent(variants, k, variants[..k]), events).srcLog == ExpectedLogFrom(variants, k, events)
    decreases |events|
  {
    if k == |variants| {
      assert variants[..k] == variants;
      RunFromExhausted(variants, events);
    } else if |events| == 0 {
      assert variants[..k] + [variants[k]] == variants[..k + 1];
    } else if events[0].Loaded? {
      RunFromLoaded(variants, k, events);
    } else {
      FailureAdvances(variants, k);
      ExpectedAfterFailure(variants, k, events);
      RunFrom(variants, k + 1, events[1..]);
    }
  }

  lemma ExpectedAfterFailure(variants: seq<string>, k: nat, events: seq<Event>)
    requires |events| > 0 && events[0] == Failed
    ensures ExpectedFrom(variants, k, events) == ExpectedFrom(variants, k + 1, events[1..])
    ensures ExpectedLogFrom(variants, k, events) == ExpectedLogFrom(variants, k + 1, events[1..])
  {
    assert LeadingFailures(events) == 1 + LeadingFailures(events[1..]);
    assert forall j :: 0 <= j < |events[1..]| ==> events[1..][j] == events[j + 1];
  }

  lemma RunFromExhausted(variants: seq<string>, events: seq<Event>)
    ensures Run(LoadCurrent(variants, |variants|, variants), events).surface == ExpectedFrom(variants, |variants|, events)
    ensures Run(LoadCurrent(variants, |variants|, variants), events).srcLog == ExpectedLogFrom(variants, |variants|, events)
  {
    SettledStays(LoadCurrent(variants, |variants|, variants), events);
  }

  lemma RunFromLoaded(variants: seq<string>, k: nat, events: seq<Event>)
    requires k < |variants| && |events| > 0 && events[0].Loaded?
    ensures Run(LoadCurrent(variants, k, variants[..k]), events).surface == ExpectedFrom(variants, k, events)
    ensures Run(LoadCurrent(variants, k, variants[..k]), events).srcLog == ExpectedLogFrom(variants, k, events)
  {
    var s := LoadCurrent(variants, k, variants[..k]);
    SettledStays(Step(s, events[0]), events[1..]);
    assert variants[..k] + [variants[k]] == variants[..k + 1];
  }

  lemma FailureAdvances(variants: seq<string>, k: nat)
    requires k < |variants|
    ensures Step(LoadCurrent(variants, k, variants[..k]), Failed) == LoadCurrent(variants, k + 1, variants[..k + 1])
  {
    assert variants[..k] + [variants[k]] == variants[..k + 1];
  }

  /**
   The whole behaviour of one chain: after `j` leading failures the loader has
   tried `variants[0], ..., variants[j]` in that order, and it lands on the
   placeholder exactly when `j` reaches the length of the chain.
   */
  lemma RunMatchesReference(variants: seq<string>, events: seq<Event>)
    ensures Run(Start(variants), events).surface == ExpectedFrom(variants, 0, events)
    ensures Run(Start(variants), events).srcLog == ExpectedLogFrom(variants, 0, events)
  {
    assert variants[..0] == [];
    RunFrom(variants, 0, events);
  }

  function Failures(k: nat): (events: seq<Event>)
    ensures |events| == k && LeadingFailures(events) == k
  {
    if k == 0 then [] else [Failed] + Failures(k - 1)
  }

  /** The placeholder comes after exactly `|variants|` consecutive failures, never fewer. */
  lemma PlaceholderAfterExactlyAllFail(variants: seq<string>, k: nat)
    ensures Run(Start(variants), Failures(k)).surface == Placeholder <==> k >= |variants|
    ensures k < |variants| ==> Run(Start(variants), Failures(k)).surface == Attempting(variants[k])
    ensures k < |variants| ==> Run(Start(variants), Failures(k)).srcLog == variants[..k + 1]
  {
    RunMatchesReference(variants, Failures(k));
  }

  /** A success classifies the image: portrait exactly when it is taller than wide. */
  lemma SuccessClassifies(variants: seq<string>, k: nat, w: nat, h: nat)
    requires k < |variants|
    ensures Run(Start(variants), Failures(k) + [Loaded(w, h)]).surface
            == Shown(variants[k], if h > w then Portrait else Landscape)
  {
    var events := Failures(k) + [Loaded(w, h)];
    assert events[k] == Loaded(w, h);
    forall i | 0 <= i < k ensures events[i] == Failed {
      assert events[i] == Failures(k)[i];
    }
    LeadingFailuresAt(events, k);
    RunMatchesReference(variants, events);
  }

  lemma {:induction false} LeadingFailuresAt(events: seq<Event>, k: nat)
    requires k < |events| && events[k].Loaded?
    requires forall i :: 0 <= i < k ==> events[i] == Failed
    ensures LeadingFailures(events) == k
    decreases k
  {
    if k > 0 {
      LeadingFailuresAt(events[1..], k - 1);
    }
  }
}
