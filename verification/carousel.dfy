/**
 The per-card image carousel built inside `render` in app.js: up to three raw
 image links, the index of the one shown, the fallback loader for its chain of
 candidates, and the row of indicator dots.

 The chain of candidates for a link is computed by the resolver passed in as
 `variantsOf`; the page passes `Drive.DriveVariants` (`driveVariantsFromUrl`),
 and every property below holds for any resolver.
 */
module Carousel {
  import Loader
  import Filter

  /** `Boolean(s)` for a link: only the empty string is false. */
  predicate IsPresent(s: string) {
    s != ""
  }

  /**
   `[p.image_url, p.image_url_2, p.image_url_3].filter(Boolean)`; an absent link
   is "". The links stay in field order, and a link given twice is kept twice.
   */
  function ImageSources(a: string, b: string, c: string): (sources: seq<string>)
    ensures sources == Filter.Keep([a, b, c], IsPresent)
    ensures |sources| <= 3
    ensures forall i :: 0 <= i < |sources| ==> sources[i] != ""
  {
    var rc := if c != "" then [c] else [];
    var rb := (if b != "" then [b] else []) + rc;
    var r := (if a != "" then [a] else []) + rb;
    assert [c][1..] == [] && Filter.Keep([c], IsPresent) == rc;
    assert [b, c][1..] == [c] && Filter.Keep([b, c], IsPresent) == rb;
    assert [a, b, c][1..] == [b, c] && Filter.Keep([a, b, c], IsPresent) == r;
    r
  }

  /**
   `sources` are the links, `index` is `idxImage`, `loader` the state of the
   fallback loader for the shown link and `dots` the indicators, `true` for
   the one marked active.
   */
  datatype Card = Card(sources: seq<string>, index: int, loader: Loader.State, dots: seq<bool>)

  /** `sourcesRaw[i]`; an index outside the array reads `undefined`, which resolves like "". */
  function SourceAt(sources: seq<string>, i: int): string {
    if 0 <= i < |sources| then sources[i] else ""
  }

  /** `buildDots`: one indicator per link when there is more than one link. */
  function Dots(n: nat, active: int): (dots: seq<bool>)
    ensures n <= 1 ==> dots == []
    ensures n > 1 ==> |dots| == n
  {
    if n > 1 then seq(n, k => k == active) else []
  }

  function CountActive(dots: seq<bool>): nat {
    if |dots| == 0 then 0 else CountActive(dots[..|dots| - 1]) + (if dots[|dots| - 1] then 1 else 0)
  }

  lemma {:induction false} CountActivePrefix(m: nat, active: int)
    ensures CountActive(seq(m, k => k == active)) == if 0 <= active < m then 1 else 0
  {
    if m > 0 {
      var d := seq(m, k => k == active);
      assert d[..m - 1] == seq(m - 1, k => k == active);
      CountActivePrefix(m - 1, active);
    }
  }

  /** With more than one link exactly one indicator is active, the one for the shown image. */
  lemma DotsExactlyOneActive(n: nat, active: int)
    requires n > 1 && 0 <= active < n
    ensures CountActive(Dots(n, active)) == 1
    ensures Dots(n, active)[active]
  {
    CountActivePrefix(n, active);
  }

  /**
   `setImageIndex`: show link `i`, recompute its chain, restart the loader at
   the first candidate (`idxVariant = 0`), rebuild the dots.
   */
  function SetImageIndex(variantsOf: string -> seq<string>, c: Card, i: int): Card {
    Card(c.sources, i, Loader.Start(variantsOf(SourceAt(c.sources, i))), Dots(|c.sources|, i))
  }

  /**
   Showing an existing link gives a valid card on that link: its chain is
   being tried from the first candidate (or the placeholder is up, if the
   chain is empty), and with several links the dot of link `i` is the one
   active dot.
   */
  lemma SetImageIndexShowsLink(variantsOf: string -> seq<string>, c: Card, i: int)
    requires 0 <= i < |c.sources|
    ensures var r := SetImageIndex(variantsOf, c, i);
            var vs := variantsOf(c.sources[i]);
            && Valid(variantsOf, r)
            && r.loader.variants == vs
            && r.loader.srcLog == (if vs == [] then [Loader.PlaceholderUrl] else [vs[0]])
            && (1 < |c.sources| ==> CountActive(r.dots) == 1 && r.dots[i])
            && (|c.sources| == 1 ==> r.dots == [])
  {
    Loader.StartIsValid(variantsOf(c.sources[i]));
    if 1 < |c.sources| {
      DotsExactlyOneActive(|c.sources|, i);
    }
  }

  /** A freshly rendered card: the placeholder when there is no link, otherwise `setImageIndex(0)`. */
  function Init(variantsOf: string -> seq<string>, sources: seq<string>): (c: Card)
    ensures c.sources == sources && c.index == 0
    ensures sources == [] ==> c.loader.surface == Loader.Placeholder && c.dots == []
    ensures sources != [] ==> c.loader == Loader.Start(variantsOf(sources[0]))
  {
    if |sources| == 0 then Card(sources, 0, Loader.Start([]), [])
    else SetImageIndex(variantsOf, Card(sources, 0, Loader.Start([]), []), 0)
  }

  lemma ModOfSmall(a: int, n: int)
    requires n > 0 && 0 <= a < 2 * n
    ensures a % n == if a < n then a else a - n
  {
    if a < n {
      assert a == n * 0 + a;
    } else {
      assert a == n * 1 + (a - n);
    }
  }

  /** JavaScript `%`: the remainder takes the sign of the dividend. */
  function JsRem(a: int, n: int): (r: int)
    requires n > 0
    ensures 0 <= a < 2 * n ==> r == if a < n then a else a - n
    ensures a < 0 ==> -n < r <= 0
  {
    if a >= 0 then
      if a < 2 * n then ModOfSmall(a, n); a % n else a % n
    else -((-a) % n)
  }

  /** The `next` button, present only when the card has more than one link: it moves one link on, wrapping after the last. */
  function Next(variantsOf: string -> seq<string>, c: Card): (r: Card)
    ensures r.sources == c.sources
    ensures |c.sources| <= 1 ==> r == c
    ensures 1 < |c.sources| && 0 <= c.index < |c.sources| ==> r.index == if c.index + 1 < |c.sources| then c.index + 1 else 0
  {
    var n := |c.sources|;
    if n > 1 then SetImageIndex(variantsOf, c, JsRem(c.index + 1, n)) else c
  }

  /** The `prev` button, present only when the card has more than one link: it moves one link back, wrapping before the first. */
  function Prev(variantsOf: string -> seq<string>, c: Card): (r: Card)
    ensures r.sources == c.sources
    ensures |c.sources| <= 1 ==> r == c
    ensures 1 < |c.sources| && 0 <= c.index < |c.sources| ==> r.index == if c.index == 0 then |c.sources| - 1 else c.index - 1
  {
    var n := |c.sources|;
    if n > 1 then SetImageIndex(variantsOf, c, JsRem(c.index - 1 + n, n)) else c
  }

  datatype Input = PrevClicked | NextClicked | DotClicked(i: int) | Image(event: Loader.Event)

  /** The card's listeners: the two arrows, a dot (one exists per link when there are several), the image events. */
  function Step(variantsOf: string -> seq<string>, c: Card, input: Input): (r: Card)
    ensures r.sources == c.sources
  {
    match input
    case PrevClicked => Prev(variantsOf, c)
    case NextClicked => Next(variantsOf, c)
    case DotClicked(i) => if |c.sources| > 1 && 0 <= i < |c.sources| then SetImageIndex(variantsOf, c, i) else c
    case Image(e) => c.(loader := Loader.Step(c.loader, e))
  }

  function Run(variantsOf: string -> seq<string>, c: Card, inputs: seq<Input>): (r: Card)
    ensures r.sources == c.sources
    decreases |inputs|
  {
    if |inputs| == 0 then c else Run(variantsOf, Step(variantsOf, c, inputs[0]), inputs[1..])
  }

  /** The shown index is in range, the loader works on that link's chain, and the dots mark it. */
  ghost predicate Valid(variantsOf: string -> seq<string>, c: Card) {
    && (|c.sources| == 0 ==> c.loader.surface == Loader.Placeholder && c.dots == [])
    && (|c.sources| > 0 ==>
          && 0 <= c.index < |c.sources|
          && c.loader.variants == variantsOf(c.sources[c.index])
          && c.dots == Dots(|c.sources|, c.index))
    && Loader.Valid(c.loader)
  }

  lemma InitIsValid(variantsOf: string -> seq<string>, sources: seq<string>)
    ensures Valid(variantsOf, Init(variantsOf, sources))
  {
    Loader.StartIsValid([]);
    if |sources| > 0 {
      Loader.StartIsValid(variantsOf(sources[0]));
    }
  }

  /**
   With `n > 1` links, next and previous stay in `[0, n)`, undo each other,
   and restart the loader on the chain of the newly shown link.
   */
  lemma NavigationWraps(variantsOf: string -> seq<string>, c: Card)
    requires Valid(variantsOf, c) && |c.sources| > 1
    ensures var n := |c.sources|;
            var next := Next(variantsOf, c);
            var prev := Prev(variantsOf, c);
            && next.index == (if c.index + 1 < n then c.index + 1 else 0)
            && prev.index == (if c.index == 0 then n - 1 else c.index - 1)
            && Prev(variantsOf, next).index == c.index && Next(variantsOf, prev).index == c.index
            && next.loader == Loader.Start(variantsOf(c.sources[next.index]))
            && prev.loader == Loader.Start(variantsOf(c.sources[prev.index]))
  {
    var n := |c.sources|;
    var next := Next(variantsOf, c);
    var prev := Prev(variantsOf, c);
    assert next.index == (if c.index + 1 < n then c.index + 1 else 0);
    assert prev.index == (if c.index == 0 then n - 1 else c.index - 1);
    assert Next(variantsOf, prev).index == (if prev.index + 1 < n then prev.index + 1 else 0);
    assert Prev(variantsOf, next).index == (if next.index == 0 then n - 1 else next.index - 1);
  }

  lemma StepPreservesValid(variantsOf: string -> seq<string>, c: Card, input: Input)
    requires Valid(variantsOf, c)
    ensures Valid(variantsOf, Step(variantsOf, c, input))
  {
    var n := |c.sources|;
    match input
    case PrevClicked =>
      if n > 1 {
        NavigationWraps(variantsOf, c);
        Loader.StartIsValid(variantsOf(c.sources[Prev(variantsOf, c).index]));
      }
    case NextClicked =>
      if n > 1 {
        NavigationWraps(variantsOf, c);
        Loader.StartIsValid(variantsOf(c.sources[Next(variantsOf, c).index]));
      }
    case DotClicked(i) =>
      if n > 1 && 0 <= i < n {
        Loader.StartIsValid(variantsOf(c.sources[i]));
      }
    case Image(e) =>
      Loader.StepPreservesValid(c.loader, e);
      if n == 0 {
        assert Loader.Step(c.loader, e) == c.loader;
      }
  }

  lemma {:induction false} RunPreservesValid(variantsOf: string -> seq<string>, c: Card, inputs: seq<Input>)
    requires Valid(variantsOf, c)
    ensures Valid(variantsOf, Run(variantsOf, c, inputs))
    decreases |inputs|
  {
    if |inputs| > 0 {
      StepPreservesValid(variantsOf, c, inputs[0]);
      RunPreservesValid(variantsOf, Step(variantsOf, c, inputs[0]), inputs[1..]);
    }
  }

  /** In every reachable card with several links, exactly one dot is active and it marks the shown image. */
  lemma ReachableDotsMarkShownImage(variantsOf: string -> seq<string>, sources: seq<string>, inputs: seq<Input>)
    requires |sources| > 1
    ensures var c := Run(variantsOf, Init(variantsOf, sources), inputs);
            && |c.dots| == |sources| && CountActive(c.dots) == 1
            && 0 <= c.index < |sources| && c.dots[c.index]
  {
    InitIsValid(variantsOf, sources);
    RunPreservesValid(variantsOf, Init(variantsOf, sources), inputs);
    var c := Run(variantsOf, Init(variantsOf, sources), inputs);
    DotsExactlyOneActive(|sources|, c.index);
  }

  function ImageEvents(events: seq<Loader.Event>): (inputs: seq<Input>)
    ensures |inputs| == |events|
    ensures forall i :: 0 <= i < |events| ==> inputs[i] == Image(events[i])
  {
    seq(|events|, i requires 0 <= i < |events| => Image(events[i]))
  }

  lemma {:induction false} RunAppend(variantsOf: string -> seq<string>, c: Card, a: seq<Input>, b: seq<Input>)
    ensures Run(variantsOf, c, a + b) == Run(variantsOf, Run(variantsOf, c, a), b)
    decreases |a|
  {
    if |a| > 0 {
      assert (a + b)[0] == a[0];
      assert (a + b)[1..] == a[1..] + b;
      RunAppend(variantsOf, Step(variantsOf, c, a[0]), a[1..], b);
    } else {
      assert a + b == b;
    }
  }

  lemma {:induction false} RunImageEvents(variantsOf: string -> seq<string>, c: Card, events: seq<Loader.Event>)
    ensures Run(variantsOf, c, ImageEvents(events)) == c.(loader := Loader.Run(c.loader, events))
    decreases |events|
  {
    if |events| > 0 {
      assert ImageEvents(events)[1..] == ImageEvents(events[1..]);
      RunImageEvents(variantsOf, Step(variantsOf, c, Image(events[0])), events[1..]);
    }
  }

  /** `next` reads nothing of the card but its links and the shown index. */
  lemma NextKeepsOnlyPosition(variantsOf: string -> seq<string>, c: Card, d: Card)
    requires c.sources == d.sources && c.index == d.index && |c.sources| > 1
    ensures Next(variantsOf, c) == Next(variantsOf, d)
  {
  }

  /**
   Whatever the loader went through, `next` moves to the following link with a
   fresh chain: the image events before the click leave no trace.
   */
  lemma ImageEventsThenNext(variantsOf: string -> seq<string>, c: Card, events: seq<Loader.Event>)
    requires |c.sources| > 1
    ensures Run(variantsOf, c, ImageEvents(events) + [NextClicked]) == Next(variantsOf, c)
  {
    RunAppend(variantsOf, c, ImageEvents(events), [NextClicked]);
    RunImageEvents(variantsOf, c, events);
    var c1 := c.(loader := Loader.Run(c.loader, events));
    assert [NextClicked][1..] == [];
    assert Run(variantsOf, c1, [NextClicked]) == Run(variantsOf, Step(variantsOf, c1, NextClicked), []);
    assert Step(variantsOf, c1, NextClicked) == Next(variantsOf, c1);
    NextKeepsOnlyPosition(variantsOf, c1, c);
  }

  /** The last leg of the scenario below: the shown link loads on its second candidate. */
  lemma SecondCandidateLoads(variantsOf: string -> seq<string>, c: Card, w: nat, h: nat)
    requires 0 <= c.index < |c.sources|
    requires |variantsOf(c.sources[c.index])| >= 2
    requires c.loader == Loader.Start(variantsOf(c.sources[c.index]))
    ensures var card := Run(variantsOf, c, ImageEvents([Loader.Failed, Loader.Loaded(w, h)]));
            card == c.(loader := card.loader)
            && card.loader.surface == Loader.Shown(variantsOf(c.sources[c.index])[1], Loader.Classify(w, h))
  {
    var vs := variantsOf(c.sources[c.index]);
    Loader.SuccessClassifies(vs, 1, w, h);
    assert Loader.Failures(1) + [Loader.Loaded(w, h)] == [Loader.Failed, Loader.Loaded(w, h)];
    RunImageEvents(variantsOf, c, [Loader.Failed, Loader.Loaded(w, h)]);
  }

  /** Two `next` clicks on a fresh three-link card reach the third link, whatever the image events in between. */
  lemma TwoNextsReachThird(variantsOf: string -> seq<string>, sources: seq<string>, ea: seq<Loader.Event>, eb: seq<Loader.Event>)
    requires |sources| == 3
    ensures var card := Run(variantsOf, Init(variantsOf, sources), ImageEvents(ea) + [NextClicked] + ImageEvents(eb) + [NextClicked]);
            && card.sources == sources && card.index == 2
            && card.loader == Loader.Start(variantsOf(sources[2]))
            && card.dots == [false, false, true]
  {
    var e0 := ImageEvents(ea) + [NextClicked];
    var e1 := ImageEvents(eb) + [NextClicked];
    assert ImageEvents(ea) + [NextClicked] + ImageEvents(eb) + [NextClicked] == e0 + e1;
    var c0 := Init(variantsOf, sources);
    ImageEventsThenNext(variantsOf, c0, ea);
    var c2 := Run(variantsOf, c0, e0);
    assert c2.index == 1;
    ImageEventsThenNext(variantsOf, c2, eb);
    RunAppend(variantsOf, c0, e0, e1);
    var c4 := Run(variantsOf, c2, e1);
    assert c4.index == 2;
    assert c4.dots == seq(3, k => k == 2);
  }

  /**
   Three links: every candidate of the first two fails, the user moves on with
   `next` each time, and the third link loads on its second candidate. The card
   ends showing that candidate, with the third dot the active one.
   */
  lemma ThirdSourceSecondVariant(variantsOf: string -> seq<string>, a: string, b: string, c: string, w: nat, h: nat)
    requires a != "" && b != "" && c != ""
    requires |variantsOf(c)| >= 2
    ensures var inputs := ImageEvents(Loader.Failures(|variantsOf(a)|)) + [NextClicked]
                          + ImageEvents(Loader.Failures(|variantsOf(b)|)) + [NextClicked]
                          + ImageEvents([Loader.Failed, Loader.Loaded(w, h)]);
            var card := Run(variantsOf, Init(variantsOf, ImageSources(a, b, c)), inputs);
            && card.index == 2
            && card.loader.surface == Loader.Shown(variantsOf(c)[1], Loader.Classify(w, h))
            && card.dots == [false, false, true]
  {
    var sources := ImageSources(a, b, c);
    assert sources == [a, b, c];
    var e01 := ImageEvents(Loader.Failures(|variantsOf(a)|)) + [NextClicked]
               + ImageEvents(Loader.Failures(|variantsOf(b)|)) + [NextClicked];
    var e2 := ImageEvents([Loader.Failed, Loader.Loaded(w, h)]);
    var c0 := Init(variantsOf, sources);
    TwoNextsReachThird(variantsOf, sources, Loader.Failures(|variantsOf(a)|), Loader.Failures(|variantsOf(b)|));
    var c4 := Run(variantsOf, c0, e01);
    SecondCandidateLoads(variantsOf, c4, w, h);
    RunAppend(variantsOf, c0, e01, e2);
  }
}
