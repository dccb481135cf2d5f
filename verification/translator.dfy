/**
  Best-effort translation (utils/translator.js).

  A single text is sent to a primary provider (LibreTranslate) and, only if
  that attempt is unusable, to a secondary provider (MyMemory); when both are
  unusable the original text comes back. No string argument makes
  `translateText` raise; a truthy argument that is not a string does. The network is a parameter: `Network` says what each provider
  answers to a request, and every run records the requests it sent, in order,
  as a trace.
*/
module Translator {
  import opened Wrappers
  import opened JsString

  /** The target code for which no translation is attempted. */
  const English: string := "en"

  /** The JSON body POSTed to the primary provider. */
  datatype PrimaryRequest = PrimaryRequest(q: string, source: string, target: string, format: string)

  /** The query sent to the secondary provider: `q` and `langpair=source|target`. */
  datatype SecondaryRequest = SecondaryRequest(q: string, source: string, target: string)

  /** What the primary provider's call produced. `PrimaryUnreachable` covers a
      network error, the timeout and a body that is not JSON; a `translatedText`
      of `None` is a missing field or one that is not a string. */
  datatype PrimaryResponse =
    | PrimaryUnreachable
    | PrimaryReply(ok: bool, translatedText: Option<string>)

  /** What the secondary provider's call produced. `responseStatus` is `None`
      when the field is missing or not a number; `translatedText` is `None` when
      `responseData` or its `translatedText` is missing or null. */
  datatype SecondaryResponse =
    | SecondaryUnreachable
    | SecondaryReply(ok: bool, responseStatus: Option<int>, translatedText: Option<string>)

  /** The two upstream services, as seen by one translation. */
  datatype Network = Network(
    primary: PrimaryRequest -> PrimaryResponse,
    secondary: SecondaryRequest -> SecondaryResponse)

  /** A provider answer after the adapter's acceptance rule. */
  datatype Outcome = Translated(text: string) | Failed

  /** One observable step of a translation: a provider call, or a pacing pause. */
  datatype Event =
    | ToPrimary(primaryRequest: PrimaryRequest)
    | ToSecondary(secondaryRequest: SecondaryRequest)
    | Pause

  /** The text `translateText` resolves to, with the provider calls it made. */
  datatype Run = Run(text: string, trace: seq<Event>)

  // ---------------------------------------------------------------------------
  // Provider adapters

  /** The primary request carries the trimmed text and lets the provider detect
      the source language. */
  function PrimaryRequestFor(text: string, target: string): PrimaryRequest {
    PrimaryRequest(Trim(text), "auto", target, "text")
  }

  /** The secondary request carries the untrimmed text and a fixed English source. */
  function SecondaryRequestFor(text: string, target: string): SecondaryRequest {
    SecondaryRequest(text, English, target)
  }

  /** The primary answer is usable when the HTTP status is 2xx and its
      `translatedText` is a string that is not blank after trimming. */
  function PrimaryOutcome(resp: PrimaryResponse): (o: Outcome)
    ensures o.Translated? <==>
      resp.PrimaryReply? && resp.ok && resp.translatedText.Some? && !IsBlank(resp.translatedText.value)
    ensures o.Translated? ==> o.text == resp.translatedText.value
  {
    if resp.PrimaryReply? && resp.ok && resp.translatedText.Some?
       && resp.translatedText.value != "" && Trim(resp.translatedText.value) != ""
    then Translated(resp.translatedText.value)
    else Failed
  }

  /** The secondary answer is usable when the HTTP status is 2xx, the nested
      `responseStatus` is the number 200 and `translatedText` is non-empty.
      Whitespace-only text passes this rule. */
  function SecondaryOutcome(resp: SecondaryResponse): (o: Outcome)
    ensures o.Translated? ==> resp.SecondaryReply? && resp.ok && resp.responseStatus == Some(200)
    ensures o.Translated? ==> resp.translatedText == Some(o.text) && o.text != ""
    ensures (&& resp.SecondaryReply? && resp.ok && resp.responseStatus == Some(200)
             && resp.translatedText.Some? && resp.translatedText.value != "") ==> o.Translated?
  {
    if resp.SecondaryReply? && resp.ok && resp.responseStatus == Some(200)
       && resp.translatedText.Some? && resp.translatedText.value != ""
    then Translated(resp.translatedText.value)
    else Failed
  }

  /** The two adapters disagree on a blank answer: the primary rejects it, the
      secondary returns it. */
  lemma ProvidersDifferOnBlank(t: string)
    requires t != "" && IsBlank(t)
    ensures PrimaryOutcome(PrimaryReply(true, Some(t))) == Failed
    ensures SecondaryOutcome(SecondaryReply(true, Some(200), Some(t))) == Translated(t)
  {
  }

  /** The outcome a traced provider call had on `net`. A pause is no provider
      call and never occurs in a translation's trace (`TraceHasNoPause`). */
  function OutcomeOf(e: Event, net: Network): Outcome {
    match e
    case ToPrimary(q) => PrimaryOutcome(net.primary(q))
    case ToSecondary(q) => SecondaryOutcome(net.secondary(q))
    case Pause => Failed
  }

  // ---------------------------------------------------------------------------
  // Single text

  /** No provider is consulted for an English target or a blank text. */
  predicate IsFastPath(text: string, target: string) {
    target == English || IsBlank(text)
  }

  /** The fixed provider order for `text`. */
  function Chain(text: string, target: string): seq<Event> {
    [ToPrimary(PrimaryRequestFor(text, target)), ToSecondary(SecondaryRequestFor(text, target))]
  }

  /** `translateText` for a string argument. */
  function TranslateText(text: string, target: string, net: Network): (r: Run)
    // The fast path returns the input and calls nothing.
    ensures IsFastPath(text, target) ==> r == Run(text, [])
    // Otherwise the providers are called in the fixed order, primary first.
    ensures !IsFastPath(text, target) ==> r.trace != [] && r.trace <= Chain(text, target)
    // The chain stops at the first usable answer ...
    ensures forall k :: 0 <= k < |r.trace| - 1 ==> OutcomeOf(r.trace[k], net).Failed?
    // ... which is the result; with no usable answer the input comes back untouched.
    ensures r.trace != [] && OutcomeOf(r.trace[|r.trace| - 1], net).Translated? ==>
              r.text == OutcomeOf(r.trace[|r.trace| - 1], net).text
    ensures !IsFastPath(text, target) && |r.trace| < 2 ==> OutcomeOf(r.trace[0], net).Translated?
    ensures r.trace == [] || OutcomeOf(r.trace[|r.trace| - 1], net).Failed? ==> r.text == text
    // A non-empty text never turns into an empty one.
    ensures text != "" ==> r.text != ""
  {
    if target == English || text == "" || Trim(text) == "" then
      Run(text, [])
    else
      var primary := PrimaryRequestFor(text, target);
      var first := PrimaryOutcome(net.primary(primary));
      if first.Translated? then
        Run(first.text, [ToPrimary(primary)])
      else
        var secondary := SecondaryRequestFor(text, target);
        var second := SecondaryOutcome(net.secondary(secondary));
        if second.Translated? then
          Run(second.text, [ToPrimary(primary), ToSecondary(secondary)])
        else
          Run(text, [ToPrimary(primary), ToSecondary(secondary)])
  }

  /** A usable primary answer is returned and the secondary is never called. */
  lemma PrimaryWins(text: string, target: string, net: Network)
    requires !IsFastPath(text, target)
    requires PrimaryOutcome(net.primary(PrimaryRequestFor(text, target))).Translated?
    ensures TranslateText(text, target, net)
            == Run(PrimaryOutcome(net.primary(PrimaryRequestFor(text, target))).text,
                   [ToPrimary(PrimaryRequestFor(text, target))])
  {
    var r := TranslateText(text, target, net);
    assert r.trace[0] == ToPrimary(PrimaryRequestFor(text, target));
  }

  /** The secondary provider is called only after the primary failed, with
      the untrimmed text and English as the source language. */
  lemma SecondaryOnlyAfterPrimaryFails(text: string, target: string, net: Network, k: nat)
    requires k < |TranslateText(text, target, net).trace|
    requires TranslateText(text, target, net).trace[k].ToSecondary?
    ensures k == 1
    ensures PrimaryOutcome(net.primary(PrimaryRequestFor(text, target))).Failed?
    ensures TranslateText(text, target, net).trace[k].secondaryRequest == SecondaryRequest(text, English, target)
  {
    var r := TranslateText(text, target, net);
    assert r.trace[0] == ToPrimary(PrimaryRequestFor(text, target));
    assert r.trace[1] == Chain(text, target)[1];
  }

  /** When neither provider gives a usable answer the original, untrimmed
      text is returned. */
  lemma BothFailReturnsOriginal(text: string, target: string, net: Network)
    requires PrimaryOutcome(net.primary(PrimaryRequestFor(text, target))).Failed?
    requires SecondaryOutcome(net.secondary(SecondaryRequestFor(text, target))).Failed?
    ensures TranslateText(text, target, net).text == text
  {
    var r := TranslateText(text, target, net);
    if !IsFastPath(text, target) {
      assert r.trace[0] == Chain(text, target)[0];
      if |r.trace| == 2 {
        assert r.trace[1] == Chain(text, target)[1];
      }
    }
  }

  /** A blank but non-empty secondary answer is passed through to the caller. */
  lemma BlankSecondaryAnswerReturned(text: string, target: string, net: Network, t: string)
    requires !IsFastPath(text, target)
    requires PrimaryOutcome(net.primary(PrimaryRequestFor(text, target))).Failed?
    requires net.secondary(SecondaryRequestFor(text, target)) == SecondaryReply(true, Some(200), Some(t))
    requires t != "" && IsBlank(t)
    ensures TranslateText(text, target, net).text == t
  {
    var r := TranslateText(text, target, net);
    assert r.trace[0] == Chain(text, target)[0];
    assert r.trace[1] == Chain(text, target)[1];
  }

  // ---------------------------------------------------------------------------
  // Arbitrary JavaScript values

  /** The values a caller may place in the array handed to `translateTexts`:
      a string, or another JSON value, described by its truthiness. */
  datatype JsValue = Str(s: string) | NonString(truthy: bool, repr: string)

  /** How a call to `translateText` ended. */
  datatype Completion = Returned(value: JsValue) | Threw

  datatype ItemRun = ItemRun(completion: Completion, trace: seq<Event>)

  predicate IsFalsy(v: JsValue) {
    match v
    case Str(s) => s == ""
    case NonString(truthy, _) => !truthy
  }

  /** `translateText` applied to any value: a falsy value comes back as it is, a
      truthy non-string makes `text.trim()` throw a TypeError. */
  function TranslateValue(v: JsValue, target: string, net: Network): (r: ItemRun)
    ensures r.completion.Threw? <==> target != English && v.NonString? && v.truthy
    ensures r.completion.Threw? ==> r.trace == []
    ensures v.Str? ==>
      r == ItemRun(Returned(Str(TranslateText(v.s, target, net).text)), TranslateText(v.s, target, net).trace)
    ensures v.NonString? && r.completion.Returned? ==> r == ItemRun(Returned(v), [])
  {
    if target == English || IsFalsy(v) then
      ItemRun(Returned(v), [])
    else if v.NonString? then
      ItemRun(Threw, [])
    else
      var run := TranslateText(v.s, target, net);
      ItemRun(Returned(Str(run.text)), run.trace)
  }

  // ---------------------------------------------------------------------------
  // Batches

  /** The `texts` argument of `translateTexts`. */
  datatype JsBatch = JsArray(items: seq<JsValue>) | NotAnArray

  /** A batch event, tagged with the index of the item it belongs to. */
  datatype Step = Step(item: nat, event: Event)

  /** What lands in an item's output slot once its translation has run: the
      value `translateText` returned, or the item itself when it threw. */
  function SlotValue(v: JsValue, run: ItemRun): JsValue {
    if run.completion.Returned? then run.completion.value else v
  }

  /** The output slot of item `v` translated against `net`. */
  function ItemValue(v: JsValue, target: string, net: Network): JsValue {
    SlotValue(v, TranslateValue(v, target, net))
  }

  /** `run(i, items[i])` for the first `n` items. */
  function Runs(items: seq<JsValue>, n: nat, run: (nat, JsValue) -> ItemRun): (r: seq<ItemRun>)
    requires n <= |items|
    ensures |r| == n
  {
    if n == 0 then [] else Runs(items, n - 1, run) + [run(n - 1, items[n - 1])]
  }

  lemma {:induction false} RunsAt(items: seq<JsValue>, n: nat, run: (nat, JsValue) -> ItemRun, i: nat)
    requires i < n <= |items|
    ensures Runs(items, n, run)[i] == run(i, items[i])
  {
    if i < n - 1 {
      RunsAt(items, n - 1, run, i);
    }
  }

  /** The translations of the first `n` items, item `i` against `network(i)`. */
  function ItemRuns(items: seq<JsValue>, n: nat, target: string, network: nat -> Network): (r: seq<ItemRun>)
    requires n <= |items|
    ensures |r| == n
  {
    Runs(items, n, (j: nat, v: JsValue) => TranslateValue(v, target, network(j)))
  }

  lemma ItemRunsAt(items: seq<JsValue>, n: nat, target: string, network: nat -> Network, i: nat)
    requires i < n <= |items|
    ensures ItemRuns(items, n, target, network)[i] == TranslateValue(items[i], target, network(i))
  {
    RunsAt(items, n, (j: nat, v: JsValue) => TranslateValue(v, target, network(j)), i);
  }

  lemma ItemRunsSnoc(items: seq<JsValue>, n: nat, target: string, network: nat -> Network)
    requires n < |items|
    ensures ItemRuns(items, n + 1, target, network)
            == ItemRuns(items, n, target, network) + [TranslateValue(items[n], target, network(n))]
  {
  }

  /** Tags every event with the item index `i`. */
  function Tag(i: nat, es: seq<Event>): (r: seq<Step>)
    ensures |r| == |es|
    ensures forall k :: 0 <= k < |r| ==> r[k] == Step(i, es[k])
  {
    seq(|es|, k requires 0 <= k < |es| => Step(i, es[k]))
  }

  /** The steps of item `i`: its provider calls, then one pause unless it is the
      last item or its translation threw. */
  function ItemSteps(i: nat, run: ItemRun, isLast: bool): seq<Step> {
    Tag(i, run.trace) + (if run.completion.Returned? && !isLast then [Step(i, Pause)] else [])
  }

  /** The steps of the first `n` items of a batch of `size` items, in index order. */
  function StepsOf(runs: seq<ItemRun>, n: nat, size: nat): seq<Step>
    requires n <= |runs|
  {
    if n == 0 then [] else StepsOf(runs, n - 1, size) + ItemSteps(n - 1, runs[n - 1], n == size)
  }

  /** The steps of a whole batch. */
  function BatchSteps(items: seq<JsValue>, target: string, network: nat -> Network): seq<Step> {
    StepsOf(ItemRuns(items, |items|, target, network), |items|, |items|)
  }

  /** `StepsOf` reads only the runs it covers. */
  lemma {:induction false} StepsOfPrefix(runs: seq<ItemRun>, more: seq<ItemRun>, n: nat, size: nat)
    requires n <= |runs|
    ensures StepsOf(runs + more, n, size) == StepsOf(runs, n, size)
  {
    if n > 0 {
      StepsOfPrefix(runs, more, n - 1, size);
      assert (runs + more)[n - 1] == runs[n - 1];
    }
  }

  lemma StepsOfSnoc(runs: seq<ItemRun>, run: ItemRun, size: nat)
    ensures StepsOf(runs + [run], |runs| + 1, size) == StepsOf(runs, |runs|, size) + ItemSteps(|runs|, run, |runs| + 1 == size)
  {
    StepsOfPrefix(runs, [run], |runs|, size);
    assert (runs + [run])[|runs|] == run;
  }

  /** One iteration of the batch loop: translate item `i`, or substitute the
      item itself when the translation throws; pause afterwards unless it threw
      or it is the last item. */
  method TranslateItem(items: seq<JsValue>, i: nat, target: string, network: nat -> Network)
    returns (slot: JsValue, own: seq<Step>, run: ItemRun)
    requires i < |items|
    ensures run == TranslateValue(items[i], target, network(i))
    ensures slot == SlotValue(items[i], run)
    ensures own == ItemSteps(i, run, i + 1 == |items|)
  {
    var result := TranslateValue(items[i], target, network(i));
    run := result;
    if result.completion.Returned? {
      slot := result.completion.value;
      own := Tag(i, result.trace);
      if i < |items| - 1 {
        own := own + [Step(i, Pause)];
      }
    } else {
      // The per-item catch: the original item takes the failed slot.
      slot := items[i];
      own := [];
    }
  }

  /** The output slots for the runs of the first `|runs|` items. */
  function Slots(items: seq<JsValue>, runs: seq<ItemRun>): (r: seq<JsValue>)
    requires |runs| <= |items|
    ensures |r| == |runs|
  {
    if runs == [] then [] else Slots(items, runs[..|runs| - 1]) + [SlotValue(items[|runs| - 1], runs[|runs| - 1])]
  }

  lemma SlotsSnoc(items: seq<JsValue>, runs: seq<ItemRun>, run: ItemRun)
    requires |runs| < |items|
    ensures Slots(items, runs + [run]) == Slots(items, runs) + [SlotValue(items[|runs|], run)]
  {
    assert (runs + [run])[..|runs|] == runs;
  }

  lemma {:induction false} SlotsAt(items: seq<JsValue>, runs: seq<ItemRun>, k: nat)
    requires |runs| <= |items| && k < |runs|
    ensures Slots(items, runs)[k] == SlotValue(items[k], runs[k])
  {
    if k < |runs| - 1 {
      SlotsAt(items, runs[..|runs| - 1], k);
    }
  }

  /** The loop of `translateTexts` over a non-empty batch. */
  method TranslateItems(items: seq<JsValue>, target: string, network: nat -> Network)
    returns (out: seq<JsValue>, steps: seq<Step>)
    ensures |out| == |items|
    ensures out == Slots(items, ItemRuns(items, |items|, target, network))
    ensures steps == BatchSteps(items, target, network)
  {
    ghost var runs: seq<ItemRun> := [];
    out, steps := [], [];
    var i := 0;
    while i < |items|
      invariant 0 <= i <= |items|
      invariant runs == ItemRuns(items, i, target, network)
      invariant out == Slots(items, runs)
      invariant steps == StepsOf(runs, i, |items|)
    {
      var slot, own, run := TranslateItem(items, i, target, network);
      out := out + [slot];
      steps := steps + own;
      StepsOfSnoc(runs, run, |items|);
      SlotsSnoc(items, runs, run);
      ItemRunsSnoc(items, i, target, network);
      runs := runs + [run];
      i := i + 1;
    }
  }

  /** `translateTexts`. `network(i)` is what the providers answer while item `i`
      is being translated. */
  method TranslateTexts(texts: JsBatch, target: string, network: nat -> Network)
    returns (out: seq<JsValue>, steps: seq<Step>)
    ensures texts.NotAnArray? || texts.items == [] ==> out == [] && steps == []
    ensures texts.JsArray? && texts.items != [] && target == English ==> out == texts.items && steps == []
    ensures texts.JsArray? && target != English ==>
      && |out| == |texts.items|
      && (forall i :: 0 <= i < |out| ==> out[i] == ItemValue(texts.items[i], target, network(i)))
      && steps == BatchSteps(texts.items, target, network)
  {
    if texts.NotAnArray? || |texts.items| == 0 {
      return [], [];
    }
    if target == English {
      return texts.items, [];
    }
    var items := texts.items;
    out, steps := TranslateItems(items, target, network);
    forall k | 0 <= k < |items|
      ensures out[k] == ItemValue(items[k], target, network(k))
    {
      SlotsAt(items, ItemRuns(items, |items|, target, network), k);
      ItemRunsAt(items, |items|, target, network, k);
    }
  }

  /** Every output slot holds the translation of its own item or the item
      itself; a non-empty string never becomes empty. */
  lemma ItemValueIsTranslationOrOriginal(v: JsValue, target: string, net: Network)
    ensures ItemValue(v, target, net) == v
            || (v.Str? && ItemValue(v, target, net) == Str(TranslateText(v.s, target, net).text))
    ensures v.Str? ==> ItemValue(v, target, net).Str?
    ensures v.Str? && v.s != "" ==> ItemValue(v, target, net).s != ""
  {
  }

  /** Every step belongs to one of the first `n` items, in non-decreasing item order. */
  ghost predicate InItemOrder(steps: seq<Step>, n: nat) {
    && (forall k :: 0 <= k < |steps| ==> steps[k].item < n)
    && (forall a, b :: 0 <= a <= b < |steps| ==> steps[a].item <= steps[b].item)
  }

  lemma InItemOrderAppend(prefix: seq<Step>, own: seq<Step>, n: nat)
    requires InItemOrder(prefix, n)
    requires forall k :: 0 <= k < |own| ==> own[k].item == n
    ensures InItemOrder(prefix + own, n + 1)
  {
    var all := prefix + own;
    assert forall k :: 0 <= k < |all| ==> all[k] == if k < |prefix| then prefix[k] else own[k - |prefix|];
  }

  /** Items are processed in index order: the steps never go back to an earlier item. */
  lemma {:induction false} StepsInItemOrder(runs: seq<ItemRun>, n: nat)
    requires n <= |runs|
    ensures InItemOrder(StepsOf(runs, n, |runs|), n)
  {
    if n > 0 {
      StepsInItemOrder(runs, n - 1);
      InItemOrderAppend(StepsOf(runs, n - 1, |runs|), ItemSteps(n - 1, runs[n - 1], n == |runs|), n - 1);
    }
  }

  /** The number of pauses in a sequence of steps. */
  function CountPauses(steps: seq<Step>): nat {
    if steps == [] then 0
    else (if steps[|steps| - 1].event.Pause? then 1 else 0) + CountPauses(steps[..|steps| - 1])
  }

  lemma {:induction false} CountPausesAppend(a: seq<Step>, b: seq<Step>)
    ensures CountPauses(a + b) == CountPauses(a) + CountPauses(b)
  {
    if b != [] {
      assert (a + b)[..|a + b| - 1] == a + b[..|b| - 1];
      CountPausesAppend(a, b[..|b| - 1]);
    } else {
      assert a + b == a;
    }
  }

  /** A trace of provider calls only. */
  predicate CallsOnly(es: seq<Event>) {
    forall k :: 0 <= k < |es| ==> !es[k].Pause?
  }

  /** No provider trace holds a pause. */
  ghost predicate PauseFree(runs: seq<ItemRun>) {
    forall i :: 0 <= i < |runs| ==> CallsOnly(runs[i].trace)
  }

  /** A single translation never pauses. */
  lemma TraceHasNoPause(v: JsValue, target: string, net: Network)
    ensures CallsOnly(TranslateValue(v, target, net).trace)
  {
    if v.Str? && !IsFastPath(v.s, target) {
      var r := TranslateText(v.s, target, net);
      assert forall k :: 0 <= k < |r.trace| ==> r.trace[k] == Chain(v.s, target)[k];
    }
  }

  lemma BatchRunsPauseFree(items: seq<JsValue>, target: string, network: nat -> Network)
    ensures PauseFree(ItemRuns(items, |items|, target, network))
  {
    var runs := ItemRuns(items, |items|, target, network);
    forall i | 0 <= i < |runs|
      ensures CallsOnly(runs[i].trace)
    {
      ItemRunsAt(items, |items|, target, network, i);
      TraceHasNoPause(items[i], target, network(i));
    }
  }

  /** Tagging a pause-free trace adds no pause. */
  lemma {:induction false} NoPausesInTrace(i: nat, es: seq<Event>)
    requires CallsOnly(es)
    ensures CountPauses(Tag(i, es)) == 0
  {
    var t := Tag(i, es);
    if t != [] {
      assert Tag(i, es[..|es| - 1]) == t[..|t| - 1];
      NoPausesInTrace(i, es[..|es| - 1]);
    }
  }

  /** How many of the first `n` items are followed by a pause: those whose
      translation returned, other than the last item. */
  function PausedItems(runs: seq<ItemRun>, n: nat): nat
    requires n <= |runs|
  {
    if n == 0 then 0
    else PausedItems(runs, n - 1) + (if runs[n - 1].completion.Returned? && n < |runs| then 1 else 0)
  }

  /** An item contributes one pause when it returned and is not the last. */
  lemma ItemStepsPauses(i: nat, run: ItemRun, isLast: bool)
    requires CallsOnly(run.trace)
    ensures CountPauses(ItemSteps(i, run, isLast)) == if run.completion.Returned? && !isLast then 1 else 0
  {
    var tail := if run.completion.Returned? && !isLast then [Step(i, Pause)] else [];
    NoPausesInTrace(i, run.trace);
    CountPausesAppend(Tag(i, run.trace), tail);
    if tail != [] {
      assert tail[..0] == [];
    }
  }

  /** The pauses are exactly one per returning item other than the last. */
  lemma {:induction false} PauseCount(runs: seq<ItemRun>, n: nat)
    requires n <= |runs|
    requires PauseFree(runs)
    ensures CountPauses(StepsOf(runs, n, |runs|)) == PausedItems(runs, n)
  {
    if n > 0 {
      var prev := StepsOf(runs, n - 1, |runs|);
      var own := ItemSteps(n - 1, runs[n - 1], n == |runs|);
      assert StepsOf(runs, n, |runs|) == prev + own;
      PauseCount(runs, n - 1);
      ItemStepsPauses(n - 1, runs[n - 1], n == |runs|);
      CountPausesAppend(prev, own);
    }
  }

  lemma {:induction false} AllReturnedPaused(runs: seq<ItemRun>, n: nat)
    requires n <= |runs|
    requires forall i :: 0 <= i < n ==> runs[i].completion.Returned?
    ensures PausedItems(runs, n) == if n == |runs| && n > 0 then n - 1 else n
  {
    if n > 0 {
      AllReturnedPaused(runs, n - 1);
    }
  }

  /** When no item throws, `n` items are separated by exactly `n - 1` pauses. */
  lemma PacingBetweenItems(items: seq<JsValue>, target: string, network: nat -> Network)
    requires items != []
    requires forall i :: 0 <= i < |items| ==> TranslateValue(items[i], target, network(i)).completion.Returned?
    ensures CountPauses(BatchSteps(items, target, network)) == |items| - 1
  {
    var runs := ItemRuns(items, |items|, target, network);
    forall i | 0 <= i < |items|
      ensures runs[i].completion.Returned?
    {
      ItemRunsAt(items, |items|, target, network, i);
    }
    BatchRunsPauseFree(items, target, network);
    PauseCount(runs, |items|);
    AllReturnedPaused(runs, |items|);
  }

  /** No pause is tagged with the last item. */
  lemma {:induction false} NoPauseAfterLast(runs: seq<ItemRun>, n: nat)
    requires n <= |runs|
    requires PauseFree(runs)
    ensures forall k :: (0 <= k < |StepsOf(runs, n, |runs|)| && StepsOf(runs, n, |runs|)[k].event.Pause?) ==>
              StepsOf(runs, n, |runs|)[k].item < |runs| - 1
  {
    if n > 0 {
      NoPauseAfterLast(runs, n - 1);
      var own := Tag(n - 1, runs[n - 1].trace);
      assert forall k :: 0 <= k < |own| ==> !own[k].event.Pause?;
    }
  }

  // ---------------------------------------------------------------------------
  // Language registry

  datatype Language = Language(code: string, name: string)

  /** `supportedLanguages`, in the source's order. */
  const SupportedLanguages: seq<Language> := [
    Language("en", "English"), Language("es", "Spanish"), Language("fr", "French"),
    Language("de", "German"), Language("it", "Italian"), Language("pt", "Portuguese"),
    Language("ru", "Russian"), Language("ja", "Japanese"), Language("ko", "Korean"),
    Language("zh", "Chinese"), Language("hi", "Hindi"), Language("ar", "Arabic"),
    Language("tr", "Turkish"), Language("pl", "Polish"), Language("nl", "Dutch"),
    Language("sv", "Swedish"), Language("da", "Danish"), Language("no", "Norwegian"),
    Language("fi", "Finnish"), Language("cs", "Czech"), Language("el", "Greek"),
    Language("he", "Hebrew"), Language("th", "Thai"), Language("vi", "Vietnamese"),
    Language("id", "Indonesian"), Language("ms", "Malay"), Language("tl", "Filipino"),
    Language("sw", "Swahili"), Language("bn", "Bengali"), Language("ta", "Tamil"),
    Language("te", "Telugu"), Language("mr", "Marathi"), Language("gu", "Gujarati"),
    Language("kn", "Kannada"), Language("ml", "Malayalam"), Language("pa", "Punjabi"),
    Language("ur", "Urdu")
  ]

  /** The registry has 37 entries and lists English first. */
  lemma SupportedLanguagesSize()
    ensures |SupportedLanguages| == 37
    ensures SupportedLanguages[0] == Language(English, "English")
  {
  }

  /** Two lower-case ASCII letters. */
  predicate IsTwoLetterCode(code: string) {
    |code| == 2 && 'a' <= code[0] <= 'z' && 'a' <= code[1] <= 'z'
  }

  lemma CodesTwoLettersRows0To18()
    ensures forall i :: 0 <= i < 18 ==> IsTwoLetterCode(SupportedLanguages[i].code)
  {
  }

  lemma CodesTwoLettersRows18To37()
    ensures forall i :: 18 <= i < 37 ==> IsTwoLetterCode(SupportedLanguages[i].code)
  {
  }

  /** Every code is two lower-case letters. */
  lemma SupportedLanguageCodesAreTwoLetters()
    ensures forall i :: 0 <= i < |SupportedLanguages| ==> IsTwoLetterCode(SupportedLanguages[i].code)
  {
    CodesTwoLettersRows0To18();
    CodesTwoLettersRows18To37();
  }

  // Distinctness is proved in bands of rows, each band against every later row.

  lemma CodesDistinctRows0To1()
    ensures forall i, j :: 0 <= i < 1 && i < j < |SupportedLanguages| ==>
              SupportedLanguages[i].code != SupportedLanguages[j].code
  {
  }

  lemma CodesDistinctRows1To3()
    ensures forall i, j :: 1 <= i < 3 && i < j < |SupportedLanguages| ==>
              SupportedLanguages[i].code != SupportedLanguages[j].code
  {
  }

  lemma CodesDistinctRows3To8()
    ensures forall i, j :: 3 <= i < 8 && i < j < |SupportedLanguages| ==>
              SupportedLanguages[i].code != SupportedLanguages[j].code
  {
  }

  lemma CodesDistinctRows8To16()
    ensures forall i, j :: 8 <= i < 16 && i < j < |SupportedLanguages| ==>
              SupportedLanguages[i].code != SupportedLanguages[j].code
  {
  }

  lemma CodesDistinctRows16To37()
    ensures forall i, j :: 16 <= i < 37 && i < j < |SupportedLanguages| ==>
              SupportedLanguages[i].code != SupportedLanguages[j].code
  {
  }

  /** No code is listed twice. */
  lemma SupportedLanguageCodesDistinct()
    ensures forall i, j :: 0 <= i < j < |SupportedLanguages| ==>
              SupportedLanguages[i].code != SupportedLanguages[j].code
  {
    CodesDistinctRows0To1();
    CodesDistinctRows1To3();
    CodesDistinctRows3To8();
    CodesDistinctRows8To16();
    CodesDistinctRows16To37();
  }
}
