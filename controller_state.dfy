/**
 * Value-level model of the state that one `Autocompleter<T>` keeps for the
 * input field it is bound to: the configuration, the two hook lists, the
 * current selection, the field's text and its `data-autocomplete-item`
 * attribute.  Every operation of the controller is a function from the old
 * state to the new one; the class in module AutocompleteWidget is proved
 * against these functions, and the lemmas below state what the controller
 * promises about them.
 */
module ControllerState {

  datatype Option<T> = None | Some(value: T)

  datatype Result<R, E> = Success(value: R) | Failure(error: E)

  /** The one distinguished failure: fetching before a fetcher was installed. */
  datatype FetchError = FetcherNotInstalled

  /**
   * A rendered suggestion row, abstracted to what the controller and its
   * render hooks can see of it: the element's tag, its text content and its
   * class list.
   */
  datatype Element = Element(tag: string, text: string, classes: set<string>)

  const DefaultClassName: string := "autocomplete-widget"
  const DefaultMinLength: int := 2
  const DefaultEmptyMsg: string := "No matches found"
  const DefaultDebounceWaitMs: int := 1000
  /** Class marker every default row carries. */
  const ItemClass: string := "ac-item"

  /** Maps an item to its canonical display text. */
  type Extractor<!T> = T -> string
  /** What the caller's fetcher resolves to for a query text. */
  type Fetcher<T> = string -> seq<T>
  /** A render callback: (element so far, item, current query) to element. */
  type RenderHook<!T> = (Element, T, string) -> Element
  /**
   * A select callback is known only by identity: its effects are invisible
   * to the controller, so the model records each call in a trace instead.
   */
  type HookId = nat

  /**
   * One call of a select hook: which registered position and hook were
   * called, with which item, and what the controller's selection, field text
   * and attribute were at the moment of the call.
   */
  datatype SelectCall<T> = SelectCall(
    position: nat,
    hook: HookId,
    item: T,
    selectedAtCall: Option<T>,
    valueAtCall: string,
    attrAtCall: Option<string>)

  datatype State<!T> = State(
    className: string,
    minLength: int,
    emptyMsg: string,
    debounceWaitMs: Option<int>,
    strictValue: bool,
    fetcher: Option<Fetcher<T>>,
    valueExtractor: Extractor<T>,
    renderHooks: seq<RenderHook<T>>,
    selectHooks: seq<HookId>,
    selected: Option<T>,
    inputValue: string,
    dataAttr: Option<string>,
    selectTrace: seq<SelectCall<T>>)

  // ---------------------------------------------------------------------
  // Reconciliation: expected text, reset and the change handler
  // ---------------------------------------------------------------------

  /** The text the field should show: the selection's extractor text, or `""`. */
  function Expected<T>(s: State<T>): string
  {
    match s.selected
    case Some(item) => s.valueExtractor(item)
    case None => ""
  }

  /** The field shows exactly what the selection says it should. */
  predicate Consistent<T>(s: State<T>)
  {
    Expected(s) == s.inputValue
  }

  /** `reset()`: drop the selection, empty the field, delete the attribute. */
  function Reset<T>(s: State<T>): State<T>
  {
    s.(selected := None, inputValue := "", dataAttr := None)
  }

  /**
   * The change listener: nothing happens when the field shows the expected
   * text; otherwise the state is reset exactly when strict-value enforcement
   * is on.  The selection is tested for presence (see ChangeAsWritten for the
   * source's truthiness test).
   */
  function Change<T>(s: State<T>): State<T>
  {
    if Expected(s) == s.inputValue then s
    else if s.strictValue then Reset(s)
    else s
  }

  /** The three phases of the selection state machine. */
  datatype Phase = Empty | Committed | Diverged

  function PhaseOf<T>(s: State<T>): Phase
  {
    if s.selected.None? then Empty
    else if Consistent(s) then Committed
    else Diverged
  }

  lemma ResetClears<T>(s: State<T>)
    ensures Reset(s).selected == None && Reset(s).inputValue == "" && Reset(s).dataAttr == None
    ensures PhaseOf(Reset(s)) == Empty && Consistent(Reset(s))
    ensures Reset(Reset(s)) == Reset(s)
    ensures Reset(s).(selected := s.selected, inputValue := s.inputValue, dataAttr := s.dataAttr) == s
  {
  }

  /** A consistent field is left alone, whatever the strict flag says. */
  lemma ChangeKeepsConsistent<T>(s: State<T>)
    requires Consistent(s)
    ensures Change(s) == s
    ensures Change(s.(strictValue := !s.strictValue)) == s.(strictValue := !s.strictValue)
  {
  }

  /**
   * On divergence the strict flag alone decides: the change handler changes
   * the state if and only if strict-value enforcement is on, and when it
   * does, the result is exactly `reset()`'s.
   */
  lemma DivergenceDecidedByStrict<T>(s: State<T>)
    requires !Consistent(s)
    ensures Change(s) == (if s.strictValue then Reset(s) else s)
    ensures Change(s) != s <==> s.strictValue
  {
  }

  /** With strict-value enforcement on, the change handler always ends consistent. */
  lemma StrictChangeEndsConsistent<T>(s: State<T>)
    requires s.strictValue
    ensures Consistent(Change(s))
    ensures Change(s) == s || Change(s) == Reset(s)
  {
  }

  /** The handler's effect phase by phase (the state machine's transitions). */
  lemma ChangeByPhase<T>(s: State<T>)
    ensures PhaseOf(s) == Committed ==> Change(s) == s
    ensures PhaseOf(s) == Diverged && s.strictValue ==>
              PhaseOf(Change(s)) == Empty && Change(s) == Reset(s)
    ensures PhaseOf(s) == Diverged && !s.strictValue ==>
              Change(s) == s && PhaseOf(Change(s)) == Diverged
    ensures PhaseOf(s) == Empty ==>
              Change(s) == (if s.inputValue != "" && s.strictValue then Reset(s) else s)
  {
  }

  lemma ChangeIdempotent<T>(s: State<T>)
    ensures Change(Change(s)) == Change(s)
  {
  }

  // ---------------------------------------------------------------------
  // The select adapter
  // ---------------------------------------------------------------------

  /** The commit part of the select adapter, before any hook runs. */
  function Commit<T>(s: State<T>, item: T, serialize: T -> string): State<T>
  {
    s.(selected := Some(item),
       inputValue := s.valueExtractor(item),
       dataAttr := Some(serialize(item)))
  }

  /** One call per registered select hook, in registration order, all seeing `at`. */
  function HookCalls<T>(hooks: seq<HookId>, item: T, at: State<T>): seq<SelectCall<T>>
  {
    seq(|hooks|, k requires 0 <= k < |hooks| =>
      SelectCall(k, hooks[k], item, at.selected, at.inputValue, at.dataAttr))
  }

  /** The select adapter: commit, then call every select hook in order. */
  function Select<T>(s: State<T>, item: T, serialize: T -> string): State<T>
  {
    var c := Commit(s, item, serialize);
    c.(selectTrace := c.selectTrace + HookCalls(c.selectHooks, item, c))
  }

  /**
   * After the select adapter: the selection is the item, the field shows its
   * extractor text, the attribute holds its serialisation, every hook was
   * called once in registration order with the item after the commit, and
   * nothing else changed.
   */
  lemma SelectCommits<T>(s: State<T>, item: T, serialize: T -> string)
    ensures var r := Select(s, item, serialize);
      && r.selected == Some(item)
      && r.inputValue == s.valueExtractor(item)
      && r.dataAttr == Some(serialize(item))
      && PhaseOf(r) == Committed
      && |r.selectTrace| == |s.selectTrace| + |s.selectHooks|
      && r.selectTrace[..|s.selectTrace|] == s.selectTrace
      && (forall k :: 0 <= k < |s.selectHooks| ==>
            r.selectTrace[|s.selectTrace| + k] ==
              SelectCall(k, s.selectHooks[k], item, Some(item),
                         s.valueExtractor(item), Some(serialize(item))))
      && r.(selected := s.selected, inputValue := s.inputValue,
            dataAttr := s.dataAttr, selectTrace := s.selectTrace) == s
  {
  }

  /**
   * After a commit of `item` the user edits the field to `v` and the change
   * notification fires: restoring the extractor text is never reset; any
   * other text is wiped in strict mode and kept, with the stale selection, in
   * lenient mode.
   */
  lemma ChangeAfterEdit<T>(s: State<T>, item: T, serialize: T -> string, v: string)
    ensures var c := Select(s, item, serialize).(inputValue := v);
      && (v == s.valueExtractor(item) ==> Change(c) == c)
      && (v != s.valueExtractor(item) && s.strictValue ==>
            Change(c).selected == None && Change(c).inputValue == "" && Change(c).dataAttr == None)
      && (v != s.valueExtractor(item) && !s.strictValue ==>
            Change(c).selected == Some(item) && Change(c).inputValue == v &&
            Change(c).dataAttr == Some(serialize(item)))
  {
  }

  // ---------------------------------------------------------------------
  // The source's truthiness test (see the Findings in README.md)
  // ---------------------------------------------------------------------

  /**
   * `Expected` as the source writes it: the selection counts only when the
   * item is truthy in JavaScript's sense, which `truthy` stands for.
   */
  function ExpectedAsWritten<T>(s: State<T>, truthy: T -> bool): string
  {
    if s.selected.Some? && truthy(s.selected.value) then s.valueExtractor(s.selected.value) else ""
  }

  function ChangeAsWritten<T>(s: State<T>, truthy: T -> bool): State<T>
  {
    if ExpectedAsWritten(s, truthy) == s.inputValue then s
    else if s.strictValue then Reset(s)
    else s
  }

  /** For truthy selections (every object item) the two handlers agree. */
  lemma ChangeAsWrittenAgrees<T>(s: State<T>, truthy: T -> bool)
    requires s.selected.Some? ==> truthy(s.selected.value)
    ensures ChangeAsWritten(s, truthy) == Change(s)
  {
  }

  /**
   * With numeric items, committing the item 0 (shown as "0") and letting the
   * change notification fire wipes the field in the source, while the
   * presence test keeps the commit.
   */
  lemma FalsyItemWipedAsWritten()
    ensures var show := (n: int) => if n == 0 then "0" else "n";
      var s := State(DefaultClassName, DefaultMinLength, DefaultEmptyMsg,
                     Some(DefaultDebounceWaitMs), true, None, show, [], [],
                     None, "0", None, []);
      var c := Select(s, 0, show);
      && ChangeAsWritten(c, (n: int) => n != 0) == Reset(c)
      && ChangeAsWritten(c, (n: int) => n != 0).selected == None
      && Change(c) == c
  {
  }

  /** The corrected handler never undoes a commit that the user left alone. */
  lemma ChangeAfterSelectIsNoOp<T>(s: State<T>, item: T, serialize: T -> string)
    ensures Change(Select(s, item, serialize)) == Select(s, item, serialize)
  {
  }

  // ---------------------------------------------------------------------
  // The render adapter
  // ---------------------------------------------------------------------

  /** The row the render adapter builds before any hook runs. */
  function DefaultElement(text: string): Element
  {
    Element("div", text, {ItemClass})
  }

  /** Left fold of the render hooks, first registered first. */
  function RenderFold<T>(hooks: seq<RenderHook<T>>, element: Element, item: T, query: string): Element
    decreases |hooks|
  {
    if |hooks| == 0 then element
    else RenderFold(hooks[1..], hooks[0](element, item, query), item, query)
  }

  /** What the render adapter returns for `item` and the query text. */
  function Render<T>(s: State<T>, item: T, query: string): Element
  {
    RenderFold(s.renderHooks, DefaultElement(s.valueExtractor(item)), item, query)
  }

  /** A hook appended last is applied last, to what the earlier hooks produced. */
  lemma {:induction false} RenderFoldSnoc<T>(hooks: seq<RenderHook<T>>, h: RenderHook<T>,
                                              element: Element, item: T, query: string)
    ensures RenderFold(hooks + [h], element, item, query) == h(RenderFold(hooks, element, item, query), item, query)
    decreases |hooks|
  {
    if |hooks| == 0 {
      assert hooks + [h] == [h];
    } else {
      assert (hooks + [h])[1..] == hooks[1..] + [h];
      RenderFoldSnoc(hooks[1..], h, hooks[0](element, item, query), item, query);
    }
  }

  lemma RenderNoHooks<T>(s: State<T>, item: T, query: string)
    requires s.renderHooks == []
    ensures Render(s, item, query) == Element("div", s.valueExtractor(item), {"ac-item"})
  {
  }

  lemma RenderTwoHooks<T>(s: State<T>, h1: RenderHook<T>, h2: RenderHook<T>, item: T, query: string)
    requires s.renderHooks == [h1, h2]
    ensures Render(s, item, query) == h2(h1(DefaultElement(s.valueExtractor(item)), item, query), item, query)
  {
    var d := DefaultElement(s.valueExtractor(item));
    assert [h1, h2] == [h1] + [h2];
    RenderFoldSnoc([h1], h2, d, item, query);
    assert [h1][1..] == [];
    assert RenderFold([h1], d, item, query) == h1(d, item, query);
  }

  // ---------------------------------------------------------------------
  // Hook registration
  // ---------------------------------------------------------------------

  function AddRenderHook<T>(s: State<T>, h: RenderHook<T>): State<T>
  {
    s.(renderHooks := s.renderHooks + [h])
  }

  function AddSelectHook<T>(s: State<T>, h: HookId): State<T>
  {
    s.(selectHooks := s.selectHooks + [h])
  }

  /** Chained `onRender(h1).onRender(h2)...` calls. */
  function RegisterRenderHooks<T>(s: State<T>, hooks: seq<RenderHook<T>>): State<T>
    decreases |hooks|
  {
    if |hooks| == 0 then s else RegisterRenderHooks(AddRenderHook(s, hooks[0]), hooks[1..])
  }

  /** Chained `onSelect(h1).onSelect(h2)...` calls. */
  function RegisterSelectHooks<T>(s: State<T>, hooks: seq<HookId>): State<T>
    decreases |hooks|
  {
    if |hooks| == 0 then s else RegisterSelectHooks(AddSelectHook(s, hooks[0]), hooks[1..])
  }

  /** Registration is append-only: earlier hooks stay, new ones follow in call order. */
  lemma {:induction false} RegisterRenderHooksAppends<T>(s: State<T>, hooks: seq<RenderHook<T>>)
    ensures RegisterRenderHooks(s, hooks) == s.(renderHooks := s.renderHooks + hooks)
    decreases |hooks|
  {
    if |hooks| == 0 {
      assert s.renderHooks + hooks == s.renderHooks;
    } else {
      RegisterRenderHooksAppends(AddRenderHook(s, hooks[0]), hooks[1..]);
      assert s.renderHooks + [hooks[0]] + hooks[1..] == s.renderHooks + hooks;
    }
  }

  lemma {:induction false} RegisterSelectHooksAppends<T>(s: State<T>, hooks: seq<HookId>)
    ensures RegisterSelectHooks(s, hooks) == s.(selectHooks := s.selectHooks + hooks)
    decreases |hooks|
  {
    if |hooks| == 0 {
      assert s.selectHooks + hooks == s.selectHooks;
    } else {
      RegisterSelectHooksAppends(AddSelectHook(s, hooks[0]), hooks[1..]);
      assert s.selectHooks + [hooks[0]] + hooks[1..] == s.selectHooks + hooks;
    }
  }

  /** Registering one more render hook post-composes it onto the rendered row. */
  lemma RenderAfterAddRenderHook<T>(s: State<T>, h: RenderHook<T>, item: T, query: string)
    ensures Render(AddRenderHook(s, h), item, query) == h(Render(s, item, query), item, query)
  {
    RenderFoldSnoc(s.renderHooks, h, DefaultElement(s.valueExtractor(item)), item, query);
  }

  /**
   * Hooks registered one by one, after any earlier ones, are called by the
   * select adapter after those earlier hooks and in exactly their
   * registration order, each after the commit.
   */
  lemma SelectCallsRegisteredInOrder<T>(s: State<T>, hooks: seq<HookId>, item: T, serialize: T -> string)
    ensures var r := Select(RegisterSelectHooks(s, hooks), item, serialize);
      var n := |s.selectTrace| + |s.selectHooks|;
      && |r.selectTrace| == n + |hooks|
      && forall k :: 0 <= k < |hooks| ==>
           r.selectTrace[n + k].hook == hooks[k] &&
           r.selectTrace[n + k].position == |s.selectHooks| + k &&
           r.selectTrace[n + k].selectedAtCall == Some(item) &&
           r.selectTrace[n + k].valueAtCall == s.valueExtractor(item)
  {
    RegisterSelectHooksAppends(s, hooks);
    SelectCommits(RegisterSelectHooks(s, hooks), item, serialize);
  }

  // ---------------------------------------------------------------------
  // Sessions: sequences of events on one field
  // ---------------------------------------------------------------------

  /**
   * What can happen to a bound field: the engine commits a pick, the user
   * edits the text, the field fires its change notification, the caller
   * calls `reset()`, one of the setters, or registers a hook.
   */
  datatype Event<!T> =
    | Pick(item: T)
    | Edit(text: string)
    | ChangeNotification
    | ResetCall
    | SetClassName(className: string)
    | SetMinLength(minLength: int)
    | SetEmptyMsg(emptyMsg: string)
    | SetDebounceWaitMs(waitMs: int)
    | SetStrict(strict: bool)
    | SetFetcher(fetcher: Fetcher<T>)
    | SetExtractor(extractor: Extractor<T>)
    | AddRender(renderHook: RenderHook<T>)
    | AddSelect(selectHook: HookId)

  function Step<T>(s: State<T>, e: Event<T>, serialize: T -> string): State<T>
  {
    match e
    case Pick(item) => Select(s, item, serialize)
    case Edit(text) => s.(inputValue := text)
    case ChangeNotification => Change(s)
    case ResetCall => Reset(s)
    case SetClassName(name) => s.(className := name)
    case SetMinLength(n) => s.(minLength := n)
    case SetEmptyMsg(msg) => s.(emptyMsg := msg)
    case SetDebounceWaitMs(ms) => s.(debounceWaitMs := Some(ms))
    case SetStrict(b) => s.(strictValue := b)
    case SetFetcher(f) => s.(fetcher := Some(f))
    case SetExtractor(f) => s.(valueExtractor := f)
    case AddRender(h) => AddRenderHook(s, h)
    case AddSelect(h) => AddSelectHook(s, h)
  }

  function Run<T>(s: State<T>, events: seq<Event<T>>, serialize: T -> string): State<T>
    decreases |events|
  {
    if |events| == 0 then s else Run(Step(s, events[0], serialize), events[1..], serialize)
  }

  /** The attribute holds the serialisation of the selection, and only then. */
  ghost predicate AttrTracksSelection<T>(s: State<T>, serialize: T -> string)
  {
    s.dataAttr == (if s.selected.Some? then Some(serialize(s.selected.value)) else None)
  }

  /** Every recorded select-hook call saw the item already committed. */
  ghost predicate TraceSawCommit<T>(trace: seq<SelectCall<T>>, serialize: T -> string)
  {
    forall k :: 0 <= k < |trace| ==>
      trace[k].selectedAtCall == Some(trace[k].item) &&
      trace[k].attrAtCall == Some(serialize(trace[k].item))
  }

  lemma SelectKeepsTraceSawCommit<T>(s: State<T>, item: T, serialize: T -> string)
    requires TraceSawCommit(s.selectTrace, serialize)
    ensures TraceSawCommit(Select(s, item, serialize).selectTrace, serialize)
  {
    SelectCommits(s, item, serialize);
  }

  lemma {:induction false} RunKeepsAttrTracksSelection<T>(s: State<T>, events: seq<Event<T>>, serialize: T -> string)
    requires AttrTracksSelection(s, serialize)
    ensures AttrTracksSelection(Run(s, events, serialize), serialize)
    decreases |events|
  {
    if |events| > 0 {
      RunKeepsAttrTracksSelection(Step(s, events[0], serialize), events[1..], serialize);
    }
  }

  lemma {:induction false} RunKeepsTraceSawCommit<T>(s: State<T>, events: seq<Event<T>>, serialize: T -> string)
    requires TraceSawCommit(s.selectTrace, serialize)
    ensures TraceSawCommit(Run(s, events, serialize).selectTrace, serialize)
    decreases |events|
  {
    if |events| > 0 {
      if events[0].Pick? {
        SelectKeepsTraceSawCommit(s, events[0].item, serialize);
      }
      RunKeepsTraceSawCommit(Step(s, events[0], serialize), events[1..], serialize);
    }
  }

  /**
   * A selection only ever comes from a commit: at the end of a session the
   * selection is absent, the one the session started with, or an item one
   * of its Pick events committed.
   */
  lemma {:induction false} RunSelectionWasPicked<T>(s: State<T>, events: seq<Event<T>>, serialize: T -> string)
    ensures var r := Run(s, events, serialize);
      r.selected == None || r.selected == s.selected ||
      exists k :: 0 <= k < |events| && events[k] == Pick(r.selected.value)
    decreases |events|
  {
    if |events| > 0 {
      var t := Step(s, events[0], serialize);
      var r := Run(s, events, serialize);
      RunSelectionWasPicked(t, events[1..], serialize);
      if r.selected != None && r.selected != s.selected {
        if r.selected == t.selected {
          assert events[0] == Pick(r.selected.value);
        } else {
          var k :| 0 <= k < |events[1..]| && events[1..][k] == Pick(r.selected.value);
          assert events[k + 1] == Pick(r.selected.value);
        }
      }
    }
  }

  /**
   * The other half of the selection's lifecycle: only `reset()`, called
   * directly or by the change handler, clears a selection; a session without
   * either keeps one.
   */
  lemma {:induction false} RunClearedOnlyByReset<T>(s: State<T>, events: seq<Event<T>>, serialize: T -> string)
    requires s.selected.Some?
    requires forall k :: 0 <= k < |events| ==> !events[k].ResetCall? && !events[k].ChangeNotification?
    ensures Run(s, events, serialize).selected.Some?
    decreases |events|
  {
    if |events| > 0 {
      RunClearedOnlyByReset(Step(s, events[0], serialize), events[1..], serialize);
    }
  }
}
