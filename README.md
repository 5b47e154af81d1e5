# Autocompleter controller, modelled in Dafny

This project models `Autocompleter<T>`. That is the controller that attaches typeahead behaviour to one text input. It keeps this state for the bound field:

- the item the user last committed (`selected`);
- the field's text (`inputValue`);
- the field's `data-autocomplete-item` attribute (`dataAttr`);
- the configuration: class name, minimum length, empty message, debounce interval and strict-value flag;
- the optional fetcher and the replaceable value extractor;
- the ordered render-hook and select-hook lists.

The project has two modules:

- `ControllerState` (`controller_state.dfy`) holds the whole state as a value, `State<T>`, and defines each operation as a function from the old state to the new one. These are `Reset`, `Change` (the change listener), `Select` (the select adapter), `Render` (the render adapter, a left fold of the render hooks) and the hook registrations. The lemmas there state what the controller promises:
  - a commit makes the field show the extractor text;
  - a reset wipes everything and is idempotent;
  - on divergence, the strict flag alone decides whether a reset happens;
  - hooks run in registration order;
  - over any session of picks, edits, change notifications, resets, setter calls and hook registrations: once the attribute holds the selection's serialisation (or is absent with no selection), every later step keeps it so; a selection only ever comes from a pick; and only a reset clears it. A field bound with an attribute already present starts out of step, and stays so until the first pick or reset.
- `AutocompleteWidget` (`autocompleter.dfy`) holds the class `Autocompleter<T>`. Its fields follow the source's, with the field element split into its text and attribute, plus the serialiser and a ghost call trace. Its methods update them in place. Each state-changing method is proved to leave `Snapshot()` equal to the old snapshot transformed by the matching `ControllerState` function, or, for the setters, by a record update of that one field. The fluent setters return `this`. `EditAfterPick` is a small client: from the class contracts alone it derives the strict and lenient outcomes of editing the field after a pick.

How the outside world is represented:

- The value extractor and the serialiser for the attribute are opaque functions `T -> string`. The serialiser is fixed at construction.
- The fetcher is modelled as the function from the query text to the sequence its promise resolves to.
- A rendered row is the record `Element(tag, text, classes)`. Render hooks are pure functions on it.
- Select hooks are known only by an identifier (`HookId`). The select adapter records each call in a ghost trace: the hook's position, the hook, the item, and the selection, field text and attribute at the time of the call.
- The field's initial text and attribute are constructor parameters.

Two consequences of the code worth stating:

- The debounce interval defaults to 1000 ms (`src/autocompleter.ts:15`), and the setter always installs a value, so it is never absent in the model.
- With no selection the expected text is `''`, so in strict mode a change notification also wipes free text typed without a pick (`ControllerState.ChangeByPhase`, the `Empty` case).

## Model

| member | source | states |
|---|---|---|
| `AutocompleteWidget.Autocompleter.constructor` | src/autocompleter.ts:12-29 | defaults: class name `autocomplete-widget`, `minLength` 2, empty message `No matches found`, debounce 1000, strict on, submit prevention and auto-select suppression on; no fetcher, no hooks, no selection; the field keeps its text and attribute |
| `AutocompleteWidget.Autocompleter.OnChange` | src/autocompleter.ts:32-44 | the listener's new state is `Change` of the old one |
| `AutocompleteWidget.Autocompleter.SetClassName` | src/autocompleter.ts:47-50 | only the class name changes; returns the same object |
| `AutocompleteWidget.Autocompleter.SetMinLength` | src/autocompleter.ts:52-55 | only `minLength` changes; returns the same object |
| `AutocompleteWidget.Autocompleter.SetEmptyMsg` | src/autocompleter.ts:57-60 | only the empty message changes; returns the same object |
| `AutocompleteWidget.Autocompleter.SetDebounceWaitMs` | src/autocompleter.ts:62-65 | only the debounce interval changes, to the given value; returns the same object |
| `AutocompleteWidget.Autocompleter.SetStrictValue` | src/autocompleter.ts:67-70 | only the strict flag changes; returns the same object |
| `AutocompleteWidget.Autocompleter.SetFetcher` | src/autocompleter.ts:72-75 | only the fetcher slot changes, to the given fetcher (replacing any earlier one); returns the same object |
| `AutocompleteWidget.Autocompleter.OnRender` | src/autocompleter.ts:77-80 | the callback is appended after all earlier render hooks; nothing else changes; returns the same object |
| `AutocompleteWidget.Autocompleter.OnSelect` | src/autocompleter.ts:82-85 | the callback is appended after all earlier select hooks; nothing else changes; returns the same object |
| `AutocompleteWidget.Autocompleter.SetValueExtractor` | src/autocompleter.ts:87-90 | only the extractor changes; returns the same object |
| `AutocompleteWidget.Autocompleter.GetSelectedItem` | src/autocompleter.ts:92-94 | returns the current selection, or its absence, and changes nothing |
| `AutocompleteWidget.Autocompleter.Reset` | src/autocompleter.ts:96-100 | the new state is `Reset` of the old one: no selection, empty text, no attribute, all else unchanged |
| `AutocompleteWidget.Autocompleter.FetchAdapter` | src/autocompleter.ts:114-123 | fails with `FetcherNotInstalled` if and only if no fetcher is installed; otherwise delivers exactly the fetcher's result for the unchanged query text |
| `AutocompleteWidget.Autocompleter.SelectAdapter` | src/autocompleter.ts:125-130 | the new state is `Select` of the old one; keeps the invariant that every hook call saw the committed item |
| `AutocompleteWidget.Autocompleter.RenderAdapter` | src/autocompleter.ts:132-142 | the result is the left fold of the render hooks, in registration order, over a `div` showing the extractor text with class `ac-item` |
| `ControllerState.ResetClears` | src/autocompleter.ts:96-100 | after a reset: no selection, empty text, no attribute, the state is consistent; a second reset changes nothing; only those three fields differ from before |
| `ControllerState.ChangeKeepsConsistent` | src/autocompleter.ts:33-39 | when the text equals the expected text, the handler changes nothing, with the strict flag either way |
| `ControllerState.DivergenceDecidedByStrict` | src/autocompleter.ts:37-43 | on a mismatch the handler gives exactly `reset()`'s state when strict and the unchanged state otherwise; it changes the state if and only if strict is on |
| `ControllerState.StrictChangeEndsConsistent` | src/autocompleter.ts:33-43 | with strict on, the handler's result is always consistent, and is either the old state or its reset |
| `ControllerState.ChangeByPhase` | src/autocompleter.ts:32-44 | the transitions by phase: Committed stays as it is; Diverged becomes Empty (reset) when strict and stays Diverged when lenient; Empty is reset only when strict and the text is non-empty |
| `ControllerState.ChangeIdempotent` | src/autocompleter.ts:32-44 | a second change notification right after the first changes nothing |
| `ControllerState.SelectCommits` | src/autocompleter.ts:125-129 | after selecting: the selection is the item, the text is its extractor text, the attribute is its serialisation, and the phase is Committed; each hook is called exactly once, in registration order, with the item, after the commit; earlier trace entries and everything else are unchanged |
| `ControllerState.ChangeAfterEdit` | src/autocompleter.ts:33-43 | after a pick and an edit to `v`: if `v` is the extractor text, nothing happens; otherwise strict mode clears the selection, text and attribute, and lenient mode keeps the stale selection, `v` and the attribute |
| `ControllerState.ChangeAfterSelectIsNoOp` | src/autocompleter.ts:33-39 | a change notification straight after a commit never undoes it |
| `ControllerState.ChangeAsWrittenAgrees` | src/autocompleter.ts:33-35 | with the source's truthiness test, the handler agrees with `Change` whenever the selection is absent or truthy |
| `ControllerState.FalsyItemWipedAsWritten` | src/autocompleter.ts:33-43 | with numeric items, committing the item 0 and then firing the change notification resets the field under the source's test, but not under the presence test |
| `ControllerState.RenderFoldSnoc` | src/autocompleter.ts:137-139 | a hook registered last is applied last, to the result of all the earlier hooks |
| `ControllerState.RenderNoHooks` | src/autocompleter.ts:133-141 | with no render hooks, the rendered row is exactly the default `div` with the extractor text and class `ac-item` |
| `ControllerState.RenderTwoHooks` | src/autocompleter.ts:137-141 | with hooks `[h1, h2]`, the rendered row is `h2(h1(default))` |
| `ControllerState.RenderAfterAddRenderHook` | src/autocompleter.ts:77-80 | registering one more render hook makes it post-process what was rendered before |
| `ControllerState.RegisterRenderHooksAppends` | src/autocompleter.ts:77-80 | chained `onRender` calls append their callbacks in call order and keep all earlier hooks; nothing else changes |
| `ControllerState.RegisterSelectHooksAppends` | src/autocompleter.ts:82-85 | chained `onSelect` calls append their callbacks in call order and keep all earlier hooks; nothing else changes |
| `ControllerState.SelectCallsRegisteredInOrder` | src/autocompleter.ts:129 | hooks registered one by one, after any earlier ones, are called by the select adapter after those earlier hooks and in exactly their registration order, each seeing the committed item and its extractor text |
| `ControllerState.SelectKeepsTraceSawCommit` | src/autocompleter.ts:126-129 | a select preserves the invariant that every recorded hook call saw its item committed, both as the selection and as the attribute |
| `ControllerState.RunKeepsAttrTracksSelection` | src/autocompleter.ts:96-130 | over any session, if the attribute held the serialisation of the selection (or was absent with no selection) before, it still does afterwards |
| `ControllerState.RunKeepsTraceSawCommit` | src/autocompleter.ts:125-130 | over any session, every select-hook call ever made saw its item already committed |
| `ControllerState.RunSelectionWasPicked` | src/autocompleter.ts:96-130 | at the end of any session, the selection is absent, the initial one, or an item that some pick in the session committed |
| `ControllerState.RunClearedOnlyByReset` | src/autocompleter.ts:41-43 | a session holding no reset and no change notification never clears an existing selection: only `reset()`, directly or through the change handler, does |

## Left out

- `create()`'s call into the external suggestion engine, and the configuration values it forwards (`emptyMsg`, `minLength`, `className`, `debounceWaitMs`, `preventSubmit`, `disableAutoSelect`). That engine is not part of this model. The values are only stored, and the model keeps them as fields. Only the three adapter bodies are modelled.
- The asynchronous `fetcher(text).then(update)`. The fetcher is modelled as the function giving what its promise resolves to. A rejected promise and the delivery order between overlapping fetches are not modelled. The fetcher is a pure function, so each adapter call evaluates it once; whether the real fetcher has side effects per call is not modelled.
- `AutocompleteWidget.Autocompleter.FetchAdapter`: a missing fetcher is an error result instead of a thrown exception.
- DOM plumbing: `setAttribute('autocomplete', 'off')`, `addEventListener`, `document.createElement` and `classList`. The listener is the method `OnChange`, and elements are `Element` records.
- JSON serialisation of the item is an opaque function fixed at construction.
- `ControllerState.ChangeAfterEdit`, `ControllerState.ChangeAfterSelectIsNoOp` and `ControllerState.RunKeepsAttrTracksSelection` assume items are not mutated. Items are values here, but the source keeps a reference. An item mutated after its commit, by the caller through `getSelectedItem()` or through its own copy, changes the expected text and leaves the attribute holding the old serialisation.
- `ControllerState.SelectCommits` and `ControllerState.ChangeAfterSelectIsNoOp`: the field stores the assigned string unchanged. The browser's value sanitisation on write is not modelled. Text inputs strip CR and LF, `email` and `url` inputs also trim whitespace, and `number` inputs turn non-numbers into `''`. So "the field shows the extractor text" and "a commit is stable under the next change notification" hold only for extractor texts that the input type leaves as they are. For example, an extractor text `"New\nYork"` on a text input is stored as `"NewYork"`, and strict mode would then wipe the commit.
- The effects of select hooks are not modelled, and neither are render hooks that mutate an element in place or re-enter the controller (for example by calling `reset()`). Select hooks are identifiers whose calls are recorded. Render hooks are pure functions.
- The extractor, the serialiser and the select hooks are assumed to return normally. In the source a throw leaves a partial commit. If serialisation throws (a cyclic item, a BigInt field), the selection and text are already the new item's, but the attribute keeps the previous pick's serialisation. `ControllerState.RunKeepsAttrTracksSelection` does not cover that case. A throwing extractor skips the later writes. A throwing select hook skips the hooks after it, so `ControllerState.SelectCommits`' "each hook exactly once" does not cover that case either.
- JavaScript's `number` for `minLength` and `debounceWaitMs` is modelled as `int`. Fractions, `NaN` and negative values are not validated, in the model or in the source.
- `ControllerState.ExpectedAsWritten` and `ControllerState.ChangeAsWritten` need to know which items JavaScript treats as falsy. That is supplied as a `truthy` parameter, since the item type is generic.

## Findings

| source | as written | input that shows it | evidently intended | confidence | as-written member | corrected member |
|---|---|---|---|---|---|---|
| src/autocompleter.ts:33-35 | `this.selectedItem ? extractor(selectedItem) : ''` tests the item's truthiness, so a committed falsy item (the number `0`, the empty string, `false`) counts as no selection | `T = number` with an extractor showing `0` as `"0"`: select item `0`, so the field shows `"0"`; when the change notification fires, the expected text is `''`, and strict mode wipes the committed selection and the field | test whether an item is selected at all (`selectedItem !== undefined`); `selectedItem` is declared optional | medium; not executed | `ControllerState.FalsyItemWipedAsWritten` | `ControllerState.ChangeAfterSelectIsNoOp` |

The rest of the model uses the corrected test: `ControllerState.Change` and `AutocompleteWidget.Autocompleter.OnChange` check whether a selection is present. For object items, which are always truthy, `ControllerState.ChangeAsWrittenAgrees` shows that both tests behave the same.
