/**
 * The `Autocompleter<T>` controller bound to one input field.  The field is
 * represented by the two things the controller touches: its text
 * (`inputValue`) and its `data-autocomplete-item` attribute (`dataAttr`).
 * Every method states its new state as a function of the old one through
 * `Snapshot()`, using the transition functions of ControllerState.
 */
module AutocompleteWidget {
  import opened ControllerState

  class Autocompleter<T> {
    var className: string
    var minLength: int
    var emptyMsg: string
    var debounceWaitMs: Option<int>
    const preventSubmit: bool := true
    const disableAutoSelect: bool := true
    var strictValue: bool

    var fetcher: Option<Fetcher<T>>
    var renderHooks: seq<RenderHook<T>>
    var selectHooks: seq<HookId>
    var valueExtractor: Extractor<T>

    var selected: Option<T>

    /** The bound field's text and auxiliary attribute. */
    var inputValue: string
    var dataAttr: Option<string>

    /** The serialiser used for the attribute (JSON serialisation in the source). */
    const serialize: T -> string

    /** Every select-hook call made so far, in order. */
    ghost var selectTrace: seq<SelectCall<T>>

    ghost function Snapshot(): State<T>
      reads this
    {
      State(className, minLength, emptyMsg, debounceWaitMs, strictValue,
            fetcher, valueExtractor, renderHooks, selectHooks,
            selected, inputValue, dataAttr, selectTrace)
    }

    /** Every select hook has observed a committed selection. */
    ghost predicate Valid()
      reads this
    {
      TraceSawCommit(selectTrace, serialize)
    }

    /**
     * Binds a field whose current text is `fieldText` and whose attribute is
     * `fieldAttr`; the field keeps both, and the configuration takes its
     * defaults.
     */
    constructor (valueExtractor: Extractor<T>, serialize: T -> string,
                 fieldText: string, fieldAttr: Option<string>)
      ensures Valid()
      ensures this.valueExtractor == valueExtractor && this.serialize == serialize
      ensures className == DefaultClassName && minLength == DefaultMinLength
      ensures emptyMsg == DefaultEmptyMsg && debounceWaitMs == Some(DefaultDebounceWaitMs)
      ensures strictValue && preventSubmit && disableAutoSelect
      ensures fetcher == None && renderHooks == [] && selectHooks == []
      ensures selected == None && inputValue == fieldText && dataAttr == fieldAttr
      ensures selectTrace == []
    {
      className := DefaultClassName;
      minLength := DefaultMinLength;
      emptyMsg := DefaultEmptyMsg;
      debounceWaitMs := Some(DefaultDebounceWaitMs);
      strictValue := true;
      fetcher := None;
      renderHooks := [];
      selectHooks := [];
      this.valueExtractor := valueExtractor;
      this.serialize := serialize;
      selected := None;
      inputValue := fieldText;
      dataAttr := fieldAttr;
      selectTrace := [];
    }

    /** The listener the constructor installs for the field's change notification. */
    method OnChange()
      requires Valid()
      modifies this
      ensures Valid()
      ensures Snapshot() == Change(old(Snapshot()))
    {
      var expected := if selected.Some? then valueExtractor(selected.value) else "";
      if expected == inputValue {
        return;
      }
      if strictValue {
        Reset();
      }
    }

    method SetClassName(name: string) returns (self: Autocompleter<T>)
      requires Valid()
      modifies this
      ensures self == this && Valid()
      ensures Snapshot() == old(Snapshot()).(className := name)
    {
      className := name;
      self := this;
    }

    method SetMinLength(length: int) returns (self: Autocompleter<T>)
      requires Valid()
      modifies this
      ensures self == this && Valid()
      ensures Snapshot() == old(Snapshot()).(minLength := length)
    {
      minLength := length;
      self := this;
    }

    method SetEmptyMsg(msg: string) returns (self: Autocompleter<T>)
      requires Valid()
      modifies this
      ensures self == this && Valid()
      ensures Snapshot() == old(Snapshot()).(emptyMsg := msg)
    {
      emptyMsg := msg;
      self := this;
    }

    method SetDebounceWaitMs(waitMs: int) returns (self: Autocompleter<T>)
      requires Valid()
      modifies this
      ensures self == this && Valid()
      ensures Snapshot() == old(Snapshot()).(debounceWaitMs := Some(waitMs))
    {
      debounceWaitMs := Some(waitMs);
      self := this;
    }

    method SetStrictValue(strict: bool) returns (self: Autocompleter<T>)
      requires Valid()
      modifies this
      ensures self == this && Valid()
      ensures Snapshot() == old(Snapshot()).(strictValue := strict)
    {
      strictValue := strict;
      self := this;
    }

    method SetFetcher(f: Fetcher<T>) returns (self: Autocompleter<T>)
      requires Valid()
      modifies this
      ensures self == this && Valid()
      ensures Snapshot() == old(Snapshot()).(fetcher := Some(f))
    {
      fetcher := Some(f);
      self := this;
    }

    method OnRender(callback: RenderHook<T>) returns (self: Autocompleter<T>)
      requires Valid()
      modifies this
      ensures self == this && Valid()
      ensures Snapshot() == AddRenderHook(old(Snapshot()), callback)
    {
      renderHooks := renderHooks + [callback];
      self := this;
    }

    method OnSelect(callback: HookId) returns (self: Autocompleter<T>)
      requires Valid()
      modifies this
      ensures self == this && Valid()
      ensures Snapshot() == AddSelectHook(old(Snapshot()), callback)
    {
      selectHooks := selectHooks + [callback];
      self := this;
    }

    method SetValueExtractor(extractor: Extractor<T>) returns (self: Autocompleter<T>)
      requires Valid()
      modifies this
      ensures self == this && Valid()
      ensures Snapshot() == old(Snapshot()).(valueExtractor := extractor)
    {
      valueExtractor := extractor;
      self := this;
    }

    method GetSelectedItem() returns (item: Option<T>)
      ensures item == selected
    {
      item := selected;
    }

    method Reset()
      requires Valid()
      modifies this
      ensures Valid()
      ensures Snapshot() == ControllerState.Reset(old(Snapshot()))
    {
      selected := None;
      inputValue := "";
      dataAttr := None;
    }

    /**
     * The fetch adapter: fails when no fetcher is installed, and otherwise
     * hands the engine's update callback exactly what the fetcher resolves
     * to for the query text, unchanged.
     */
    method FetchAdapter(text: string) returns (r: Result<seq<T>, FetchError>)
      ensures fetcher.None? <==> r.Failure?
      ensures fetcher.None? ==> r == Failure(FetcherNotInstalled)
      ensures fetcher.Some? ==> r == Success(fetcher.value(text))
    {
      if fetcher.None? {
        return Failure(FetcherNotInstalled);
      }
      r := Success(fetcher.value(text));
    }

    /**
     * The select adapter: commits the item to the selection, the field text
     * and the attribute, then calls every select hook in registration order.
     */
    method SelectAdapter(item: T)
      requires Valid()
      modifies this
      ensures Valid()
      ensures Snapshot() == Select(old(Snapshot()), item, serialize)
    {
      selected := Some(item);
      inputValue := valueExtractor(item);
      dataAttr := Some(serialize(item));
      ghost var before := selectTrace;
      for i := 0 to |selectHooks|
        invariant selected == Some(item) && inputValue == valueExtractor(item)
        invariant dataAttr == Some(serialize(item))
        invariant |selectTrace| == |before| + i
        invariant selectTrace[..|before|] == before
        invariant forall k :: 0 <= k < i ==>
          selectTrace[|before| + k] ==
            SelectCall(k, selectHooks[k], item, selected, inputValue, dataAttr)
        invariant TraceSawCommit(selectTrace, serialize)
      {
        selectTrace := selectTrace + [SelectCall(i, selectHooks[i], item, selected, inputValue, dataAttr)];
      }
      assert selectTrace == before + HookCalls(selectHooks, item, Snapshot());
    }

    /**
     * The render adapter: the default row shows the extractor text and
     * carries the item class; each render hook, in registration order,
     * replaces the row with its own result.
     */
    method RenderAdapter(item: T, query: string) returns (element: Element)
      ensures element == RenderFold(renderHooks, DefaultElement(valueExtractor(item)), item, query)
    {
      element := Element("div", "", {});
      element := element.(text := valueExtractor(item));
      element := element.(classes := element.classes + {ItemClass});
      assert element == DefaultElement(valueExtractor(item));
      assert renderHooks[0..] == renderHooks;
      for i := 0 to |renderHooks|
        invariant RenderFold(renderHooks[i..], element, item, query) ==
                  RenderFold(renderHooks, DefaultElement(valueExtractor(item)), item, query)
      {
        assert renderHooks[i..][1..] == renderHooks[i + 1..];
        element := renderHooks[i](element, item, query);
      }
      assert renderHooks[|renderHooks|..] == [];
    }
  }

  /**
   * A client: after a commit, a manual edit that the change notification
   * catches is wiped in strict mode; in lenient mode the stale selection
   * and the typed text survive.
   */
  method EditAfterPick(extractor: Extractor<int>, serialize: int -> string, picked: int, typed: string)
    requires typed != extractor(picked)
  {
    var strict := new Autocompleter<int>(extractor, serialize, "", None);
    strict.SelectAdapter(picked);
    var now := strict.GetSelectedItem();
    assert now == Some(picked) && strict.inputValue == extractor(picked);
    strict.inputValue := typed;
    strict.OnChange();
    now := strict.GetSelectedItem();
    assert now == None && strict.inputValue == "" && strict.dataAttr == None;

    var lenient := new Autocompleter<int>(extractor, serialize, "", None);
    var same := lenient.SetStrictValue(false);
    lenient.SelectAdapter(picked);
    lenient.inputValue := typed;
    lenient.OnChange();
    now := lenient.GetSelectedItem();
    assert now == Some(picked) && lenient.inputValue == typed;
    assert lenient.dataAttr == Some(serialize(picked));
  }
}
