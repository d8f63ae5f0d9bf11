/**
  The query controller of src/App.jsx as a state machine. Each asynchronous handler is split
  at its `await`: the handler applies the optimistic state and asks `StartSync` to issue the
  request, and `CompleteSync` later applies what came back. Hover handlers are split the same
  way into the handler (which issues the hover request) and `CompleteHover`.
*/
module App {
  import opened Wrappers
  import JsText
  import opened QueryModel
  import FilterComposer
  import NextState
  import Hover
  import Transport
  import Insights

  class Controller {
    /** `appState`, the state shown and sent. */
    var appState: QueryState
    /** `appStateRef.current`, kept equal to `appState` by the effect that follows each render. */
    var stateRef: QueryState
    /** `questionDraft`, the editor's text. */
    var draft: string
    /** `selectedGroupedValues`: a set of strings, in insertion order. */
    var selected: seq<string>
    /** `hoverEffectsEnabled`. */
    var hoverEnabled: bool
    /** `hoverState`, the last descriptor built. */
    var hover: Hover.HoverState
    /** `isSyncing` together with `isSyncingRef`: a request to the state endpoint is in flight. */
    var syncing: bool
    /** `error`, the message shown above the table. */
    var error: string

    ghost predicate Valid()
      reads this
    {
      stateRef == appState && FilterComposer.Distinct(selected)
    }

    /** The first render: every slot at its initial value. */
    constructor ()
      ensures Valid()
      ensures appState == Initial && draft == "" && selected == []
      ensures !hoverEnabled && hover == Hover.InitialHover && !syncing && error == ""
    {
      appState := Initial;
      stateRef := Initial;
      draft := "";
      selected := [];
      hoverEnabled := false;
      hover := Hover.InitialHover;
      syncing := false;
      error := "";
    }

    // -------------------------------------------------------------------
    // `syncState`
    // -------------------------------------------------------------------

    /** The part of `syncState` before its `await`: refused while a sync is in flight;
        otherwise the flag is raised, the error cleared, and `payload` is the request sent. */
    method StartSync(payload: QueryState) returns (sent: Option<QueryState>)
      modifies this`syncing, this`error
      ensures syncing
      ensures old(syncing) ==> sent.None? && error == old(error)
      ensures !old(syncing) ==> sent == Some(payload) && error == ""
    {
      if syncing {
        sent := None;
        return;
      }
      syncing := true;
      error := "";
      sent := Some(payload);
    }

    /** The part of `syncState` after its `await`: data replaces the state and the draft
        wholesale; without data the optimistic state stays (there is no rollback); an error
        is recorded; the flag is lowered. */
    method CompleteSync(outcome: Transport.Outcome<QueryState>)
      requires Valid() && syncing
      modifies this`appState, this`stateRef, this`draft, this`error, this`syncing
      ensures Valid() && !syncing
      ensures outcome.data.Some? ==> appState == outcome.data.value && draft == appState.question
      ensures outcome.data.None? ==> appState == old(appState) && draft == old(draft)
      ensures error == if outcome.error != "" then outcome.error else old(error)
    {
      if outcome.data.Some? {
        appState := outcome.data.value;
        draft := appState.question;
        stateRef := appState;
      }
      if outcome.error != "" {
        error := outcome.error;
      }
      syncing := false;
    }

    /** `setAppState(next)` and the effects that follow the render: the ref catches up, and a
        changed question is copied into the draft. */
    method ApplyLocal(next: QueryState)
      requires Valid()
      modifies this`appState, this`stateRef, this`draft
      ensures Valid() && appState == next
      ensures draft == if next.question != old(appState.question) then next.question else old(draft)
    {
      if next.question != appState.question {
        draft := next.question;
      }
      appState := next;
      stateRef := next;
    }

    /** `setAppState(next)` followed by `await syncState(next)`. */
    method Commit(next: QueryState) returns (sent: Option<QueryState>)
      requires Valid()
      modifies this`appState, this`stateRef, this`draft, this`syncing, this`error
      ensures Valid() && appState == next && syncing
      ensures draft == if next.question != old(appState.question) then next.question else old(draft)
      ensures sent == if old(syncing) then None else Some(next)
      ensures error == if old(syncing) then old(error) else ""
    {
      ApplyLocal(next);
      sent := StartSync(next);
    }

    /** The mount effect: the initial state is sent once. */
    method Mount() returns (sent: Option<QueryState>)
      requires Valid()
      modifies this`syncing, this`error
      ensures syncing
      ensures old(syncing) ==> sent.None? && error == old(error)
      ensures !old(syncing) ==> sent == Some(Initial) && error == ""
    {
      sent := StartSync(Initial);
    }

    // -------------------------------------------------------------------
    // Filter and header interactions
    // -------------------------------------------------------------------

    /** `removeFilterChip(key, value)`. */
    method RemoveFilterChip(key: string, value: Val) returns (sent: Option<QueryState>)
      requires Valid()
      modifies this`appState, this`stateRef, this`draft, this`syncing, this`error
      ensures Valid() && syncing && draft == old(draft)
      ensures appState == old(appState).(filters := FilterComposer.RemoveChip(old(appState.filters), key, value))
      ensures sent == if old(syncing) then None else Some(appState)
      ensures error == if old(syncing) then old(error) else ""
    {
      var next := appState.(filters := FilterComposer.RemoveChip(appState.filters, key, value));
      sent := Commit(next);
    }

    /** `addSelectedToFilters()`: nothing happens without a grouping or a selection;
        otherwise the selection is added to the grouped category and cleared. */
    method AddSelectedToFilters() returns (sent: Option<QueryState>)
      requires Valid()
      modifies this`appState, this`stateRef, this`draft, this`syncing, this`error, this`selected
      ensures Valid()
      ensures !Truthy(old(appState.groupBy)) || old(selected) == [] ==>
        sent.None? && unchanged(this)
      ensures Truthy(old(appState.groupBy)) && old(selected) != [] ==>
        && selected == [] && syncing && draft == old(draft)
        && appState == old(appState).(filters := FilterComposer.BatchAddFilters(
             old(appState.filters), JsText.Lower(old(appState.groupBy).value), old(selected)))
        && sent == (if old(syncing) then None else Some(appState))
        && error == (if old(syncing) then old(error) else "")
    {
      var next := FilterComposer.ComposeBatchAdd(appState, selected);
      if next.None? {
        sent := None;
        return;
      }
      selected := [];
      sent := Commit(next.value);
    }

    /** `toggleGroupedValue(value, checked)`. */
    method ToggleGroupedValue(value: Val, checked: bool)
      requires Valid()
      modifies this`selected
      ensures Valid()
      ensures selected == FilterComposer.Toggle(old(selected), value, checked)
      ensures checked <==> ToString(value) in selected
      ensures forall y :: y != ToString(value) ==> (y in selected <==> y in old(selected))
    {
      selected := FilterComposer.Toggle(selected, value, checked);
    }

    /** `handleGroupByClick(header)`. */
    method GroupByClick(header: string) returns (sent: Option<QueryState>)
      requires Valid()
      modifies this`appState, this`stateRef, this`draft, this`syncing, this`error
      ensures Valid() && syncing && draft == old(draft)
      ensures appState == NextState.GroupByClick(old(appState), header)
      ensures sent == if old(syncing) then None else Some(appState)
      ensures error == if old(syncing) then old(error) else ""
    {
      sent := Commit(NextState.GroupByClick(appState, header));
    }

    /** `handleSortClick(header)`. */
    method SortClick(header: string) returns (sent: Option<QueryState>)
      requires Valid()
      modifies this`appState, this`stateRef, this`draft, this`syncing, this`error
      ensures Valid() && syncing && draft == old(draft)
      ensures appState == old(appState).(sorting := NextState.NextSorting(old(appState.sorting), header))
      ensures sent == if old(syncing) then None else Some(appState)
      ensures error == if old(syncing) then old(error) else ""
    {
      sent := Commit(appState.(sorting := NextState.NextSorting(appState.sorting, header)));
    }

    /** `handleCellClickWithRow(header, value, row)`: a rejected value changes nothing and
        sends nothing; otherwise the drill-down state is applied and sent. */
    method CellClick(header: string, value: Option<Val>, row: Row) returns (sent: Option<QueryState>)
      requires Valid()
      modifies this`appState, this`stateRef, this`draft, this`syncing, this`error
      ensures Valid()
      ensures FilterComposer.Rejected(value) ==> sent.None? && unchanged(this)
      ensures !FilterComposer.Rejected(value) ==>
        && syncing && draft == old(draft)
        && appState.filters == FilterComposer.DrillDownFilters(
             old(appState.filters), old(appState.groupBy), JsText.Lower(header), value.value, row)
        && appState.groupBy == Some(JsText.Lower(header))
        && appState.(filters := old(appState.filters), groupBy := old(appState.groupBy)) == old(appState)
        && sent == (if old(syncing) then None else Some(appState))
        && error == (if old(syncing) then old(error) else "")
    {
      var next := FilterComposer.ComposeDrillDown(appState, header, value, row);
      if next.None? {
        sent := None;
        return;
      }
      sent := Commit(next.value);
    }

    /** `handleSuggestionClick(suggestion)`: the suggestion's plain text becomes both the
        question and the draft. */
    method SuggestionClick(suggestion: string) returns (sent: Option<QueryState>)
      requires Valid()
      modifies this`appState, this`stateRef, this`draft, this`syncing, this`error
      ensures Valid() && syncing
      ensures appState == NextState.SuggestionClick(old(appState), suggestion)
      ensures draft == JsText.StripTags(suggestion) && JsText.NoTag(draft)
      ensures sent == if old(syncing) then None else Some(appState)
      ensures error == if old(syncing) then old(error) else ""
    {
      var next := NextState.SuggestionClick(appState, suggestion);
      draft := next.question;
      sent := Commit(next);
    }

    /** The editor's `onChange`. */
    method EditDraft(text: string)
      modifies this`draft
      ensures draft == text
    {
      draft := text;
    }

    /** The editor's `onSubmit`: a blank draft does nothing; otherwise the trimmed draft
        becomes the question and is sent. */
    method Submit() returns (sent: Option<QueryState>)
      requires Valid()
      modifies this`appState, this`stateRef, this`draft, this`syncing, this`error
      ensures Valid()
      ensures JsText.AllWhitespace(old(draft)) ==> sent.None? && unchanged(this)
      ensures !JsText.AllWhitespace(old(draft)) ==>
        && syncing
        && appState == old(appState).(question := JsText.Trim(old(draft)))
        && draft == (if appState.question != old(appState.question) then appState.question else old(draft))
        && sent == (if old(syncing) then None else Some(appState))
        && error == (if old(syncing) then old(error) else "")
    {
      var next := NextState.Submit(appState, draft);
      if next.None? {
        sent := None;
        return;
      }
      sent := Commit(next.value);
    }

    // -------------------------------------------------------------------
    // Hover channel
    // -------------------------------------------------------------------

    /** `toggleHoverEffects()`: switching the effects off puts the question back in the draft. */
    method ToggleHoverEffects()
      modifies this`hoverEnabled, this`draft
      ensures hoverEnabled == !old(hoverEnabled)
      ensures draft == if hoverEnabled then old(draft) else appState.question
    {
      hoverEnabled := !hoverEnabled;
      if !hoverEnabled {
        draft := appState.question;
      }
    }

    /** `resetHoverState()`. */
    method ResetHoverState()
      modifies this`hover
      ensures hover == if hoverEnabled then Hover.InitialHover else old(hover)
    {
      if hoverEnabled {
        hover := Hover.InitialHover;
      }
    }

    /** `restoreOriginalQuestion()`: leaving a hovered element puts the question back. */
    method RestoreOriginalQuestion()
      modifies this`draft
      ensures draft == if hoverEnabled then appState.question else old(draft)
    {
      if hoverEnabled {
        draft := appState.question;
      }
    }

    /** The part of `sendHoverState(h)` before its `await`: the draft shows the loading text
        and the descriptor is the request sent. */
    method SendHover(h: Hover.HoverState) returns (sent: Option<Hover.HoverState>)
      modifies this`draft
      ensures hoverEnabled ==> sent == Some(h) && draft == Hover.Loading
      ensures !hoverEnabled ==> sent.None? && draft == old(draft)
    {
      if !hoverEnabled {
        sent := None;
        return;
      }
      draft := Hover.Loading;
      sent := Some(h);
    }

    /** The part of `sendHoverState` after its `await`: a message replaces the draft; an error
        replaces it with the error text and is shown. Nothing checks whether hover effects are
        still on. */
    method CompleteHover(outcome: Transport.Outcome<string>)
      modifies this`draft, this`error
      ensures outcome.error != "" ==> draft == Hover.LoadError && error == outcome.error
      ensures outcome.error == "" ==> error == old(error)
      ensures outcome.error == "" && outcome.data.Some? && outcome.data.value != "" ==>
        draft == outcome.data.value
      ensures outcome.error == "" && (outcome.data.None? || outcome.data.value == "") ==>
        draft == old(draft)
    {
      if outcome.data.Some? && outcome.data.value != "" {
        draft := outcome.data.value;
      }
      if outcome.error != "" {
        draft := Hover.LoadError;
        error := outcome.error;
      }
    }

    /** Every hover handler: do nothing while hover effects are off; otherwise record the
        descriptor and send it. */
    method HoverOn(h: Hover.HoverState) returns (sent: Option<Hover.HoverState>)
      modifies this`hover, this`draft
      ensures !hoverEnabled ==> sent.None? && unchanged(this)
      ensures hoverEnabled ==> hover == h && sent == Some(h) && draft == Hover.Loading
    {
      if !hoverEnabled {
        sent := None;
        return;
      }
      ResetHoverState();
      hover := h;
      sent := SendHover(h);
    }

    /** `handleCellHover(header, value, row)`. */
    method CellHover(header: string, value: Option<Val>, row: Row) returns (sent: Option<Hover.HoverState>)
      modifies this`hover, this`draft
      ensures !hoverEnabled ==> sent.None? && unchanged(this)
      ensures hoverEnabled ==>
        && hover == Hover.CellDescriptor(header, value, appState.groupBy, row)
        && sent == Some(hover) && draft == Hover.Loading
    {
      sent := HoverOn(Hover.CellDescriptor(header, value, appState.groupBy, row));
    }

    /** `handleFilterHover(filterName, filterValue)`. */
    method FilterHover(filterName: string, filterValue: Val) returns (sent: Option<Hover.HoverState>)
      modifies this`hover, this`draft
      ensures !hoverEnabled ==> sent.None? && unchanged(this)
      ensures hoverEnabled ==>
        && hover == Hover.FilterDescriptor(filterName, filterValue)
        && sent == Some(hover) && draft == Hover.Loading
    {
      sent := HoverOn(Hover.FilterDescriptor(filterName, filterValue));
    }

    /** `handleSortHover(columnName)`. */
    method SortHover(columnName: string) returns (sent: Option<Hover.HoverState>)
      modifies this`hover, this`draft
      ensures !hoverEnabled ==> sent.None? && unchanged(this)
      ensures hoverEnabled ==>
        && hover == Hover.SortDescriptor(columnName, appState.sorting)
        && sent == Some(hover) && draft == Hover.Loading
    {
      sent := HoverOn(Hover.SortDescriptor(columnName, appState.sorting));
    }

    /** `handleGroupByHover(columnName)`. */
    method GroupByHover(columnName: string) returns (sent: Option<Hover.HoverState>)
      modifies this`hover, this`draft
      ensures !hoverEnabled ==> sent.None? && unchanged(this)
      ensures hoverEnabled ==>
        && hover == Hover.GroupDescriptor(columnName)
        && sent == Some(hover) && draft == Hover.Loading
    {
      sent := HoverOn(Hover.GroupDescriptor(columnName));
    }
  }

  // ---------------------------------------------------------------------
  // What the page shows
  // ---------------------------------------------------------------------

  /** `shouldShowData`: the filters and the table are shown. */
  predicate ShouldShowData(state: QueryState) {
    FilterComposer.HasActiveFilters(state.filters) || |state.result| > 0
  }

  /** With well-formed filters the table is shown exactly when a category exists or rows came
      back. */
  lemma ShowDataIffAny(state: QueryState)
    requires FilterComposer.WellFormed(state.filters)
    ensures ShouldShowData(state) <==> state.filters.Keys != {} || |state.result| > 0
  {
    FilterComposer.ActiveIffNonEmpty(state.filters);
  }

  /** After an accepted cell click the table stays on screen, whatever the result: the clicked
      column then holds at least one filter value. */
  lemma CellClickShowsData(state: QueryState, header: string, value: Option<Val>, row: Row)
    requires !FilterComposer.Rejected(value)
    ensures ShouldShowData(state.(
      filters := FilterComposer.DrillDownFilters(state.filters, state.groupBy, JsText.Lower(header), value.value, row),
      groupBy := Some(JsText.Lower(header))))
  {
    var key := JsText.Lower(header);
    var r := FilterComposer.DrillDownFilters(state.filters, state.groupBy, key, value.value, row);
    FilterComposer.DrillDownAddsClicked(state.filters, state.groupBy, key, value.value, row);
    assert |r[key]| > 0;
  }

  /** `shouldShowInsights`: the panel's container is shown. */
  predicate ShouldShowInsights(state: QueryState) {
    |state.comments| > 0 || |state.suggestions| > 0
  }

  /** The page shows the panel's container exactly when the panel renders something. */
  lemma InsightsGuardAgrees(state: QueryState)
    ensures ShouldShowInsights(state) <==> Insights.View(Some(state.comments), Some(state.suggestions)).Some?
  {
  }

  // ---------------------------------------------------------------------
  // Scenarios across several calls
  // ---------------------------------------------------------------------

  /** Single flight: of two interactions in a row, only the first is sent, and the second's
      optimistic state is still applied. */
  method TwoClicksOneRequest(c: Controller, first: string, second: string)
    returns (a: Option<QueryState>, b: Option<QueryState>)
    requires c.Valid() && !c.syncing
    modifies c
    ensures c.Valid() && c.syncing
    ensures a == Some(NextState.GroupByClick(old(c.appState), first)) && b.None?
    ensures c.appState == a.value.(sorting := NextState.NextSorting(a.value.sorting, second))
  {
    a := c.GroupByClick(first);
    b := c.SortClick(second);
  }

  /** A response overwrites what was done while it was in flight: the local change made
      during the request is neither sent nor kept. */
  method ServerWins(c: Controller, header: string, response: QueryState)
    returns (sent: Option<QueryState>)
    requires c.Valid() && c.syncing
    modifies c
    ensures sent.None?
    ensures c.Valid() && !c.syncing && c.appState == response && c.draft == response.question
  {
    sent := c.GroupByClick(header);
    c.CompleteSync(Transport.Outcome(Some(response), ""));
  }

  /** A failed sync leaves the optimistic state in place and shows the error. */
  method FailureKeepsOptimisticState(c: Controller, header: string, message: string)
    requires c.Valid() && !c.syncing && message != ""
    modifies c
    ensures c.Valid() && !c.syncing
    ensures c.appState == NextState.GroupByClick(old(c.appState), header)
    ensures c.error == message
  {
    var sent := c.GroupByClick(header);
    c.CompleteSync(Transport.PostState(Transport.Reply.NotOk(Some(message), "")));
  }

  /** A hover reply that arrives after hover effects were switched off still replaces the
      draft. */
  method LateHoverReply(c: Controller, column: string, message: string)
    requires c.hoverEnabled && message != ""
    modifies c
    ensures !c.hoverEnabled && c.draft == message
  {
    var sent := c.GroupByHover(column);
    c.ToggleHoverEffects();
    c.CompleteHover(Transport.PostHoverEvent(Transport.Reply.Ok(Some(message))));
  }
}
