/**
  The next query state for the interactions of src/App.jsx that do not touch the
  filters: the sort and group-by header buttons, the editor's submit, and a click
  on a follow-up suggestion.
*/
module NextState {
  import opened Wrappers
  import JsText
  import opened QueryModel

  /** `handleSortClick`'s new `sorting`: the clicked column becomes the sort column; the order
      turns to descending only when that column was already sorted ascending, and is ascending
      otherwise; the page window is kept. */
  function NextSorting(sorting: Sorting, header: string): (r: Sorting)
    ensures r.orderBy == Some(header)
    ensures r.order == "desc" <==> IsActiveSort(sorting, header) && sorting.order == "asc"
    ensures r.order == "asc" || r.order == "desc"
    ensures r.limit == sorting.limit && r.offset == sorting.offset
  {
    var order := if IsActiveSort(sorting, header) && sorting.order == "asc" then "desc" else "asc";
    sorting.(orderBy := Some(header), order := order)
  }

  /** Clicking the same (non-empty) header again always flips the direction. */
  lemma SortClicksAlternate(sorting: Sorting, header: string)
    requires header != ""
    ensures var once := NextSorting(sorting, header);
      var twice := NextSorting(once, header);
      IsActiveSort(once, header) && twice.order != once.order
      && twice.orderBy == once.orderBy && twice.limit == sorting.limit && twice.offset == sorting.offset
  {
  }

  /** `handleGroupByClick`'s new state: grouped by the lower-cased header, all else kept. */
  function GroupByClick(state: QueryState, header: string): (r: QueryState)
    ensures r.groupBy == Some(JsText.Lower(header))
    ensures JsText.Lower(r.groupBy.value) == r.groupBy.value
    ensures r.(groupBy := state.groupBy) == state
  {
    JsText.LowerIdempotent(header);
    state.(groupBy := Some(JsText.Lower(header)))
  }

  /** The editor's `onSubmit`: a blank draft is ignored; otherwise the trimmed draft becomes the
      question and nothing else changes. */
  function Submit(state: QueryState, draft: string): (r: Option<QueryState>)
    ensures r.None? <==> JsText.AllWhitespace(draft)
    ensures r.Some? ==> r.value.(question := state.question) == state
    ensures r.Some? ==> var q := r.value.question;
      q == JsText.Trim(draft) && q != []
      && !JsText.IsWhitespace(q[0]) && !JsText.IsWhitespace(q[|q| - 1])
  {
    JsText.TrimBlank(draft);
    JsText.TrimShape(draft);
    var q := JsText.Trim(draft);
    if q == [] then None else Some(state.(question := q))
  }

  /** Submitting the question a submit produced changes nothing more. */
  lemma SubmitIdempotent(state: QueryState, draft: string)
    requires Submit(state, draft).Some?
    ensures var s := Submit(state, draft).value; Submit(s, s.question) == Some(s)
  {
    JsText.TrimIdempotent(draft);
  }

  /** `handleSuggestionClick`'s new state: the suggestion without its markup is the question. */
  function SuggestionClick(state: QueryState, suggestion: string): (r: QueryState)
    ensures r.(question := state.question) == state
    ensures r.question == JsText.StripTags(suggestion) && JsText.NoTag(r.question)
  {
    JsText.StripTagsShape(suggestion);
    state.(question := JsText.StripTags(suggestion))
  }
}
