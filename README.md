# Query-state controller of the IR Anthology web client, in Dafny

The web client lets a user explore a bibliography with a natural-language question
plus structured refinements: filter chips, a grouping column, a sort column and
direction. Every interaction builds the next query state, shows it at once, and sends
it to the backend. The backend answers with the state to show. This project models the
client side of that loop in src/App.jsx and the bold-markup rendering in
src/components/Insights.jsx, and proves what each step promises.

Modules, one per concern of the source:

- `JsText` (js_text.dfy): the JavaScript string and number primitives the handlers use.
  These are ASCII `toLowerCase`/`toUpperCase`, `trim` with ECMAScript's whitespace set,
  the tag stripper `replace(/<[^>]*>/g, "")`, and decimal `Number(s)` / `n.toString()`.
- `QueryModel` (query_state.dfy): the query state (`initialAppState`), filter and cell
  values (`Val = Str | Num`), result rows, JavaScript truthiness, and row lookups.
- `FilterComposer` (filter_composer.dfy): the filter deltas.
  - chip removal;
  - the drill-down cell click, which keeps the current group value and pivots the grouping;
  - the batch add of the checked values;
  - the checkbox set;
  - the `years` coercion.
- `NextState` (next_state.dfy): the sort and group-by header clicks, the editor's submit,
  and the suggestion click.
- `Hover` (hover.dfy): the four-part hover descriptor and the tagged variant behind it,
  plus the descriptor each hover handler builds.
- `Transport` (transport.dfy): how a reply becomes the `{ data, error }` outcome of
  `postState` / `postHoverEvent`.
- `Insights` (insights.dfy): `formatMarkdownBold` as a left-to-right lazy scan, and the
  panel's "nothing to show" guard.
- `App` (app.dfy): the class `Controller`, holding the component's state slots and refs.
  - Each asynchronous handler is split at its `await`. `StartSync` covers the part before
    it: the single-flight guard, raising the flag, clearing the error.
  - `CompleteSync` covers the part after it: data is applied wholesale, nothing is rolled
    back, the error is recorded.
  - Hover requests are split the same way into the handler and `CompleteHover`.
  - Scenario methods chain several calls.

The network, React's scheduling and the browser are parameters here. A request is what
a `StartSync`/hover method returns. A response is the `Outcome` passed to `CompleteSync`
or `CompleteHover`. A React effect that follows a render is folded into the method that
causes it (`ApplyLocal`).

Some behaviours of the code are worth pointing out. The comments quoted below are
the source's own; each point is an observation of this model about the code:

- Two duplicate checks are at work. The batch add's check ("Only add if not already in
  filters", src/App.jsx:274-275) uses `existing.includes`, which compares with `===`. So the
  number `5` and the checked text `"5"` both end up in one category
  (`FilterComposer.BatchAddTextDuplicate`). The cell click's check (src/App.jsx:367-371,
  384-386) compares by `toString` and keeps the categories text-unique
  (`FilterComposer.DrillDownWellFormed`).
- The cell hover reads the group value only from the capitalised field ("Convert groupBy key
  to match the capitalized row property", src/App.jsx:128-133). The cell click falls back to
  a key that matches ignoring case ("handles different capitalizations", src/App.jsx:349-354).
  The two are kept distinct (`Hover.CellHoverLookupIsCaseSensitive`).
- A hover reply is applied even after hover effects were switched off (src/App.jsx:110-116).
  See `App.LateHoverReply`.
- The comment "Convert markdown bold syntax (**text**) to HTML <strong> tags"
  (src/components/Insights.jsx:8) suggests that `**x**` always becomes `<strong>x</strong>`
  when `x` has no `**`. That fails when `x` ends with `*`: the lazy match then closes one
  character early (`Insights.TrailingStarExample`). `Insights.SinglePair` states the rule with
  that case excluded.

## Model

| member | source | states |
|---|---|---|
| JsText.Lower | src/App.jsx:261 | `toLowerCase` keeps the length and lower-cases each ASCII letter in place |
| JsText.Capitalize | src/App.jsx:345-347 | `charAt(0).toUpperCase() + slice(1)`: only the first character changes, to upper case |
| JsText.LowerIdempotent | src/App.jsx:305 | a lower-cased name is its own lower-case form, so a stored `group_by` is canonical |
| JsText.LowerCapitalize | src/App.jsx:343-354 | the capitalised key equals the grouping ignoring case |
| JsText.Trim | src/App.jsx:454-455 | `trim()` is no longer than the text and has no whitespace at either end |
| JsText.TrimShape | src/App.jsx:454-455 | `trim()` gives a slice of the input with only whitespace cut on either side, and no whitespace at its ends |
| JsText.TrimBlank | src/App.jsx:454 | `trim()` is empty exactly when the text is all whitespace |
| JsText.TrimIdempotent | src/App.jsx:455 | trimming twice equals trimming once |
| JsText.StripTagsShape | src/App.jsx:406 | `StripTags`, the `replace(/<[^>]*>/g, '')` of a suggestion: the tag-stripped text has no `<…>` left, is no longer than the input, and has only input characters |
| JsText.StripTagsCopies | src/App.jsx:406 | text before the first `<` is copied unchanged in front of the stripped rest |
| JsText.StripTagsDropsTag | src/App.jsx:406 | a `<`, any text without `>`, and a `>` are removed together, whatever follows |
| JsText.StripTagsNoTag | src/App.jsx:406 | text with no tag is left unchanged |
| JsText.StripTagsIdempotent | src/App.jsx:406 | stripping twice equals stripping once |
| JsText.NatToString | src/App.jsx:243 | the decimal text of a number is non-empty, all digits, with no leading zero, and starts with `0` only for zero |
| JsText.IntToString | src/App.jsx:243 | an integer's text is canonical (no `+`, no leading zero, no `-0`) and has a `-` exactly for a negative number |
| JsText.NatToStringParse | src/App.jsx:243 | canonical digits are the text of the number they denote |
| JsText.IntToStringIff | src/App.jsx:243 | a text is `n.toString()` exactly when it is canonical and `Number` reads it as `n`, so each integer has one text |
| JsText.NonCanonicalTexts | src/App.jsx:243 | `7` is written `"7"`, not `"07"` or `"+7"`, and no integer is written `"-0"` |
| JsText.IntRoundTrip | src/App.jsx:269-272 | `Number(String(n)) === n` for every integer, and the text is accepted as numeric |
| QueryModel.ToString | src/App.jsx:243 | `toString` of a string is the string; of a number it is the canonical numeral that `Number` reads back as the number |
| QueryModel.Get | src/App.jsx:133 | `row[name]` is defined exactly when a field has that name, and its value is that field's |
| QueryModel.FindKeyIgnoringCase | src/App.jsx:353 | the key found matches the target ignoring case and no earlier key does; none found means no key does |
| QueryModel.FindFirstMatch | src/App.jsx:353 | the first key in key order that matches ignoring case is the one `find` returns |
| QueryModel.GetFirst | src/App.jsx:133 | a field with no earlier field of the same name supplies `row[name]` |
| FilterComposer.TextsMembership | src/App.jsx:369 | a text is among the `toString`s of the entries iff some entry has it |
| FilterComposer.Coerce | src/App.jsx:269-272 | a value becomes a number exactly when it is one already or is a numeric string under `years`, and then it is the parsed number; otherwise it is kept |
| FilterComposer.CoerceYearsRoundTrip | src/App.jsx:360-365 | the text of any integer clicked under `years` is stored as that integer |
| FilterComposer.CoerceExamples | src/App.jsx:381-383 | `"2020"` becomes 2020 under `years` and stays text under `authors` |
| FilterComposer.AddByText | src/App.jsx:378-390 | adding by text keeps every other category, changes nothing when the text was there, and otherwise appends the value itself after the old entries |
| FilterComposer.AddByTextIdempotent | src/App.jsx:385-389 | adding a value twice equals adding it once |
| FilterComposer.AddByTextWellFormed | src/App.jsx:385-390 | adding by text keeps every category non-empty and free of text duplicates |
| FilterComposer.WithoutText | src/App.jsx:242-244 | the kept entries are exactly those whose text differs, and nothing changes when no entry has the text |
| FilterComposer.WithoutTextAppend | src/App.jsx:242-244 | `filter` works piece by piece, so the kept entries stay in their order |
| FilterComposer.WithoutTextSingle | src/App.jsx:242-244 | one entry is kept exactly when its text differs from the removed one |
| FilterComposer.WithoutTextUnique | src/App.jsx:242-244 | filtering keeps text-unique entries text-unique |
| FilterComposer.RemoveChip | src/App.jsx:240-248 | an absent key leaves filters unchanged; others are untouched; the category stays iff entries remain, and then none has the removed text |
| FilterComposer.RemoveChipWellFormed | src/App.jsx:240-248 | removal keeps the filters well formed (no empty category, no text duplicates) |
| FilterComposer.RemoveThenAddRestoresTexts | src/App.jsx:240-248 | removing a chip, then adding it back by text, restores the category's set of texts and every other category |
| FilterComposer.ActiveIffNonEmpty | src/App.jsx:77-84 | for well-formed filters, `HasActiveFilters` (some category with an entry) holds iff some category exists |
| FilterComposer.RejectedByText | src/App.jsx:334-335 | `Rejected`, the early return of the cell click (absent, falsy, or the string `"0"`): a present value is ignored exactly when it is the empty text or its text is `"0"` (the number 0 and the string "0"), so `"00"` is accepted |
| FilterComposer.GroupValue | src/App.jsx:350-354 | the capitalised field wins when present, and a field that matches the grouping ignoring case is always found |
| FilterComposer.GroupValueFirstMatch | src/App.jsx:350-354 | without the capitalised field, the value is that of the first field matching the grouping ignoring case |
| FilterComposer.GroupValueSource | src/App.jsx:350-354 | the group value read from a row is a field matching the grouping ignoring case, or the field named "undefined" |
| FilterComposer.ComposeDrillDown | src/App.jsx:332-397 | the click is rejected iff the value is absent, falsy or `"0"`; otherwise the filters are `DrillDownFilters`, which gains the context and clicked values and `group_by` becomes the lower-cased header |
| FilterComposer.DrillDownAddsClicked | src/App.jsx:378-390 | the context step leaves the clicked key alone; the coerced clicked value is present by text under it; nothing is appended if its text was present, and otherwise the coerced value itself is appended after the earlier entries |
| FilterComposer.DrillDownStoresYear | src/App.jsx:378-390 | under `years` an integer's text is stored as the number itself, appended after the entries the column held before the click unless that text was already there |
| FilterComposer.DrillDownKeepsContext | src/App.jsx:343-375 | `ContextFilters`, the first half of the click: under a different grouping, the row's coerced group value is appended to the lower-cased grouping's entries unless its text is there; with no such value that category is untouched |
| FilterComposer.DrillDownOthersUnchanged | src/App.jsx:338-390 | categories other than the clicked key and the grouping are untouched |
| FilterComposer.DrillDownWellFormed | src/App.jsx:343-390 | a click keeps the filters well formed |
| FilterComposer.RepeatClickIdempotent | src/App.jsx:332-397 | clicking the same cell again from the resulting state leaves the filters unchanged |
| FilterComposer.ExampleGroupValue | src/App.jsx:350-351 | in `{Authors: "Smith", Years: 2020}` the `authors` group value is `"Smith"` |
| FilterComposer.ExampleContext | src/App.jsx:343-374 | grouped by `authors`, a click on `years` keeps `authors: ["Smith"]` |
| FilterComposer.DrillDownExample | src/App.jsx:332-397 | that click on `"2020"` gives `{authors: ["Smith"], years: [2020]}` |
| FilterComposer.ComposeBatchAdd | src/App.jsx:258-281 | nothing to do iff no grouping or nothing checked; otherwise the grouped category is the left fold of strict-`includes` pushes over the selection |
| FilterComposer.BatchAddFilters | src/App.jsx:263-280 | only the grouped category changes; its old entries stay in front and it holds exactly them and the coerced selection |
| FilterComposer.AddSelectedKeepsPrefix | src/App.jsx:263-278 | existing entries keep their order at the front |
| FilterComposer.AddSelectedContents | src/App.jsx:268-278 | `AddSelected`, the `forEach` of `PushIfAbsent` (push unless `includes`) over the selection: afterwards the category holds exactly the old entries and the coerced selection |
| FilterComposer.AddSelectedDistinct | src/App.jsx:275-277 | no two entries are `===`-equal afterwards if none were before |
| FilterComposer.AddSelectedPresent | src/App.jsx:275 | when every selected value is present, nothing changes |
| FilterComposer.BatchAddIdempotent | src/App.jsx:258-281 | adding the same selection twice equals once, and a non-empty selection leaves the category non-empty |
| FilterComposer.BatchAddTextDuplicate | src/App.jsx:275 | strict `includes` lets the number 5 and the text `"5"` sit side by side |
| FilterComposer.SetAdd | src/App.jsx:293 | `Set.add`: membership gains the element, order and distinctness are kept |
| FilterComposer.SetDelete | src/App.jsx:295 | `Set.delete`: membership loses the element, distinctness is kept |
| FilterComposer.SetDeleteAppend | src/App.jsx:295 | `Set.delete` works piece by piece, so the other elements keep their insertion order |
| FilterComposer.SetDeleteSingle | src/App.jsx:295 | one element is kept exactly when it differs from the deleted one |
| FilterComposer.Toggle | src/App.jsx:289-299 | the value's text is selected iff `checked`; no other membership changes; the set stays duplicate-free |
| NextState.NextSorting | src/App.jsx:313-322 | `order_by` becomes the header; `desc` iff it was already active (ignoring case) and `asc`; limit and offset kept |
| NextState.SortClicksAlternate | src/App.jsx:315-321 | clicking a header twice flips the direction while the column stays active |
| NextState.GroupByClick | src/App.jsx:301-306 | `group_by` becomes the lower-cased header and nothing else changes |
| NextState.Submit | src/App.jsx:453-455 | a blank draft is ignored; otherwise only the question changes, to the trimmed draft, which is non-empty with no whitespace at its ends |
| NextState.SubmitIdempotent | src/App.jsx:453-455 | submitting the question a submit produced changes nothing more |
| NextState.SuggestionClick | src/App.jsx:404-407 | only the question changes, to the suggestion without tags |
| Hover.FlattenClassify | src/App.jsx:27-45 | `Flatten` writes a one-part variant as the source's four-field descriptor and `Classify` reads it back: a descriptor built from a variant uses at most one part and reads back as that variant |
| Hover.ClassifyFlatten | src/App.jsx:27-45 | a descriptor with at most one part in use is exactly its variant, flattened |
| Hover.CellDescriptor | src/App.jsx:128-144 | the cell part carries header, cell text and grouping; the group value is the text of the capitalised field when that is truthy, and empty otherwise |
| Hover.CellHoverLookupIsCaseSensitive | src/App.jsx:129-133 | grouped by `authors`, hovering a row whose key is `authors` sends an empty group value |
| Hover.FilterDescriptor | src/App.jsx:155-161 | only the filter part is set, to the hovered name and value |
| Hover.SortDescriptor | src/App.jsx:172-182 | only the sort part is set; the arrow is the current order when the column is active (ignoring case), else `"neutral"` |
| Hover.GroupDescriptor | src/App.jsx:199-202 | only the group-by part is set, to the hovered column |
| Hover.DescriptorsAreSingleKind | src/App.jsx:136-202 | every descriptor a hover handler builds has at most one part in use |
| Transport.Receive | src/api.js:15-61 | `PostState` and `PostHoverEvent` are this with their default messages "Failed to sync state" and "Failed to send hover event": ok gives the parsed body (possibly none) and no error; non-ok gives no data and the detail, else the status text; an exception gives its message, else the default |
| Transport.OutcomeShape | src/api.js:15-61 | data and an error never come together; an exception always has a message; no data and no error happen exactly for an unparseable ok body or a bare non-ok reply with empty status text |
| Transport.SilentRejection | src/api.js:30-32 | a non-ok reply with no detail and no status text is reported as neither data nor error |
| Insights.CloseFrom | src/components/Insights.jsx:11 | where the lazy match closes is a `**` marker at or after the enclosed text's start |
| Insights.CloseFromSpec | src/components/Insights.jsx:11 | the lazy match closes at the first marker reachable without crossing a line terminator, and at none when there is no such marker |
| Insights.Scan | src/components/Insights.jsx:11 | each step of the scan consumes at least one character |
| Insights.ScanWellMatched | src/components/Insights.jsx:11 | each matched text is what the lazy `(.*?)` captures: no `**`, no line terminator, and no final `*` |
| Insights.ScanTakesEveryMatch | src/components/Insights.jsx:11 | the replacement is global: a character is copied only where no match can start, so every match outside those already taken is replaced |
| Insights.ScanKeepsText | src/components/Insights.jsx:11 | the matches, taken left to right without overlap, and the characters between them make up the input exactly |
| Insights.FormatMarkdownBold | src/components/Insights.jsx:10-11 | the output is never shorter than the input: copied characters stay and each match only gains its tags |
| Insights.NoPairUnchanged | src/components/Insights.jsx:11 | text with no matchable pair is returned unchanged |
| Insights.NoMarkerUnchanged | src/components/Insights.jsx:11 | text with no `**` is returned unchanged |
| Insights.LoneMarkerUnchanged | src/components/Insights.jsx:11 | text with exactly one `**` is returned unchanged |
| Insights.LineBreakExample | src/components/Insights.jsx:11 | `"**a\nb**"` is returned unchanged |
| Insights.CloseAtFirst | src/components/Insights.jsx:11 | a marker preceded only by plain `.`-characters is where the match closes |
| Insights.SinglePair | src/components/Insights.jsx:11 | `"**" + x + "**"` becomes `"<strong>" + x + "</strong>"` for `x` without `**` or a line break and not ending in `*` |
| Insights.MatchStep | src/components/Insights.jsx:11 | after a match, scanning resumes behind it: `"**" + t + "**" + y` becomes `"<strong>" + t + "</strong>"` followed by `y` formatted |
| Insights.CopyStep | src/components/Insights.jsx:11 | text without `*` is copied, and what follows it is formatted in turn |
| Insights.TwoPairs | src/components/Insights.jsx:11 | two pairs separated by text without `*`, such as `"**a** **b**"`, both become `<strong>` elements |
| Insights.TrailingStarExample | src/components/Insights.jsx:11 | `"**a***"` becomes `"<strong>a</strong>*"` |
| Insights.FormatAll | src/components/Insights.jsx:19-25 | every item of a list is shown formatted, one for one |
| Insights.View | src/components/Insights.jsx:1-6 | nothing renders iff both lists are empty or absent; each section appears iff its list is non-empty, and holds every entry formatted, in order |
| Insights.PlainItemsShownVerbatim | src/components/Insights.jsx:15-28 | observations without `**` are shown as they are |
| App.Controller.constructor | src/App.jsx:49-73 | every state slot and ref starts at its initial value |
| App.Controller.StartSync | src/App.jsx:211-220 | with a sync in flight nothing is sent and the error stays; otherwise the payload is sent and the error is cleared; the flag is up afterwards |
| App.Controller.CompleteSync | src/App.jsx:221-235 | data becomes the state, the ref and the draft's question; without data nothing is rolled back; a non-empty error is recorded; the flag is lowered |
| App.Controller.ApplyLocal | src/App.jsx:430-436 | the state is replaced, the ref catches up, and a changed question is copied to the draft |
| App.Controller.Commit | src/App.jsx:249-251 | the optimistic state is applied and sent unless a sync is in flight |
| App.Controller.Mount | src/App.jsx:438-441 | the initial state is sent on mount |
| App.Controller.RemoveFilterChip | src/App.jsx:238-254 | the state's filters lose the chip and the result is sent under the single-flight rule |
| App.Controller.AddSelectedToFilters | src/App.jsx:258-287 | no grouping or no selection is a complete no-op; otherwise the selection is added, cleared, and the state sent |
| App.Controller.ToggleGroupedValue | src/App.jsx:289-299 | the value's text is selected iff `checked`, no other membership changes |
| App.Controller.GroupByClick | src/App.jsx:301-311 | the grouping becomes the lower-cased header and is sent |
| App.Controller.SortClick | src/App.jsx:313-328 | the sorting is toggled and sent |
| App.Controller.CellClick | src/App.jsx:332-402 | a rejected value changes nothing and sends nothing; otherwise the drill-down state is applied and sent |
| App.Controller.SuggestionClick | src/App.jsx:404-414 | question and draft become the suggestion's plain text, and the state is sent |
| App.Controller.EditDraft | src/App.jsx:452 | the draft becomes the typed text |
| App.Controller.Submit | src/App.jsx:453-458 | a blank draft changes nothing; otherwise the trimmed draft becomes the question and is sent |
| App.Controller.ToggleHoverEffects | src/App.jsx:416-424 | the flag flips, and switching off puts the question back in the draft |
| App.Controller.ResetHoverState | src/App.jsx:94-97 | with hover effects on, the descriptor returns to its initial value |
| App.Controller.RestoreOriginalQuestion | src/App.jsx:99-102 | with hover effects on, the draft returns to the question |
| App.Controller.SendHover | src/App.jsx:104-108 | with hover effects off nothing is sent; otherwise the draft shows the loading text and the descriptor is sent |
| App.Controller.CompleteHover | src/App.jsx:109-116 | an error sets the draft to the error text and shows the error; otherwise a non-empty message replaces the draft |
| App.Controller.HoverOn | src/App.jsx:125-146 | with hover effects off nothing changes; otherwise the descriptor is recorded and sent |
| App.Controller.CellHover | src/App.jsx:123-149 | the cell descriptor is recorded and sent when hover effects are on, nothing otherwise |
| App.Controller.FilterHover | src/App.jsx:151-166 | the filter descriptor is recorded and sent when hover effects are on, nothing otherwise |
| App.Controller.SortHover | src/App.jsx:168-193 | the sort descriptor is recorded and sent when hover effects are on, nothing otherwise |
| App.Controller.GroupByHover | src/App.jsx:195-207 | the group-by descriptor is recorded and sent when hover effects are on, nothing otherwise |
| App.ShowDataIffAny | src/App.jsx:77-87 | `ShouldShowData`: with well-formed filters the table is shown exactly when a category exists or rows came back |
| App.CellClickShowsData | src/App.jsx:87 | after an accepted cell click the table is shown, whatever the result |
| App.InsightsGuardAgrees | src/App.jsx:90-92 | `ShouldShowInsights`: the page shows the insights container exactly when the panel renders something |
| App.TwoClicksOneRequest | src/App.jsx:211-216 | of two clicks in a row only the first is sent, while the second's state is still applied |
| App.ServerWins | src/App.jsx:224-228 | a response overwrites a local change made while it was in flight, and that change was never sent |
| App.FailureKeepsOptimisticState | src/App.jsx:230-232 | a failed sync keeps the optimistic state and shows the error |
| App.LateHoverReply | src/App.jsx:109-116 | a hover reply after hover effects were switched off still replaces the draft |

## Left out

- The network, JSON parsing and `fetch` in src/api.js. A reply is given as one of its
  three shapes (`Transport.Reply`), and requests are the values the start methods return.
- React's runtime. The model does not cover effect scheduling order, stale `useCallback`
  closures, `setState` batching, concurrent interleavings inside one handler, or the blur
  and spinner tied to `isSyncing`. `isSyncing` and `isSyncingRef` are one field here.
- The browser side effects `window.toggleHoverEffects` (src/App.jsx:426-428) and
  `window.scrollTo` (src/App.jsx:410).
- The order in which concurrent hover replies arrive. Any order is one sequence of
  `CompleteHover` calls, and the source guarantees none.
- Full `Number()` semantics (floats, exponents, hexadecimal, `Number("") === 0`). They are
  narrowed to decimal integers with an optional sign (`JsText.IsNumeric`, `JsText.ParseInt`).
- Unicode case mapping beyond ASCII letters (`JsText.Lower`, `JsText.Capitalize`).
- `null` values inside result rows and filter arrays. Row cells and filter entries are
  strings or whole numbers. An absent cell value is `None` for the cell click and the cell
  hover.
- QueryModel.Val: numbers are unbounded integers, and `JsText.IntToString` writes every
  digit. JavaScript numbers are doubles, so integers beyond 2^53 are not exact, and
  `toString` uses exponent form from 1e21 on. For such numbers the text comparisons of
  src/App.jsx:243, 369 and 386 could differ from the model's.
- App.Controller.ToggleGroupedValue: it takes a present value. In the source,
  `value.toString()` (src/App.jsx:293) throws for a row that lacks the grouped column, and
  the throwing state updater aborts the render. The model does not capture that failure.
- The presentation in src/components/DataTable.jsx, src/components/FilterChips.jsx and
  src/components/EditorBar.jsx, and the HTML sink `dangerouslySetInnerHTML`.
- Insights.Scan, Insights.FormatMarkdownBold: their own contracts give only length bounds.
  What they compute is stated by the lemmas beside them: `ScanKeepsText`, `ScanWellMatched`,
  `ScanTakesEveryMatch`, `MatchStep` and `CopyStep`.
- Insights.SinglePair: it also requires that `x` does not end with `*`. Without that
  condition the statement is false (`Insights.TrailingStarExample`).
- App.Controller.CompleteSync: it requires that a sync was started, because the source
  only reaches that code after its own start.
