/**
  The filter deltas of src/App.jsx: removing a chip, drilling down from a cell,
  adding the checked values of a grouped view, and toggling a checkbox.

  Two different duplicate rules are at work. A cell click compares values by
  their text (`arr.map((v) => v?.toString()).includes(...)`); the batch add
  compares them with `===` (`existing.includes(...)`), so a number and the
  string of its digits count as different there.
*/
module FilterComposer {
  import opened Wrappers
  import JsText
  import opened QueryModel

  // ---------------------------------------------------------------------
  // Shared vocabulary
  // ---------------------------------------------------------------------

  /** `arr.map((v) => v?.toString())`. */
  function Texts(arr: seq<Val>): seq<string> {
    seq(|arr|, i requires 0 <= i < |arr| => ToString(arr[i]))
  }

  /** The texts of the entries, as a set. */
  ghost function TextSet(arr: seq<Val>): set<string> {
    set x | x in arr :: ToString(x)
  }

  /** No two entries have the same text: the uniqueness the filters are meant to keep. */
  predicate TextUnique(arr: seq<Val>) {
    forall i, j :: 0 <= i < j < |arr| ==> ToString(arr[i]) != ToString(arr[j])
  }

  /** No two entries are `===`-equal. */
  predicate Distinct<T(==)>(s: seq<T>) {
    forall i, j :: 0 <= i < j < |s| ==> s[i] != s[j]
  }

  /** Every present category has at least one value, and its values differ in text. */
  predicate WellFormed(f: Filters) {
    forall k :: k in f ==> f[k] != [] && TextUnique(f[k])
  }

  /** `nextFilters[key] ? [...nextFilters[key]] : []`. */
  function Existing(f: Filters, key: string): seq<Val> {
    if key in f then f[key] else []
  }

  lemma TextsMembership(arr: seq<Val>, t: string)
    ensures t in Texts(arr) <==> t in TextSet(arr)
  {
    if t in Texts(arr) {
      var i :| 0 <= i < |arr| && Texts(arr)[i] == t;
      assert arr[i] in arr;
    }
    if t in TextSet(arr) {
      var x :| x in arr && ToString(x) == t;
      var i :| 0 <= i < |arr| && arr[i] == x;
      assert Texts(arr)[i] == t;
    }
  }

  // ---------------------------------------------------------------------
  // Years coercion
  // ---------------------------------------------------------------------

  /** `!Number.isNaN(Number(v)) && key === "years" ? Number(v) : v`: under `years` a numeric
      string becomes its number; every other value, and every value elsewhere, is kept. */
  function Coerce(key: string, v: Val): (r: Val)
    ensures r.Num? <==> v.Num? || (key == "years" && JsText.IsNumeric(v.s))
    ensures v.Str? && r.Num? ==> r.n == JsText.ParseInt(v.s)
    ensures r.Str? || v.Num? ==> r == v
  {
    match v
    case Num(_) => v
    case Str(s) => if key == "years" && JsText.IsNumeric(s) then Num(JsText.ParseInt(s)) else v
  }

  /** The text of any integer, clicked under `years`, is stored as that integer. */
  lemma CoerceYearsRoundTrip(n: int)
    ensures Coerce("years", Str(JsText.IntToString(n))) == Num(n)
  {
    JsText.IntRoundTrip(n);
  }

  /** `"2020"` is stored as the number 2020 under `years`, and as text under `authors`. */
  lemma CoerceExamples()
    ensures Coerce("years", Str("2020")) == Num(2020)
    ensures Coerce("authors", Str("2020")) == Str("2020")
  {
    CoerceYearsRoundTrip(2020);
    assert JsText.IntToString(2020) == "2020";
  }

  // ---------------------------------------------------------------------
  // Adding by text (the cell click's rule)
  // ---------------------------------------------------------------------

  /** `if (!arr.map(toString).includes(v.toString())) arr.push(v); nextFilters[key] = arr`. */
  function AddByText(f: Filters, key: string, v: Val): (r: Filters)
    ensures r.Keys == f.Keys + {key}
    ensures forall k :: k in f && k != key ==> r[k] == f[k]
    ensures ToString(v) in Texts(r[key])
    ensures Existing(f, key) <= r[key] && |r[key]| <= |Existing(f, key)| + 1
    ensures ToString(v) in Texts(Existing(f, key)) ==> r[key] == Existing(f, key)
    ensures ToString(v) !in Texts(Existing(f, key)) ==> r[key] == Existing(f, key) + [v]
  {
    var arr := Existing(f, key);
    var arr' := if ToString(v) in Texts(arr) then arr else arr + [v];
    assert Texts(arr') == Texts(arr) + [ToString(v)] || arr' == arr;
    f[key := arr']
  }

  /** Adding the same value twice leaves the filters as adding it once. */
  lemma AddByTextIdempotent(f: Filters, key: string, v: Val)
    ensures AddByText(AddByText(f, key, v), key, v) == AddByText(f, key, v)
  {
  }

  /** Adding by text keeps every category non-empty and free of text duplicates. */
  lemma AddByTextWellFormed(f: Filters, key: string, v: Val)
    requires WellFormed(f)
    ensures WellFormed(AddByText(f, key, v))
  {
    var arr := Existing(f, key);
    var r := AddByText(f, key, v);
    if ToString(v) !in Texts(arr) {
      assert r[key] == arr + [v];
      forall i, j | 0 <= i < j < |r[key]| ensures ToString(r[key][i]) != ToString(r[key][j]) {
        if j == |arr| {
          assert Texts(arr)[i] == ToString(r[key][i]);
        }
      }
    }
  }

  // ---------------------------------------------------------------------
  // Chip removal (removeFilterChip)
  // ---------------------------------------------------------------------

  /** `arr.filter((v) => v?.toString() !== t)`. */
  function WithoutText(arr: seq<Val>, t: string): (r: seq<Val>)
    ensures forall x :: x in r <==> x in arr && ToString(x) != t
    ensures |r| <= |arr|
    ensures t !in TextSet(arr) ==> r == arr
  {
    if arr == [] then []
    else
      var tail := WithoutText(arr[1..], t);
      assert forall x :: x in arr <==> x == arr[0] || x in arr[1..];
      assert t !in TextSet(arr) ==> t !in TextSet(arr[1..]) && ToString(arr[0]) != t;
      if ToString(arr[0]) != t then [arr[0]] + tail else tail
  }

  lemma TextUniqueTail(arr: seq<Val>)
    requires arr != [] && TextUnique(arr)
    ensures TextUnique(arr[1..])
    ensures forall y :: y in arr[1..] ==> ToString(y) != ToString(arr[0])
  {
    forall i, j | 0 <= i < j < |arr[1..]| ensures ToString(arr[1..][i]) != ToString(arr[1..][j]) {
      assert arr[1..][i] == arr[i + 1] && arr[1..][j] == arr[j + 1];
    }
    forall y | y in arr[1..] ensures ToString(y) != ToString(arr[0]) {
      var m :| 0 <= m < |arr[1..]| && arr[1..][m] == y;
      assert arr[m + 1] == y;
    }
  }

  lemma TextUniqueCons(x: Val, tail: seq<Val>)
    requires TextUnique(tail) && forall y :: y in tail ==> ToString(y) != ToString(x)
    ensures TextUnique([x] + tail)
  {
    var r := [x] + tail;
    assert forall k :: 0 <= k < |tail| ==> r[k + 1] == tail[k];
    assert forall k :: 0 <= k < |tail| ==> ToString(tail[k]) != ToString(x) by {
      assert forall k :: 0 <= k < |tail| ==> tail[k] in tail;
    }
  }

  /** Keeping a sub-list of text-unique entries keeps them text-unique. */
  lemma {:induction false} WithoutTextUnique(arr: seq<Val>, t: string)
    requires TextUnique(arr)
    ensures TextUnique(WithoutText(arr, t))
  {
    if arr != [] {
      TextUniqueTail(arr);
      WithoutTextUnique(arr[1..], t);
      if ToString(arr[0]) != t {
        TextUniqueCons(arr[0], WithoutText(arr[1..], t));
      }
    }
  }

  /** `filter` keeps the surviving entries in their order: it works piece by piece. */
  lemma {:induction false} WithoutTextAppend(a: seq<Val>, b: seq<Val>, t: string)
    ensures WithoutText(a + b, t) == WithoutText(a, t) + WithoutText(b, t)
  {
    if a == [] {
      assert a + b == b;
    } else {
      assert (a + b)[0] == a[0] && (a + b)[1..] == a[1..] + b;
      WithoutTextAppend(a[1..], b, t);
    }
  }

  /** On one entry, `filter` keeps it exactly when its text differs. */
  lemma WithoutTextSingle(x: Val, t: string)
    ensures WithoutText([x], t) == if ToString(x) != t then [x] else []
  {
    assert [x][1..] == [];
  }

  /** `removeFilterChip`: every entry of `filters[key]` with the text of `v` is dropped, and the
      category disappears when nothing is left. */
  function RemoveChip(f: Filters, key: string, v: Val): (r: Filters)
    ensures key !in f ==> r == f
    ensures forall k :: k != key ==> (k in r <==> k in f) && (k in f ==> r[k] == f[k])
    ensures key in r <==> key in f && WithoutText(f[key], ToString(v)) != []
    ensures key in r ==> r[key] == WithoutText(f[key], ToString(v)) && ToString(v) !in TextSet(r[key])
  {
    if key in f then
      var kept := WithoutText(f[key], ToString(v));
      if kept == [] then f - {key} else f[key := kept]
    else f
  }

  /** Removal keeps every category non-empty and free of text duplicates. */
  lemma RemoveChipWellFormed(f: Filters, key: string, v: Val)
    requires WellFormed(f)
    ensures WellFormed(RemoveChip(f, key, v))
  {
    if key in f {
      WithoutTextUnique(f[key], ToString(v));
    }
  }

  /** Removing a chip and adding it back by text restores which texts the category holds;
      the other categories are untouched. */
  lemma RemoveThenAddRestoresTexts(f: Filters, key: string, v: Val)
    requires key in f && ToString(v) in TextSet(f[key])
    ensures var g := AddByText(RemoveChip(f, key, v), key, v);
      && g.Keys == f.Keys
      && (forall k :: k in f && k != key ==> g[k] == f[k])
      && TextSet(g[key]) == TextSet(f[key])
  {
    var t := ToString(v);
    var kept := WithoutText(f[key], t);
    var removed := RemoveChip(f, key, v);
    assert Existing(removed, key) == kept;
    assert t !in TextSet(kept);
    TextsMembership(kept, t);
    var g := AddByText(removed, key, v);
    assert g[key] == kept + [v];
    assert TextSet(kept + [v]) == TextSet(kept) + {t} by {
      assert forall x :: x in kept + [v] <==> x in kept || x == v;
    }
    assert TextSet(kept) == TextSet(f[key]) - {t};
  }

  /** `hasActiveFilters`: some category holds at least one value. */
  predicate HasActiveFilters(f: Filters) {
    exists k :: k in f && |f[k]| > 0
  }

  /** For well-formed filters, being active is the same as having any category. */
  lemma ActiveIffNonEmpty(f: Filters)
    requires WellFormed(f)
    ensures HasActiveFilters(f) <==> f.Keys != {}
  {
    if f.Keys != {} {
      var k :| k in f.Keys;
      assert |f[k]| > 0;
    }
  }

  // ---------------------------------------------------------------------
  // Drill-down (handleCellClickWithRow)
  // ---------------------------------------------------------------------

  /** `!value || value === "0"`: the click is ignored. */
  predicate Rejected(value: Option<Val>) {
    value.None? || !ValTruthy(value.value) || value.value == Str("0")
  }

  /** A present value is ignored exactly when it is the empty text or its text is `"0"`: the
      number 0 and the string "0" alike, but not "00" or "-0". */
  lemma RejectedByText(v: Val)
    ensures Rejected(Some(v)) <==> v == Str("") || ToString(v) == "0"
  {
    if v.Num? {
      assert JsText.IntToString(0) == "0";
      JsText.IntRoundTrip(v.n);
      JsText.IntRoundTrip(0);
    }
  }

  /** `row[Capitalized] ?? row[Object.keys(row).find(...)]`. When no key matches, the source
      indexes the row with `undefined`, which reads the field named "undefined". */
  function GroupValue(row: Row, groupBy: string): (r: Option<Val>)
    ensures Get(row, JsText.Capitalize(groupBy)).Some? ==> r == Get(row, JsText.Capitalize(groupBy))
    ensures (exists i :: 0 <= i < |row| && JsText.Lower(row[i].name) == JsText.Lower(groupBy)) ==> r.Some?
  {
    match Get(row, JsText.Capitalize(groupBy))
    case Some(v) => Some(v)
    case None => Get(row, FindKeyIgnoringCase(row, JsText.Lower(groupBy)).GetOr("undefined"))
  }

  /** Without the capitalised field, the value comes from the first field whose name matches
      the grouping ignoring case. */
  lemma GroupValueFirstMatch(row: Row, groupBy: string, i: nat)
    requires Get(row, JsText.Capitalize(groupBy)).None?
    requires i < |row| && JsText.Lower(row[i].name) == JsText.Lower(groupBy)
    requires forall j :: 0 <= j < i ==> JsText.Lower(row[j].name) != JsText.Lower(groupBy)
    ensures GroupValue(row, groupBy) == Some(row[i].value)
  {
    FindFirstMatch(row, JsText.Lower(groupBy), i);
    GetFirst(row, i);
  }

  /** The value found for the grouped column comes from a field whose name equals the grouping
      ignoring case, or, failing that, from a field literally named "undefined". */
  lemma GroupValueSource(row: Row, groupBy: string, v: Val)
    requires GroupValue(row, groupBy) == Some(v)
    ensures exists i :: (0 <= i < |row| && row[i].value == v
      && (JsText.Lower(row[i].name) == JsText.Lower(groupBy) || row[i].name == "undefined"))
  {
    JsText.LowerCapitalize(groupBy);
  }

  /** Step 2 of the click: keep the row's value of the current grouping as a filter. */
  function ContextFilters(f: Filters, groupBy: Option<string>, key: string, row: Row): Filters {
    if Truthy(groupBy) && JsText.Lower(groupBy.value) != key then
      var gk := JsText.Lower(groupBy.value);
      match GroupValue(row, groupBy.value)
      case None => f
      case Some(g) => AddByText(f, gk, Coerce(gk, g))
    else f
  }

  /** The filters after clicking value `v` in column `key` (already lower-cased). */
  function DrillDownFilters(f: Filters, groupBy: Option<string>, key: string, v: Val, row: Row): Filters {
    AddByText(ContextFilters(f, groupBy, key, row), key, Coerce(key, v))
  }

  /** `handleCellClickWithRow`'s state computation: a rejected value gives nothing to apply;
      otherwise the filters gain the context value and the clicked value, and the grouping
      pivots to the clicked column. */
  method ComposeDrillDown(state: QueryState, header: string, value: Option<Val>, row: Row)
    returns (next: Option<QueryState>)
    ensures next.None? <==> Rejected(value)
    ensures next.Some? ==> next.value == state.(
      filters := DrillDownFilters(state.filters, state.groupBy, JsText.Lower(header), value.value, row),
      groupBy := Some(JsText.Lower(header)))
  {
    if Rejected(value) {
      return None;
    }
    var filterKey := JsText.Lower(header);
    var nextFilters := state.filters;
    if Truthy(state.groupBy) && JsText.Lower(state.groupBy.value) != filterKey {
      var currentGroupByKey := JsText.Lower(state.groupBy.value);
      var currentGroupByValue := GroupValue(row, state.groupBy.value);
      if currentGroupByValue.Some? {
        var arr := Existing(nextFilters, currentGroupByKey);
        var filterValue := Coerce(currentGroupByKey, currentGroupByValue.value);
        if ToString(filterValue) !in Texts(arr) {
          arr := arr + [filterValue];
        }
        nextFilters := nextFilters[currentGroupByKey := arr];
      }
    }
    var targetArray := Existing(nextFilters, filterKey);
    var filterValue := Coerce(filterKey, value.value);
    if ToString(filterValue) !in Texts(targetArray) {
      targetArray := targetArray + [filterValue];
    }
    nextFilters := nextFilters[filterKey := targetArray];
    next := Some(state.(filters := nextFilters, groupBy := Some(filterKey)));
  }

  /** The clicked value, coerced, is present by text afterwards; what the column held before
      (after the context step) stays in front, and nothing is appended if its text was there. */
  lemma DrillDownAddsClicked(f: Filters, groupBy: Option<string>, key: string, v: Val, row: Row)
    ensures var r := DrillDownFilters(f, groupBy, key, v, row);
      var before := Existing(ContextFilters(f, groupBy, key, row), key);
      && before == Existing(f, key)
      && key in r && ToString(Coerce(key, v)) in Texts(r[key])
      && before <= r[key]
      && (ToString(Coerce(key, v)) in Texts(before) ==> r[key] == before)
      && (ToString(Coerce(key, v)) !in Texts(before) ==> r[key] == before + [Coerce(key, v)])
  {
  }

  /** Under `years` the clicked text of an integer is stored as that integer, not as text,
      unless an entry with that text is already there. */
  lemma DrillDownStoresYear(f: Filters, groupBy: Option<string>, n: int, row: Row)
    ensures var r := DrillDownFilters(f, groupBy, "years", Str(JsText.IntToString(n)), row);
      var before := Existing(ContextFilters(f, groupBy, "years", row), "years");
      && before == Existing(f, "years")
      && r["years"] == if JsText.IntToString(n) in Texts(before) then before else before + [Num(n)]
  {
    CoerceYearsRoundTrip(n);
  }

  /** With a different grouping active, the row's group value is kept as a filter under the
      lower-cased grouping; when the row has no such value that category is left alone. */
  lemma DrillDownKeepsContext(f: Filters, groupBy: Option<string>, key: string, v: Val, row: Row)
    requires Truthy(groupBy) && JsText.Lower(groupBy.value) != key
    ensures var r := DrillDownFilters(f, groupBy, key, v, row);
      var gk := JsText.Lower(groupBy.value);
      match GroupValue(row, groupBy.value)
      case None => (gk in r <==> gk in f) && (gk in f ==> r[gk] == f[gk])
      case Some(g) =>
        && gk in r && ToString(Coerce(gk, g)) in Texts(r[gk])
        && r[gk] == if ToString(Coerce(gk, g)) in Texts(Existing(f, gk)) then Existing(f, gk)
                    else Existing(f, gk) + [Coerce(gk, g)]
  {
  }

  /** Categories other than the clicked one and the current grouping are not touched. */
  lemma DrillDownOthersUnchanged(f: Filters, groupBy: Option<string>, key: string, v: Val, row: Row, k: string)
    requires k != key && !(Truthy(groupBy) && k == JsText.Lower(groupBy.value))
    ensures var r := DrillDownFilters(f, groupBy, key, v, row);
      (k in r <==> k in f) && (k in f ==> r[k] == f[k])
  {
  }

  /** A click keeps the filters well formed. */
  lemma DrillDownWellFormed(f: Filters, groupBy: Option<string>, key: string, v: Val, row: Row)
    requires WellFormed(f)
    ensures WellFormed(DrillDownFilters(f, groupBy, key, v, row))
  {
    var c := ContextFilters(f, groupBy, key, row);
    if Truthy(groupBy) && JsText.Lower(groupBy.value) != key {
      var gk := JsText.Lower(groupBy.value);
      match GroupValue(row, groupBy.value)
      case None =>
      case Some(g) => AddByTextWellFormed(f, gk, Coerce(gk, g));
    }
    AddByTextWellFormed(c, key, Coerce(key, v));
  }

  /** Clicking the same cell again, from the state the first click produced, leaves the
      filters as they are: the grouping now equals the clicked column, so only the idempotent
      add of the clicked value remains. */
  lemma RepeatClickIdempotent(f: Filters, groupBy: Option<string>, header: string, v: Val, row: Row)
    ensures var key := JsText.Lower(header);
      var r := DrillDownFilters(f, groupBy, key, v, row);
      DrillDownFilters(r, Some(key), key, v, row) == r
  {
    var key := JsText.Lower(header);
    JsText.LowerIdempotent(header);
    var r := DrillDownFilters(f, groupBy, key, v, row);
    assert ContextFilters(r, Some(key), key, row) == r;
  }

  /** The row of the drill-down example: `{Authors: "Smith", Years: 2020}`. */
  const ExampleRow: Row := [Field("Authors", Str("Smith")), Field("Years", Num(2020))]

  lemma ExampleGroupValue()
    ensures GroupValue(ExampleRow, "authors") == Some(Str("Smith"))
  {
    assert JsText.Capitalize("authors") == "Authors";
  }

  lemma ExampleAdd()
    ensures AddByText(map[], "authors", Str("Smith")) == map["authors" := [Str("Smith")]]
  {
    var none: seq<Val> := [];
    assert Existing(map[], "authors") == none && Texts(none) == [];
    assert none + [Str("Smith")] == [Str("Smith")];
  }

  lemma ExampleContext()
    ensures ContextFilters(map[], Some("authors"), "years", ExampleRow) == map["authors" := [Str("Smith")]]
  {
    JsText.LowerNoUpper("authors");
    assert "authors" != "years";
    ExampleGroupValue();
    assert Coerce("authors", Str("Smith")) == Str("Smith");
    ExampleAdd();
  }

  /** Grouped by `authors`, clicking `2020` under `years` in a row whose `Authors` is `Smith`
      filters on both. */
  lemma DrillDownExample()
    ensures DrillDownFilters(map[], Some("authors"), "years", Str("2020"), ExampleRow)
         == map["authors" := [Str("Smith")], "years" := [Num(2020)]]
  {
    ExampleContext();
    CoerceExamples();
    var ctx := map["authors" := [Str("Smith")]];
    var none: seq<Val> := [];
    assert Existing(ctx, "years") == none && Texts(none) == [];
    assert none + [Num(2020)] == [Num(2020)];
  }

  // ---------------------------------------------------------------------
  // Batch add of the checked values (addSelectedToFilters)
  // ---------------------------------------------------------------------

  /** `if (!existing.includes(v)) existing.push(v)`: strict equality, not text. */
  function PushIfAbsent(arr: seq<Val>, v: Val): seq<Val> {
    if v in arr then arr else arr + [v]
  }

  /** The `forEach` over the selection, in insertion order. */
  function AddSelected(existing: seq<Val>, key: string, sel: seq<string>): seq<Val>
    decreases |sel|
  {
    if sel == [] then existing
    else AddSelected(PushIfAbsent(existing, Coerce(key, Str(sel[0]))), key, sel[1..])
  }

  /** The selected values after coercion. */
  function Coerced(key: string, sel: seq<string>): seq<Val> {
    seq(|sel|, i requires 0 <= i < |sel| => Coerce(key, Str(sel[i])))
  }

  /** The grouped category gains the coerced selection, after the entries it held; no other
      category changes. */
  function BatchAddFilters(f: Filters, key: string, sel: seq<string>): (r: Filters)
    ensures r.Keys == f.Keys + {key}
    ensures forall k :: k in f && k != key ==> r[k] == f[k]
    ensures Existing(f, key) <= r[key]
    ensures forall x :: x in r[key] <==> x in Existing(f, key) || x in Coerced(key, sel)
  {
    AddSelectedKeepsPrefix(Existing(f, key), key, sel);
    AddSelectedContents(Existing(f, key), key, sel);
    f[key := AddSelected(Existing(f, key), key, sel)]
  }

  /** `addSelectedToFilters`' state computation: nothing to do without a grouping or without a
      selection; otherwise the grouped category gains the selected values. */
  method ComposeBatchAdd(state: QueryState, selected: seq<string>) returns (next: Option<QueryState>)
    ensures next.None? <==> !Truthy(state.groupBy) || selected == []
    ensures next.Some? ==> next.value == state.(
      filters := BatchAddFilters(state.filters, JsText.Lower(state.groupBy.value), selected))
  {
    if !Truthy(state.groupBy) || |selected| == 0 {
      return None;
    }
    var groupByKey := JsText.Lower(state.groupBy.value);
    var nextFilters := state.filters;
    var existing := Existing(nextFilters, groupByKey);
    ghost var original := existing;
    var i := 0;
    while i < |selected|
      invariant 0 <= i <= |selected|
      invariant AddSelected(existing, groupByKey, selected[i..]) == AddSelected(original, groupByKey, selected)
    {
      var filterValue := Coerce(groupByKey, Str(selected[i]));
      if filterValue !in existing {
        existing := existing + [filterValue];
      }
      assert selected[i..][1..] == selected[i + 1..];
      i := i + 1;
    }
    nextFilters := nextFilters[groupByKey := existing];
    next := Some(state.(filters := nextFilters));
  }

  /** The entries already there keep their places at the front. */
  lemma {:induction false} AddSelectedKeepsPrefix(existing: seq<Val>, key: string, sel: seq<string>)
    ensures existing <= AddSelected(existing, key, sel)
    decreases |sel|
  {
    if sel != [] {
      var e' := PushIfAbsent(existing, Coerce(key, Str(sel[0])));
      AddSelectedKeepsPrefix(e', key, sel[1..]);
    }
  }

  /** Afterwards the category holds exactly the old entries and the coerced selection. */
  lemma {:induction false} AddSelectedContents(existing: seq<Val>, key: string, sel: seq<string>)
    ensures forall x :: x in AddSelected(existing, key, sel) <==> x in existing || x in Coerced(key, sel)
    decreases |sel|
  {
    if sel != [] {
      var c := Coerce(key, Str(sel[0]));
      var e' := PushIfAbsent(existing, c);
      AddSelectedContents(e', key, sel[1..]);
      assert forall x :: x in Coerced(key, sel) <==> x == c || x in Coerced(key, sel[1..]) by {
        assert Coerced(key, sel) == [c] + Coerced(key, sel[1..]);
      }
    }
  }

  /** The `includes` check never lets an `===`-duplicate in. */
  lemma {:induction false} AddSelectedDistinct(existing: seq<Val>, key: string, sel: seq<string>)
    requires Distinct(existing)
    ensures Distinct(AddSelected(existing, key, sel))
    decreases |sel|
  {
    if sel != [] {
      var c := Coerce(key, Str(sel[0]));
      var e' := PushIfAbsent(existing, c);
      assert Distinct(e') by {
        if c !in existing {
          forall i, j | 0 <= i < j < |e'| ensures e'[i] != e'[j] {
            if j == |existing| {
              assert e'[i] == existing[i];
            }
          }
        }
      }
      AddSelectedDistinct(e', key, sel[1..]);
    }
  }

  /** When every selected value is already present, nothing changes. */
  lemma {:induction false} AddSelectedPresent(existing: seq<Val>, key: string, sel: seq<string>)
    requires forall x :: x in Coerced(key, sel) ==> x in existing
    ensures AddSelected(existing, key, sel) == existing
    decreases |sel|
  {
    if sel != [] {
      assert Coerced(key, sel) == [Coerce(key, Str(sel[0]))] + Coerced(key, sel[1..]);
      AddSelectedPresent(existing, key, sel[1..]);
    }
  }

  /** Adding the same selection twice gives what adding it once gave, so no duplicates arise;
      and a non-empty selection leaves the category non-empty. */
  lemma BatchAddIdempotent(f: Filters, key: string, sel: seq<string>)
    ensures BatchAddFilters(BatchAddFilters(f, key, sel), key, sel) == BatchAddFilters(f, key, sel)
    ensures sel != [] ==> BatchAddFilters(f, key, sel)[key] != []
  {
    var once := AddSelected(Existing(f, key), key, sel);
    AddSelectedContents(Existing(f, key), key, sel);
    AddSelectedPresent(once, key, sel);
    if sel != [] {
      assert Coerced(key, sel)[0] in once;
    }
  }

  /** Text uniqueness is not kept by the batch add: the number 5 already filtered on and the
      checked text "5" end up side by side. */
  lemma BatchAddTextDuplicate()
    ensures var r := BatchAddFilters(map["citations" := [Num(5)]], "citations", ["5"]);
      r == map["citations" := [Num(5), Str("5")]] && !TextUnique(r["citations"])
  {
    assert Existing(map["citations" := [Num(5)]], "citations") == [Num(5)];
    assert Coerce("citations", Str("5")) == Str("5");
    assert PushIfAbsent([Num(5)], Str("5")) == [Num(5), Str("5")];
    assert AddSelected([Num(5), Str("5")], "citations", []) == [Num(5), Str("5")];
    assert ["5"][1..] == [];
    assert JsText.IntToString(5) == [JsText.DigitChar(5)] == "5";
    var both := [Num(5), Str("5")];
    assert ToString(both[0]) == ToString(both[1]);
  }

  // ---------------------------------------------------------------------
  // Checkbox selection (toggleGroupedValue): a JavaScript Set of strings
  // ---------------------------------------------------------------------

  /** `set.add(x)`: a new element goes last, a present one keeps its place. */
  function SetAdd(sel: seq<string>, x: string): (r: seq<string>)
    ensures forall y :: y in r <==> y in sel || y == x
    ensures sel <= r
    ensures Distinct(sel) ==> Distinct(r)
  {
    if x in sel then sel else sel + [x]
  }

  /** `set.delete(x)`. */
  function SetDelete(sel: seq<string>, x: string): (r: seq<string>)
    ensures forall y :: y in r <==> y in sel && y != x
    ensures Distinct(sel) ==> Distinct(r)
  {
    if sel == [] then []
    else
      var tail := SetDelete(sel[1..], x);
      assert forall y :: y in sel <==> y == sel[0] || y in sel[1..];
      if sel[0] == x then tail
      else
        var r := [sel[0]] + tail;
        assert Distinct(sel) ==> Distinct(r) by {
          if Distinct(sel) {
            assert Distinct(sel[1..]) by {
              forall i, j | 0 <= i < j < |sel[1..]| ensures sel[1..][i] != sel[1..][j] {
                assert sel[1..][i] == sel[i + 1] && sel[1..][j] == sel[j + 1];
              }
            }
            forall j | 0 < j < |r| ensures r[0] != r[j] {
              assert r[j] in tail;
              assert r[j] in sel[1..];
            }
            forall i, j | 0 <= i < j < |r| ensures r[i] != r[j] {
              if i > 0 {
                assert r[i] == tail[i - 1] && r[j] == tail[j - 1];
              }
            }
          }
        }
        r
  }

  /** `delete` keeps the other elements in insertion order: it works piece by piece. */
  lemma {:induction false} SetDeleteAppend(a: seq<string>, b: seq<string>, x: string)
    ensures SetDelete(a + b, x) == SetDelete(a, x) + SetDelete(b, x)
  {
    if a == [] {
      assert a + b == b;
    } else {
      assert (a + b)[0] == a[0] && (a + b)[1..] == a[1..] + b;
      SetDeleteAppend(a[1..], b, x);
    }
  }

  /** On one element, `delete` keeps it exactly when it differs. */
  lemma SetDeleteSingle(y: string, x: string)
    ensures SetDelete([y], x) == if y != x then [y] else []
  {
    assert [y][1..] == [];
  }

  /** `toggleGroupedValue(value, checked)`. */
  function Toggle(sel: seq<string>, value: Val, checked: bool): (r: seq<string>)
    ensures checked <==> ToString(value) in r
    ensures forall y :: y != ToString(value) ==> (y in r <==> y in sel)
    ensures Distinct(sel) ==> Distinct(r)
  {
    var t := ToString(value);
    var r := if checked then SetAdd(sel, t) else SetDelete(sel, t);
    assert t in r <==> checked;
    r
  }
}
