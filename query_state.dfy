/**
  The query state the client and the backend exchange (`initialAppState` in
  src/App.jsx), the scalar values that appear in filters and result rows, and
  the JavaScript conversions applied to them (`toString`, truthiness).
*/
module QueryModel {
  import opened Wrappers
  import JsText

  /** A filter value or a cell value: a string or a (whole) number. */
  datatype Val = Str(s: string) | Num(n: int)

  /** `v.toString()`: a string is its own text, and a number's text is the canonical decimal
      numeral (no `+`, no leading zero, no `-0`) that `Number` reads back as that number. */
  function ToString(v: Val): (r: string)
    ensures v.Str? ==> r == v.s
    ensures v.Num? ==> JsText.IsCanonical(r) && JsText.IsNumeric(r) && JsText.ParseInt(r) == v.n
  {
    match v
    case Str(s) => s
    case Num(n) => JsText.IntRoundTrip(n); JsText.IntToString(n)
  }

  /** JavaScript truthiness of a value: `""` and `0` are falsy. */
  predicate ValTruthy(v: Val) {
    match v
    case Str(s) => s != ""
    case Num(n) => n != 0
  }

  /** Truthiness of an optional name such as `group_by`: `null` and `""` are falsy. */
  predicate Truthy(o: Option<string>) {
    o.Some? && o.value != ""
  }

  /** A result row is an object: its fields in `Object.keys` order. */
  datatype Field = Field(name: string, value: Val)
  type Row = seq<Field>

  /** `row[name]`: the value of the first field with that name, `None` for `undefined`. */
  function Get(row: Row, name: string): (r: Option<Val>)
    ensures r.Some? <==> exists i :: 0 <= i < |row| && row[i].name == name
    ensures r.Some? ==> exists i :: 0 <= i < |row| && row[i].name == name && row[i].value == r.value
  {
    if row == [] then None
    else if row[0].name == name then Some(row[0].value)
    else Get(row[1..], name)
  }

  /** `Object.keys(row).find((k) => k.toLowerCase() === key)`: the first key, in key order,
      that matches ignoring case. */
  function FindKeyIgnoringCase(row: Row, key: string): (r: Option<string>)
    ensures r.Some? ==> JsText.Lower(r.value) == key
    ensures r.Some? ==> exists i :: 0 <= i < |row| && row[i].name == r.value
                                    && forall j :: 0 <= j < i ==> JsText.Lower(row[j].name) != key
    ensures r.None? ==> forall i :: 0 <= i < |row| ==> JsText.Lower(row[i].name) != key
  {
    if row == [] then None
    else if JsText.Lower(row[0].name) == key then Some(row[0].name)
    else
      var r := FindKeyIgnoringCase(row[1..], key);
      assert forall j :: 1 <= j < |row| ==> row[j] == row[1..][j - 1];
      r
  }

  /** The first field that matches ignoring case is the one `find` returns. */
  lemma {:induction false} FindFirstMatch(row: Row, key: string, i: nat)
    requires i < |row| && JsText.Lower(row[i].name) == key
    requires forall j :: 0 <= j < i ==> JsText.Lower(row[j].name) != key
    ensures FindKeyIgnoringCase(row, key) == Some(row[i].name)
  {
    if i > 0 {
      assert forall j :: 0 <= j < i - 1 ==> row[1..][j] == row[j + 1];
      FindFirstMatch(row[1..], key, i - 1);
    }
  }

  /** A field with no earlier field of the same name supplies `row[name]`. */
  lemma {:induction false} GetFirst(row: Row, i: nat)
    requires i < |row| && forall j :: 0 <= j < i ==> row[j].name != row[i].name
    ensures Get(row, row[i].name) == Some(row[i].value)
  {
    if i > 0 {
      assert forall j :: 0 <= j < i - 1 ==> row[1..][j] == row[j + 1];
      GetFirst(row[1..], i - 1);
    }
  }

  /** `sorting`: the sort column, the direction and the page window. */
  datatype Sorting = Sorting(orderBy: Option<string>, order: string, limit: int, offset: int)

  /** `filters`: category name to its ordered values. */
  type Filters = map<string, seq<Val>>

  datatype QueryState = QueryState(
    question: string,
    filters: Filters,
    groupBy: Option<string>,
    sorting: Sorting,
    comments: seq<string>,
    suggestions: seq<string>,
    result: seq<Row>)

  /** `initialAppState`. */
  const Initial := QueryState("", map[], None, Sorting(None, "asc", 10, 0), [], [], [])

  /** `sorting.order_by && sorting.order_by.toLowerCase() === column.toLowerCase()`:
      the column is the active sort column, compared ignoring case. */
  predicate IsActiveSort(sorting: Sorting, column: string) {
    Truthy(sorting.orderBy) && JsText.Lower(sorting.orderBy.value) == JsText.Lower(column)
  }
}
