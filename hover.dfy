/**
  The hover descriptor of src/App.jsx (`initialHoverState` and the objects the hover
  handlers build with `{...initialHoverState, part: ...}`), and the tagged variant it
  stands for: at most one of its four parts is in use.
*/
module Hover {
  import opened Wrappers
  import JsText
  import opened QueryModel

  datatype CellPart = CellPart(columnName: string, cellValue: string, groupByColumn: string, groupByValue: string)
  datatype FilterPart = FilterPart(filterName: string, filterValue: Val)
  datatype SortPart = SortPart(columnName: string, arrowPosition: string)
  datatype GroupPart = GroupPart(columnName: string)

  /** The four-part object sent to the hover endpoint. */
  datatype HoverState = HoverState(
    cellHover: CellPart,
    filterHover: FilterPart,
    sortingHover: SortPart,
    groupbyHover: GroupPart)

  const NoCell := CellPart("", "", "", "")
  const NoFilter := FilterPart("", Str(""))
  const NoSort := SortPart("", "")
  const NoGroup := GroupPart("")

  /** `initialHoverState`: every part blank. */
  const InitialHover := HoverState(NoCell, NoFilter, NoSort, NoGroup)

  /** The draft placeholder while a hover question is being fetched. */
  const Loading := "loading user question..."

  /** The draft text when fetching a hover question failed. */
  const LoadError := "Error loading question"

  // ---------------------------------------------------------------------
  // The tagged variant behind the four-part object
  // ---------------------------------------------------------------------

  datatype HoverKind =
    | NoHover
    | OnCell(cell: CellPart)
    | OnFilter(filter: FilterPart)
    | OnSort(sort: SortPart)
    | OnGroup(group: GroupPart)

  /** The four-part object for a variant: the initial object with that variant's part set. */
  function Flatten(k: HoverKind): HoverState {
    match k
    case NoHover => InitialHover
    case OnCell(c) => InitialHover.(cellHover := c)
    case OnFilter(f) => InitialHover.(filterHover := f)
    case OnSort(s) => InitialHover.(sortingHover := s)
    case OnGroup(g) => InitialHover.(groupbyHover := g)
  }

  /** The variant a four-part object shows: its first part that is not blank. */
  function Classify(h: HoverState): HoverKind {
    if h.cellHover != NoCell then OnCell(h.cellHover)
    else if h.filterHover != NoFilter then OnFilter(h.filterHover)
    else if h.sortingHover != NoSort then OnSort(h.sortingHover)
    else if h.groupbyHover != NoGroup then OnGroup(h.groupbyHover)
    else NoHover
  }

  /** How many of the four parts are not blank. */
  function ActiveParts(h: HoverState): nat {
    (if h.cellHover != NoCell then 1 else 0) + (if h.filterHover != NoFilter then 1 else 0)
    + (if h.sortingHover != NoSort then 1 else 0) + (if h.groupbyHover != NoGroup then 1 else 0)
  }

  /** The part the variant carries is not blank. */
  predicate Filled(k: HoverKind) {
    match k
    case NoHover => true
    case OnCell(c) => c != NoCell
    case OnFilter(f) => f != NoFilter
    case OnSort(s) => s != NoSort
    case OnGroup(g) => g != NoGroup
  }

  /** A flattened variant has at most one part in use, and a filled variant is read back. */
  lemma FlattenClassify(k: HoverKind)
    ensures ActiveParts(Flatten(k)) <= 1
    ensures Filled(k) ==> Classify(Flatten(k)) == k
  {
  }

  /** Conversely, an object with at most one part in use is exactly its variant, flattened. */
  lemma ClassifyFlatten(h: HoverState)
    requires ActiveParts(h) <= 1
    ensures Flatten(Classify(h)) == h && Filled(Classify(h))
  {
  }

  // ---------------------------------------------------------------------
  // The descriptors the hover handlers send
  // ---------------------------------------------------------------------

  /** `handleCellHover`'s descriptor. The group value is read from the capitalised field only
      (`row[groupByKey]`) and only when truthy. */
  function CellDescriptor(header: string, value: Option<Val>, groupBy: Option<string>, row: Row): (h: HoverState)
    ensures h == Flatten(OnCell(h.cellHover))
    ensures h.cellHover.columnName == header
    ensures h.cellHover.cellValue == if value.Some? then ToString(value.value) else ""
    ensures h.cellHover.groupByColumn == if Truthy(groupBy) then groupBy.value else ""
    ensures h.cellHover.groupByValue != "" ==>
      Truthy(groupBy) && exists i :: (0 <= i < |row| && row[i].name == JsText.Capitalize(groupBy.value)
                                      && ToString(row[i].value) == h.cellHover.groupByValue)
    ensures Truthy(groupBy) ==>
      var cell := Get(row, JsText.Capitalize(groupBy.value));
      h.cellHover.groupByValue == if cell.Some? && ValTruthy(cell.value) then ToString(cell.value) else ""
  {
    var groupByKey := if Truthy(groupBy) then JsText.Capitalize(groupBy.value) else "";
    var cell := if groupByKey != "" then Get(row, groupByKey) else None;
    var groupedValue := if cell.Some? && ValTruthy(cell.value) then ToString(cell.value) else "";
    InitialHover.(cellHover := CellPart(
      header,
      if value.Some? then ToString(value.value) else "",
      if Truthy(groupBy) then groupBy.value else "",
      groupedValue))
  }

  /** Unlike a cell click, a cell hover does not fall back to a field whose name matches the
      grouping only ignoring case: grouped by `authors`, a field named `authors` is not seen. */
  lemma CellHoverLookupIsCaseSensitive()
    ensures CellDescriptor("title", Some(Str("T")), Some("authors"), [Field("authors", Str("Smith"))])
      .cellHover.groupByValue == ""
  {
    assert JsText.Capitalize("authors") == "Authors";
    assert Get([Field("authors", Str("Smith"))], "Authors") == None;
  }

  /** `handleFilterHover`'s descriptor. */
  function FilterDescriptor(filterName: string, filterValue: Val): (h: HoverState)
    ensures h == Flatten(OnFilter(h.filterHover))
    ensures h.filterHover == FilterPart(filterName, filterValue)
  {
    InitialHover.(filterHover := FilterPart(filterName, filterValue))
  }

  /** `handleSortHover`'s descriptor: the arrow shows the current direction when the column is
      the sort column (ignoring case), and "neutral" otherwise. */
  function SortDescriptor(columnName: string, sorting: Sorting): (h: HoverState)
    ensures h == Flatten(OnSort(h.sortingHover))
    ensures h.sortingHover.columnName == columnName
    ensures h.sortingHover.arrowPosition == if IsActiveSort(sorting, columnName) then sorting.order else "neutral"
  {
    var arrowPosition := if IsActiveSort(sorting, columnName) then sorting.order else "neutral";
    InitialHover.(sortingHover := SortPart(columnName, arrowPosition))
  }

  /** `handleGroupByHover`'s descriptor. */
  function GroupDescriptor(columnName: string): (h: HoverState)
    ensures h == Flatten(OnGroup(h.groupbyHover))
    ensures h.groupbyHover == GroupPart(columnName)
  {
    InitialHover.(groupbyHover := GroupPart(columnName))
  }

  /** Every descriptor a handler builds is one variant of the tagged form. */
  lemma DescriptorsAreSingleKind(header: string, value: Option<Val>, groupBy: Option<string>, row: Row,
                                 name: string, fv: Val, sorting: Sorting)
    ensures ActiveParts(CellDescriptor(header, value, groupBy, row)) <= 1
    ensures ActiveParts(FilterDescriptor(name, fv)) <= 1
    ensures ActiveParts(SortDescriptor(header, sorting)) <= 1
    ensures ActiveParts(GroupDescriptor(header)) <= 1
  {
    FlattenClassify(OnCell(CellDescriptor(header, value, groupBy, row).cellHover));
    FlattenClassify(OnFilter(FilterPart(name, fv)));
    FlattenClassify(OnSort(SortDescriptor(header, sorting).sortingHover));
    FlattenClassify(OnGroup(GroupPart(header)));
  }
}
