/** The portrait search screen's table: the fake search a click performs, and the
    data-source rules that turn its results into rows, cells and selectability. */
module SearchTable {
  import opened StoreModel

  /** The screen's state: the current results and whether any search has run. */
  datatype TableState = TableState(searchResults: seq<SearchResult>, hasSearched: bool)

  /** The screen as it loads: no results, no search yet. */
  const InitialTable := TableState([], false)

  /** The one query that yields no fake results (compared case-sensitively). */
  const EmptyQuery := "Justin bieber"

  /** `String(format: "Fake Result %d for", i)` for a one-digit i. */
  function FakeName(i: nat): (s: string)
    requires i < 10
    ensures |s| == 17 && s[..12] == "Fake Result " && s[13..] == " for"
    ensures '0' <= s[12] <= '9' && s[12] as int - '0' as int == i
  {
    "Fake Result " + [('0' as int + i) as char] + " for"
  }

  /** The three fake names, spelled out. */
  lemma FakeNamesSpelled()
    ensures FakeName(0) == "Fake Result 0 for"
    ensures FakeName(1) == "Fake Result 1 for"
    ensures FakeName(2) == "Fake Result 2 for"
  {
  }

  /** Different indices give different names. */
  lemma FakeNamesDistinct(i: nat, j: nat)
    requires i < 10 && j < 10 && i != j
    ensures FakeName(i) != FakeName(j)
  {
    assert FakeName(i)[12] != FakeName(j)[12];
  }

  /** The results one click leaves, as a list expression. */
  function FakeResults(text: string): (rs: seq<SearchResult>)
    ensures rs == [] <==> text == EmptyQuery
    ensures text != EmptyQuery ==> |rs| == 3
    ensures forall i :: 0 <= i < |rs| ==>
      && rs[i].name == FakeName(i) && rs[i].artistName == text
      && rs[i] == BlankResult.(name := rs[i].name, artistName := rs[i].artistName)
  {
    if text == EmptyQuery then []
    else seq(3, i requires 0 <= i < 3 => BlankResult.(name := FakeName(i), artistName := text))
  }

  /** `searchBarSearchButtonClicked`: the results are cleared, then, unless the
      text is the one empty query, three fake results naming the query as their
      artist are appended; the screen is marked as searched. */
  method SearchButtonClicked(st: TableState, text: string) returns (st': TableState)
    ensures st'.hasSearched
    ensures text == EmptyQuery ==> st'.searchResults == []
    ensures text != EmptyQuery ==> |st'.searchResults| == 3
    ensures forall i :: 0 <= i < |st'.searchResults| ==>
      st'.searchResults[i] == BlankResult.(name := FakeName(i), artistName := text)
    ensures NumberOfRows(st') >= 1
    ensures st' == TableState(FakeResults(text), true)
  {
    var searchResults: seq<SearchResult> := [];
    if text != EmptyQuery {
      var i := 0;
      while i <= 2
        invariant 0 <= i <= 3
        invariant |searchResults| == i
        invariant forall k :: 0 <= k < i ==>
          searchResults[k] == BlankResult.(name := FakeName(k), artistName := text)
      {
        var searchResult := BlankResult.(name := FakeName(i), artistName := text);
        searchResults := searchResults + [searchResult];
        i := i + 1;
      }
    }
    st' := TableState(searchResults, true);
  }

  /** `numberOfRowsInSection`. */
  function NumberOfRows(st: TableState): (n: nat)
    ensures n == 0 <==> !st.hasSearched
    ensures st.hasSearched && st.searchResults == [] ==> n == 1
    ensures st.searchResults != [] && st.hasSearched ==> n == |st.searchResults|
  {
    if !st.hasSearched then 0
    else if |st.searchResults| == 0 then 1
    else |st.searchResults|
  }

  /** The cell a row shows. Reading a result row past the list's end is a
      run-time trap in the app. */
  datatype Cell = NothingFoundCell | ResultCell(nameText: string, artistNameText: string) | RowOutOfRange

  /** `cellForRowAt`: the nothing-found cell whenever the list is empty, otherwise
      the name and artist of the row's result. */
  function CellForRow(st: TableState, row: int): (c: Cell)
    ensures c == NothingFoundCell <==> st.searchResults == []
    ensures c.ResultCell? ==>
      && 0 <= row < |st.searchResults|
      && c == ResultCell(st.searchResults[row].name, st.searchResults[row].artistName)
  {
    if |st.searchResults| == 0 then NothingFoundCell
    else if 0 <= row < |st.searchResults| then
      var searchResult := st.searchResults[row];
      ResultCell(searchResult.name, searchResult.artistName)
    else RowOutOfRange
  }

  /** Every row the table asks for has a cell: the row count never lets a result
      row run past the list. */
  lemma RowsHaveCells(st: TableState, row: int)
    requires 0 <= row < NumberOfRows(st)
    ensures CellForRow(st, row) != RowOutOfRange
    ensures st.searchResults != [] ==> CellForRow(st, row) == ResultCell(st.searchResults[row].name, st.searchResults[row].artistName)
  {
  }

  datatype IndexPath = IndexPath(section: int, row: int)

  /** `willSelectRowAt`: no selection while the list is empty, the tapped path
      otherwise. */
  function WillSelectRow(st: TableState, path: IndexPath): (r: Option<IndexPath>)
    ensures r.None? <==> st.searchResults == []
    ensures r.Some? ==> r.value == path
  {
    if |st.searchResults| == 0 then None else Some(path)
  }

  /** A row can be selected exactly when it shows a result: the nothing-found row
      never can. */
  lemma SelectableIffResultCell(st: TableState, path: IndexPath)
    requires 0 <= path.row < NumberOfRows(st)
    ensures WillSelectRow(st, path).Some? <==> CellForRow(st, path.row).ResultCell?
  {
  }

  /** The screen's state after a series of searches. */
  function AfterSearches(st: TableState, texts: seq<string>): (st': TableState)
    decreases |texts|
  {
    if |texts| == 0 then st
    else AfterSearches(TableState(FakeResults(texts[0]), true), texts[1..])
  }

  /** Once a search has run the table never returns to zero rows, and the results
      on screen are those of the last search alone. */
  lemma {:induction false} SearchedStaysSearched(st: TableState, texts: seq<string>)
    requires |texts| > 0
    ensures AfterSearches(st, texts).hasSearched
    ensures NumberOfRows(AfterSearches(st, texts)) >= 1
    ensures AfterSearches(st, texts).searchResults == FakeResults(texts[|texts| - 1])
    decreases |texts|
  {
    if |texts| > 1 {
      SearchedStaysSearched(TableState(FakeResults(texts[0]), true), texts[1..]);
    }
  }

  /** Every state the screen reaches from its initial one has results only after a
      search; so zero rows means an empty list, and every row in range of a
      non-empty list shows its own result. */
  lemma ReachableStatesConsistent(texts: seq<string>, row: int)
    ensures AfterSearches(InitialTable, texts).hasSearched || AfterSearches(InitialTable, texts).searchResults == []
    ensures NumberOfRows(AfterSearches(InitialTable, texts)) == 0 <==> texts == []
    ensures 0 <= row < |AfterSearches(InitialTable, texts).searchResults| ==>
      CellForRow(AfterSearches(InitialTable, texts), row).ResultCell?
  {
    if |texts| > 0 {
      SearchedStaysSearched(InitialTable, texts);
    }
  }
}
