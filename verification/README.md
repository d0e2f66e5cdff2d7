# StoreSearch: the decision logic of the search, landscape and detail screens

StoreSearch is an iOS app that searches a media catalog. Its view controllers are
mostly UIKit wiring. This project models, in Dafny, the few pieces of them that are
plain logic:

- **Landscape tiling** (`Tiling`, `tiling.dfy`). `tileButtons` picks grid parameters
  from the scroll view's width. It then walks the results with a row counter, a
  column counter and a running x offset, giving each result an 82×82 button with
  tag `2000 + index`. Finally it counts pages as `1 + (n - 1) / (columns × rows)`
  using Swift's truncating division. Positions are exact `real`s. A count times a
  length (`CGFloat(row) * itemHeight`) is written `Times(row, itemHeight)`, which is
  repeated addition. `Tiling.TimesIsProduct` proves it equals the product. The loop is a
  `while` loop whose invariants pin `row`, `column` and `x` to closed forms. Lemmas
  prove three geometric facts. Buttons never overlap. Each button lies inside its
  page. For the four widths in the table, that page coincides with a scroll-view
  page, so every button fits in the content width.
- **Landscape dispatch** (`Landscape`, `landscape.dfy`). These are the switches over
  the search state (`notSearchedYet`, `loading`, `noResults`, `results(list)`) in the
  first layout pass and in `searchResultsReceived`. The one-shot `firstTime` flag is
  modelled too. So is `prepare(for:sender:)`, which turns a tapped button's tag back
  into the result it stands for.
- **Search table** (`SearchTable`, `search_table.dfy`). The search click is still a
  fake: it builds three results from the query text, or none for the query
  "Justin bieber". The table data-source rules decide the row count, the cell kind
  and whether a row may be selected.
- **Detail pop-up** (`Detail`, `detail.dfy`). This covers the label texts `updateUI`
  derives from a result: the "Unknown" artist placeholder and the "Free" price rule.
  It also covers the guard that fills the labels only when a result was handed
  over, and the tap filter that closes the pop-up.

The shared value types are in `StoreModel` (`model.dfy`). Two of the code's
Swift run-time traps are modelled as explicit outcomes rather than preconditions:
an out-of-range `list[tag - 2000]` in `prepare(for:)` (`Preparation.IndexOutOfRange`)
and an out-of-range `searchResults[row]` (`Cell.RowOutOfRange`). Lemmas show that
neither trap is reachable from the app's own tags and row counts. The other traps
(forced casts and implicitly unwrapped optionals) are listed under "Left out".

The `SearchResult` class and the `Search` type are not part of this model. Their
field names are taken from where the controllers use them. The search screen writes
`artistName`, while the detail screen reads `artist`. Both are modelled as the one
field `artistName`. The fields of a fresh `SearchResult()` are assumed to start as
empty strings and a zero price (`StoreModel.BlankResult`).

## Model

| member | source | states |
|---|---|---|
| Tiling.GridFor | StoreSearch/LandscapeViewController.swift:72-108 | the width table is total; whatever the width, every cell is at least 82×82 so a button fits, a page holds at least 18 buttons, margins are not negative; an unrecognised width keeps the 6×3, 94×88, 2/20 defaults |
| Tiling.GridTable | StoreSearch/LandscapeViewController.swift:81-108 | the entries for 568, 667, 736 and 724 points, value by value |
| Tiling.PageWidthMatchesView | StoreSearch/LandscapeViewController.swift:72-108 | columns × item width + 2 × marginX equals the view width exactly when the width is one of the four in the table; for every other width a grid page is 568 points wide |
| Tiling.TruncDiv | StoreSearch/LandscapeViewController.swift:137 | Swift's integer `/` rounds toward zero: quotient × divisor is the largest multiple of the divisor not above a non-negative dividend, and the smallest one not below a negative dividend |
| Tiling.PageCount | StoreSearch/LandscapeViewController.swift:137 | for n ≥ 1 results the page count is at least one and is the ceiling of n / buttonsPerPage; for no results the truncating division leaves exactly one page (zero only if a page held a single button, which no grid allows) |
| Tiling.PageCountIsCeiling | StoreSearch/LandscapeViewController.swift:136-137 | for n ≥ 1 results the page count is the ceiling of n / buttonsPerPage; n = 0 still gives one page; every index i < n lies on page i / buttonsPerPage below the count |
| Tiling.PlaceButtons | StoreSearch/LandscapeViewController.swift:115-134 | after k buttons row = k % rows < rows, column = (k / rows) % columns < columns and x = marginX + (k / rows) × itemWidth + page × 2 × marginX; the loop gives the i-th result tag 2000 + i and the frame of column i / rows, row i % rows: x = marginX + column × itemWidth + page × 2 × marginX plus half the spare width, y = marginY + row × itemHeight plus half the spare height, size 82×82 |
| Tiling.TileButtons | StoreSearch/LandscapeViewController.swift:71-144 | one tile per result with its tag and closed-form frame; the page count is `1 + (n - 1) / buttonsPerPage` with Swift's truncating division, hence the ceiling for n ≥ 1 and exactly one page (content width = view width) for an empty list; content width = pages × view width; no two buttons overlap; for the four known widths every button lies within the content width |
| Tiling.NextCell | StoreSearch/LandscapeViewController.swift:126-132 | one more button either advances the row/column counter or wraps it to 0 and carries into the next counter |
| Tiling.ColumnXStep | StoreSearch/LandscapeViewController.swift:128-131 | moving to the next column adds one item width to x, and also two margins when the column counter wraps onto a new page |
| Tiling.ColumnXOnPage | StoreSearch/LandscapeViewController.swift:117-131 | the x of a column is page × page width + marginX + (column within the page) × item width |
| Tiling.ButtonWithinPage | StoreSearch/LandscapeViewController.swift:110-131 | each button lies horizontally inside its own page of the grid |
| Tiling.NoOverlap | StoreSearch/LandscapeViewController.swift:110-133 | two different buttons never overlap: rows of one column are an item height apart, columns an item width apart |
| Tiling.FramesWithinContent | StoreSearch/LandscapeViewController.swift:136-138 | for the four known widths every button's frame lies between 0 and numPages × viewWidth |
| Tiling.PageOfIsIndexOverPageSize | StoreSearch/LandscapeViewController.swift:126-136 | the page the counters put button k on is k / (columns × rows) |
| Tiling.TimesIsProduct | StoreSearch/LandscapeViewController.swift:124 | n copies of a length added up equal `CGFloat(n)` times that length, the product the frame computation uses |
| Tiling.TagFor | StoreSearch/LandscapeViewController.swift:121 | the tag of the index-th button is at least 2000 and exceeds 2000 by exactly the index, so `IndexForTag` inverts it |
| Tiling.IndexForTag | StoreSearch/LandscapeViewController.swift:231 | subtracting 2000 from a tag gives the index whose tag it is |
| Tiling.TagRoundTrip | StoreSearch/LandscapeViewController.swift:121 | the tag 2000 + i turns back into index i |
| Landscape.LayoutDisplay | StoreSearch/LandscapeViewController.swift:48-57 | loading shows the spinner, no results shows the nothing-found label, results tile that very list, not-searched-yet shows nothing, each exactly for its own state |
| Landscape.WillLayoutSubviews | StoreSearch/LandscapeViewController.swift:45-58 | every layout pass leaves `firstTime` false; the state is dispatched on the first pass and nothing is shown on later ones |
| Landscape.DispatchHappensOnce | StoreSearch/LandscapeViewController.swift:45-58 | over any series of layout passes, a new controller shows what the first pass's state calls for, and every later pass shows nothing |
| Landscape.LaterPassesShowNothing | StoreSearch/LandscapeViewController.swift:45-46 | once `firstTime` is cleared, no layout pass shows anything |
| Landscape.SearchResultsReceived | StoreSearch/LandscapeViewController.swift:201-212 | results arriving always remove the spinner first and never show a new one; they show nothing exactly while the search is not finished |
| Landscape.NoSpinnerAfterResultsReceived | StoreSearch/LandscapeViewController.swift:201-212 | whatever the first layout put up (a spinner exactly for a loading search, by `LayoutDisplay`), no spinner remains once results have been received, whatever the state is then |
| Landscape.ReceivedAgreesWithLayout | StoreSearch/LandscapeViewController.swift:204-211 | for a finished search the late arrival shows the same as a first layout would; a loading state shows nothing there |
| Landscape.Prepare | StoreSearch/LandscapeViewController.swift:227-235 | only the "Show Detail" segue in a results state assigns a result, and it is the one at tag - 2000; any other segue or state assigns nothing; an out-of-range tag is the trap |
| Landscape.TappedTileShowsItsResult | StoreSearch/LandscapeViewController.swift:228-232 | the button tagged for result i hands result i to the detail pop-up, which shows its labels |
| SearchTable.FakeName | StoreSearch/SearchViewController.swift:51 | the name is "Fake Result ", the decimal digit of i, then " for" |
| SearchTable.FakeNamesSpelled | StoreSearch/SearchViewController.swift:49-51 | the three names are "Fake Result 0 for", "Fake Result 1 for", "Fake Result 2 for" |
| SearchTable.FakeNamesDistinct | StoreSearch/SearchViewController.swift:49-51 | the fake results have pairwise different names |
| SearchTable.FakeResults | StoreSearch/SearchViewController.swift:46-55 | the list a click builds is empty exactly for the query "Justin bieber"; otherwise it has three entries, entry i named FakeName(i) with the query as artist and every other field as in a fresh result |
| SearchTable.SearchButtonClicked | StoreSearch/SearchViewController.swift:44-58 | the earlier results are discarded; the query "Justin bieber" (exact, case-sensitive) leaves none, any other text leaves exactly three, result i named FakeName(i) with the query as artist; afterwards the screen is searched and the table has at least one row |
| SearchTable.NumberOfRows | StoreSearch/SearchViewController.swift:67-75 | no rows exactly when no search has run; one row for a searched empty list; otherwise one row per result |
| SearchTable.CellForRow | StoreSearch/SearchViewController.swift:77-87 | the nothing-found cell exactly when the list is empty; a result cell only for a row inside the list, showing that result's name and artist |
| SearchTable.RowsHaveCells | StoreSearch/SearchViewController.swift:67-87 | every row below the row count has a cell, never the out-of-range trap, and with results it shows that row's result |
| SearchTable.WillSelectRow | StoreSearch/SearchViewController.swift:93-99 | selection is refused exactly when the list is empty, and otherwise the tapped path is returned unchanged |
| SearchTable.SelectableIffResultCell | StoreSearch/SearchViewController.swift:77-99 | a row in range can be selected exactly when it shows a result cell |
| SearchTable.SearchedStaysSearched | StoreSearch/SearchViewController.swift:44-58 | after any non-empty series of searches the screen stays searched with at least one row, and it shows the last search's results alone |
| SearchTable.ReachableStatesConsistent | StoreSearch/SearchViewController.swift:17-87 | from the initial screen (no results, not searched) every series of searches leaves results only on a searched screen; zero rows exactly when no search has run; every row inside a non-empty list shows a result cell |
| Detail.ArtistText | StoreSearch/DetailViewController.swift:73-77 | the artist label is never empty; it reads "Unknown" exactly for an empty artist or one named "Unknown" |
| Detail.ArtistTextDistinguishes | StoreSearch/DetailViewController.swift:73-77 | two artists get the same label exactly when they are equal or both are among "" and "Unknown"; a non-empty artist is shown verbatim |
| Detail.PriceText | StoreSearch/DetailViewController.swift:86-93 | the price reads "Free" exactly when the price is zero or the formatter itself says "Free"; it is empty exactly when a nonzero price gets no text or empty text from the formatter |
| Detail.FreeIgnoresCurrency | StoreSearch/DetailViewController.swift:82-88 | a zero price reads "Free" whatever the currency code and formatter |
| Detail.NonzeroPriceIsFormatted | StoreSearch/DetailViewController.swift:89-93 | a nonzero price shows the formatter's text when there is one, and "" when there is none |
| Detail.UpdateUI | StoreSearch/DetailViewController.swift:70-95 | name, kind and genre are copied unchanged; the artist follows the "Unknown" placeholder rule; the price reads "Free" for a zero price, the formatter's text for a nonzero price it formats, and "" when the formatter returns nothing |
| Detail.ViewDidLoad | StoreSearch/DetailViewController.swift:38-40 | the labels are filled exactly when a result was handed over, then with that result's name and a non-empty artist text |
| Detail.ShouldReceive | StoreSearch/DetailViewController.swift:126-128 | the tap recogniser accepts a touch only when the touch has a view and that view is the controller's own view |
| Detail.OnlyBackgroundTouchesClose | StoreSearch/DetailViewController.swift:126-128 | a touch on the background view is accepted; touches on the pop-up or with no view are not |

## Left out

- The `Search` type and the networked search it performs are not part of this model. Only the shape of the search state, as the switches read it, is modelled.
- Image downloads are left out because they are network I/O: `downloadImage`, the `downloads` task list, their cancellation in `deinit`, and `loadImage` for the large artwork.
- `openInStore` is left out because it calls into the system to open a URL.
- `NumberFormatter` is a parameter (`Detail.CurrencyFormatter`) with no rules of its own.
- `print` of the page count and of `deinit` messages is left out because it only logs.
- `scrollViewDidScroll` page rounding, `pageChanged` animation, spinner centring and the `ceil`-based sizing of the nothing-found label are left out. They are floating-point view geometry tied to UIKit.
- The scroll view's content height, the page control's page count and current page, and the frames of the scroll view and page control are left out. They copy values without deciding anything.
- Tiling.TileButtons: the width switch compares `CGFloat` values exactly. Real device widths that are not whole numbers behave like any other unknown width.
- SearchTable.SearchButtonClicked: the force-unwrap `searchBar.text!` is modelled as a plain string, so the crash on a nil text is not modelled.
- The forced casts `segue.destination as! DetailViewController` and `sender as! UIButton` in `prepare(for:sender:)` (LandscapeViewController.swift:230-231) are not modelled: the model takes the destination and the sender's tag as given, so the crash on another type is not represented.
- The implicitly unwrapped `search: Search!` (LandscapeViewController.swift:17, read at :48, :204, :229) is modelled as an always-present search state, so the crash on a nil search is not modelled.
- The forced cast `as! SearchResultCell` in `cellForRowAt` (SearchViewController.swift:81) is not modelled; a dequeued cell is assumed to have the right class.
- Detail.PriceText: the price is an exact `real`, while the app passes a floating value `as NSNumber` to the formatter; NaN, infinities and rounding are not represented.
- `searchBar.resignFirstResponder()` and `tableView.reloadData()` (SearchViewController.swift:45, :57) are left out because they only drive UIKit; the model's state is the data the table would reload from.
- SearchTable.FakeName: `%d` formatting is modelled for one-digit numbers only, because the loop only formats 0, 1 and 2.
- The view-controller transitions, the presentation and animation controllers, and the gradient view are left out because they are drawing and animation. So are outlet wiring, nib registration, constraint removal and colours.
