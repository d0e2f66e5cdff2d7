/** The landscape grid of result buttons: the width-keyed parameter table, the
    row/column/x counter loop that places one 82x82 button per result, and the
    page count. Positions are exact reals; every constant is an integer or a
    half-integer. */
module Tiling {
  import opened StoreModel

  /** Grid parameters: buttons per column and row of a page, the cell each
      button is centred in, and the page margins. */
  datatype Grid = Grid(
    columnsPerPage: nat,
    rowsPerPage: nat,
    itemWidth: real,
    itemHeight: real,
    marginX: real,
    marginY: real)
  {
    function ButtonsPerPage(): nat {
      columnsPerPage * rowsPerPage
    }

    /** Horizontal extent of one page of columns, both side margins included. */
    function PageWidth(): real {
      Times(columnsPerPage, itemWidth) + 2.0 * marginX
    }
  }

  datatype Rect = Rect(x: real, y: real, width: real, height: real)

  /** A placed button: its tag, the result it shows and its frame. */
  datatype Tile = Tile(tag: int, result: SearchResult, frame: Rect)

  const ButtonSize: real := 82.0
  const TagBase: int := 2000
  const DefaultGrid: Grid := Grid(6, 3, 94.0, 88.0, 2.0, 20.0)

  /** A grid in which every cell can hold a button and the margins are not negative. */
  predicate ValidGrid(g: Grid) {
    && g.columnsPerPage >= 1 && g.rowsPerPage >= 1
    && g.itemWidth >= ButtonSize && g.itemHeight >= ButtonSize
    && g.marginX >= 0.0 && g.marginY >= 0.0
  }

  /** The four landscape widths the table has an entry for. */
  predicate RecognisedWidth(w: real) {
    w == 568.0 || w == 667.0 || w == 736.0 || w == 724.0
  }

  /** The parameter table of `tileButtons`: defaults, overridden per known width. */
  function GridFor(viewWidth: real): (g: Grid)
    ensures ValidGrid(g)
    ensures g.ButtonsPerPage() >= 18
    ensures !RecognisedWidth(viewWidth) ==> g == DefaultGrid
  {
    if viewWidth == 568.0 then DefaultGrid
    else if viewWidth == 667.0 then
      DefaultGrid.(columnsPerPage := 7, itemWidth := 95.0, itemHeight := 98.0, marginX := 1.0, marginY := 29.0)
    else if viewWidth == 736.0 then
      DefaultGrid.(columnsPerPage := 8, rowsPerPage := 4, itemWidth := 92.0, marginX := 0.0)
    else if viewWidth == 724.0 then
      DefaultGrid.(columnsPerPage := 8, rowsPerPage := 3, itemWidth := 90.0, itemHeight := 98.0, marginX := 2.0, marginY := 29.0)
    else DefaultGrid
  }

  /** The table's entries, value by value. */
  lemma GridTable()
    ensures GridFor(568.0) == Grid(6, 3, 94.0, 88.0, 2.0, 20.0)
    ensures GridFor(667.0) == Grid(7, 3, 95.0, 98.0, 1.0, 29.0)
    ensures GridFor(736.0) == Grid(8, 4, 92.0, 88.0, 0.0, 20.0)
    ensures GridFor(724.0) == Grid(8, 3, 90.0, 98.0, 2.0, 29.0)
  {
  }

  /** A page of the grid is exactly as wide as the scroll view precisely for the
      widths the table knows; any other width falls back to a 568-wide page. */
  lemma PageWidthMatchesView(w: real)
    ensures GridFor(w).PageWidth() == w <==> RecognisedWidth(w)
    ensures !RecognisedWidth(w) ==> GridFor(w).PageWidth() == 568.0
  {
  }

  /** `CGFloat(n) * w` for a count n, as n copies of w added up; it keeps the
      geometry below linear. `TimesIsProduct` ties it to multiplication. */
  function Times(n: nat, w: real): real {
    if n == 0 then 0.0 else Times(n - 1, w) + w
  }

  /** Swift's `/` on `Int`: the quotient rounded toward zero. */
  function TruncDiv(a: int, b: int): (q: int)
    requires b > 0
    ensures a >= 0 ==> q >= 0 && q * b <= a < q * b + b
    ensures a < 0 ==> q <= 0 && q * b - b < a <= q * b
  {
    if a >= 0 then a / b else -((-a) / b)
  }

  /** `1 + (count - 1) / buttonsPerPage` with truncating division: the ceiling of
      count / buttonsPerPage for a non-empty list; for no results the truncation
      toward zero leaves one page (none only in the degenerate one-button page). */
  function PageCount(count: nat, buttonsPerPage: nat): (pages: int)
    requires buttonsPerPage > 0
    ensures count >= 1 ==> pages >= 1 && (pages - 1) * buttonsPerPage < count <= pages * buttonsPerPage
    ensures count == 0 && buttonsPerPage >= 2 ==> pages == 1
    ensures count == 0 && buttonsPerPage == 1 ==> pages == 0
  {
    1 + TruncDiv(count - 1, buttonsPerPage)
  }

  /** The page count is the ceiling of count / buttonsPerPage for a non-empty list,
      a single (empty) page for no results, and every index lies on a page below it. */
  lemma PageCountIsCeiling(count: nat, buttonsPerPage: nat)
    requires buttonsPerPage >= 2
    ensures count == 0 ==> PageCount(count, buttonsPerPage) == 1
    ensures count >= 1 ==>
      (PageCount(count, buttonsPerPage) - 1) * buttonsPerPage < count <= PageCount(count, buttonsPerPage) * buttonsPerPage
    ensures forall i :: 0 <= i < count ==> i / buttonsPerPage < PageCount(count, buttonsPerPage)
  {
    var pages := PageCount(count, buttonsPerPage);
    if count >= 1 {
      var q := (count - 1) / buttonsPerPage;
      assert pages == 1 + q;
      forall i | 0 <= i < count
        ensures i / buttonsPerPage < pages
      {
        DivMonotone(i, count - 1, buttonsPerPage);
      }
    }
  }

  /** Left edge of the cell of global column `c` (columns counted across pages):
      one item width per column plus two margins per completed page. */
  function ColumnX(g: Grid, c: nat): real
    requires g.columnsPerPage > 0
  {
    g.marginX + Times(c, g.itemWidth) + Times(c / g.columnsPerPage, 2.0 * g.marginX)
  }

  /** The page the k-th button lands on. */
  function PageOf(g: Grid, k: nat): nat
    requires g.columnsPerPage > 0 && g.rowsPerPage > 0
  {
    k / g.rowsPerPage / g.columnsPerPage
  }

  /** Closed form of the k-th button's frame: column `k / rows`, row `k % rows`,
      centred in its cell. */
  function ButtonFrame(g: Grid, k: nat): Rect
    requires g.columnsPerPage > 0 && g.rowsPerPage > 0
  {
    Rect(ColumnX(g, k / g.rowsPerPage) + (g.itemWidth - ButtonSize) / 2.0,
         RowY(g, k % g.rowsPerPage),
         ButtonSize, ButtonSize)
  }

  /** Top edge of a button in row r: the top margin, r item heights, then the
      vertical padding that centres the button in its cell. */
  function RowY(g: Grid, r: nat): real {
    g.marginY + Times(r, g.itemHeight) + (g.itemHeight - ButtonSize) / 2.0
  }

  /** `2000 + index`, the tag of the index-th button: at least 2000, and
      `IndexForTag` recovers the index from it. */
  function TagFor(index: nat): (tag: int)
    ensures tag >= TagBase
    ensures tag - TagBase == index
  {
    TagBase + index
  }

  /** `tag - 2000`, the inverse `prepare(for:)` applies. */
  function IndexForTag(tag: int): (i: int)
    ensures i >= 0 ==> TagFor(i) == tag
  {
    tag - TagBase
  }

  lemma TagRoundTrip(index: nat)
    ensures IndexForTag(TagFor(index)) == index
  {
  }

  /** Two frames share no interior point. */
  predicate Disjoint(a: Rect, b: Rect) {
    a.x + a.width <= b.x || b.x + b.width <= a.x || a.y + a.height <= b.y || b.y + b.height <= a.y
  }

  /** `tileButtons`: one tile per result, placed by the row/column/x counters,
      then the page count and the scroll view's content width. */
  method TileButtons(results: seq<SearchResult>, viewWidth: real)
    returns (tiles: seq<Tile>, numPages: int, contentWidth: real)
    ensures |tiles| == |results|
    ensures forall i :: 0 <= i < |tiles| ==>
      tiles[i] == Tile(TagFor(i), results[i], ButtonFrame(GridFor(viewWidth), i))
    ensures numPages == PageCount(|results|, GridFor(viewWidth).ButtonsPerPage()) >= 1
    ensures |results| == 0 ==> numPages == 1 && contentWidth == viewWidth
    ensures |results| >= 1 ==>
      (numPages - 1) * GridFor(viewWidth).ButtonsPerPage() < |results| <= numPages * GridFor(viewWidth).ButtonsPerPage()
    ensures contentWidth == numPages as real * viewWidth
    ensures forall i, j :: 0 <= i < j < |tiles| ==> Disjoint(tiles[i].frame, tiles[j].frame)
    ensures RecognisedWidth(viewWidth) ==> forall i :: 0 <= i < |tiles| ==>
      0.0 <= tiles[i].frame.x && tiles[i].frame.x + tiles[i].frame.width <= contentWidth
  {
    var g := GridFor(viewWidth);
    var row, column, x;
    tiles, row, column, x := PlaceButtons(results, g);

    var buttonsPerPage := g.columnsPerPage * g.rowsPerPage;
    numPages := 1 + TruncDiv(|results| - 1, buttonsPerPage);
    contentWidth := numPages as real * viewWidth;

    PageCountIsCeiling(|results|, buttonsPerPage);
    FramesDisjoint(g, |tiles|);
    if RecognisedWidth(viewWidth) {
      FramesWithinContent(viewWidth, |tiles|);
    }
  }

  /** The loop of `tileButtons`: a row counter that wraps at `rowsPerPage`, a
      column counter that wraps at `columnsPerPage`, and a running x that grows
      by one item width per column and two margins per page. The counters' final
      values are returned so that their closed forms can be stated. */
  method PlaceButtons(results: seq<SearchResult>, g: Grid)
    returns (tiles: seq<Tile>, row: nat, column: nat, x: real)
    requires g.columnsPerPage > 0 && g.rowsPerPage > 0
    ensures |tiles| == |results|
    ensures forall i :: 0 <= i < |tiles| ==> tiles[i] == Tile(TagFor(i), results[i], ButtonFrame(g, i))
    ensures row == |results| % g.rowsPerPage < g.rowsPerPage
    ensures column == |results| / g.rowsPerPage % g.columnsPerPage < g.columnsPerPage
    ensures x == ColumnX(g, |results| / g.rowsPerPage)
  {
    var paddingHorz := (g.itemWidth - ButtonSize) / 2.0;
    var paddingVert := (g.itemHeight - ButtonSize) / 2.0;

    row := 0;
    column := 0;
    x := g.marginX;
    tiles := [];
    var index := 0;
    while index < |results|
      invariant 0 <= index <= |results|
      invariant |tiles| == index
      invariant row == index % g.rowsPerPage
      invariant column == index / g.rowsPerPage % g.columnsPerPage
      invariant x == ColumnX(g, index / g.rowsPerPage)
      invariant forall i :: 0 <= i < index ==> tiles[i] == Tile(TagFor(i), results[i], ButtonFrame(g, i))
    {
      var frame := Rect(x + paddingHorz, g.marginY + row as real * g.itemHeight + paddingVert, ButtonSize, ButtonSize);
      TimesIsProduct(row, g.itemHeight);
      assert frame == ButtonFrame(g, index);
      tiles := tiles + [Tile(TagBase + index, results[index], frame)];
      NextCell(g.rowsPerPage, index);
      row := row + 1;
      if row == g.rowsPerPage {
        NextCell(g.columnsPerPage, index / g.rowsPerPage);
        ColumnXStep(g, index / g.rowsPerPage);
        row := 0;
        x := x + g.itemWidth;
        column := column + 1;
        if column == g.columnsPerPage {
          column := 0;
          x := x + g.marginX * 2.0;
        }
      }
      index := index + 1;
    }
  }

  // ---------------------------------------------------------------------------
  // Geometry of the closed form

  /** No two of the first n buttons overlap. */
  lemma FramesDisjoint(g: Grid, n: nat)
    requires ValidGrid(g)
    ensures forall i, j :: 0 <= i < j < n ==> Disjoint(ButtonFrame(g, i), ButtonFrame(g, j))
  {
    forall i, j | 0 <= i < j < n
      ensures Disjoint(ButtonFrame(g, i), ButtonFrame(g, j))
    {
      NoOverlap(g, i, j);
    }
  }

  /** For a width the table knows, every one of n buttons lies horizontally inside
      the content area of `PageCount` scroll-view pages. */
  lemma FramesWithinContent(viewWidth: real, n: nat)
    requires RecognisedWidth(viewWidth)
    ensures forall i :: 0 <= i < n ==>
      0.0 <= ButtonFrame(GridFor(viewWidth), i).x
      && ButtonFrame(GridFor(viewWidth), i).x + ButtonFrame(GridFor(viewWidth), i).width
         <= PageCount(n, GridFor(viewWidth).ButtonsPerPage()) as real * viewWidth
  {
    var g := GridFor(viewWidth);
    var pages := PageCount(n, g.ButtonsPerPage());
    PageWidthMatchesView(viewWidth);
    PageCountIsCeiling(n, g.ButtonsPerPage());
    forall i | 0 <= i < n
      ensures 0.0 <= ButtonFrame(g, i).x
      ensures ButtonFrame(g, i).x + ButtonFrame(g, i).width <= pages as real * viewWidth
    {
      ButtonWithinPage(g, i);
      PageOfIsIndexOverPageSize(g, i);
      var p := PageOf(g, i);
      TimesMonotone(0, p, viewWidth);
      TimesMonotone(p + 1, pages, viewWidth);
      TimesIsProduct(pages, viewWidth);
    }
  }

  /** The k-th button sits inside page `PageOf(g, k)` when pages are `PageWidth()` wide. */
  lemma ButtonWithinPage(g: Grid, k: nat)
    requires ValidGrid(g)
    ensures Times(PageOf(g, k), g.PageWidth()) <= ButtonFrame(g, k).x
    ensures ButtonFrame(g, k).x + ButtonFrame(g, k).width <= Times(PageOf(g, k) + 1, g.PageWidth())
  {
    var C := g.columnsPerPage;
    var W := g.itemWidth;
    var c := k / g.rowsPerPage;
    var s := c % C;
    ColumnXOnPage(g, c);
    TimesMonotone(0, s, W);
    TimesMonotone(s, C - 1, W);
    WithinPageBounds(Times(PageOf(g, k), g.PageWidth()), g.PageWidth(), g.marginX, Times(s, W), Times(C, W), W);
  }

  /** The arithmetic of `ButtonWithinPage`, with the products named. */
  lemma WithinPageBounds(pageStart: real, w: real, m: real, sW: real, cW: real, W: real)
    requires 0.0 <= sW <= cW - W && W >= ButtonSize && m >= 0.0 && w == cW + 2.0 * m
    ensures pageStart <= pageStart + m + sW + (W - ButtonSize) / 2.0
    ensures pageStart + m + sW + (W - ButtonSize) / 2.0 + ButtonSize <= pageStart + w
  {
  }

  /** Column c's cell starts one page width per earlier page, one margin, and one
      item width per earlier column of its own page from the left. */
  lemma ColumnXOnPage(g: Grid, c: nat)
    requires g.columnsPerPage > 0
    ensures ColumnX(g, c)
      == Times(c / g.columnsPerPage, g.PageWidth()) + g.marginX + Times(c % g.columnsPerPage, g.itemWidth)
  {
    var C := g.columnsPerPage;
    var p := c / C;
    var s := c % C;
    assert c == p * C + s;
    TimesAdd(p * C, s, g.itemWidth);
    TimesOfTimes(p, C, g.itemWidth);
    TimesDistributes(p, Times(C, g.itemWidth), 2.0 * g.marginX);
  }

  /** Distinct buttons never overlap: different global columns are at least one
      item width apart, rows of one column at least one item height. */
  lemma NoOverlap(g: Grid, i: nat, j: nat)
    requires ValidGrid(g)
    requires i != j
    ensures Disjoint(ButtonFrame(g, i), ButtonFrame(g, j))
  {
    var R := g.rowsPerPage;
    if i / R == j / R {
      RowGap(g, i, j);
    } else if i / R < j / R {
      ColumnXGap(g, i / R, j / R);
    } else {
      ColumnXGap(g, j / R, i / R);
    }
  }

  lemma RowGap(g: Grid, i: nat, j: nat)
    requires ValidGrid(g)
    requires i != j && i / g.rowsPerPage == j / g.rowsPerPage
    ensures Disjoint(ButtonFrame(g, i), ButtonFrame(g, j))
  {
    var R := g.rowsPerPage;
    RemainderDiffers(i, j, R);
    if i % R < j % R {
      RowYGap(g, i % R, j % R);
    } else {
      RowYGap(g, j % R, i % R);
    }
  }

  /** A lower row starts at least one item height further down. */
  lemma RowYGap(g: Grid, a: nat, b: nat)
    requires ValidGrid(g)
    requires a < b
    ensures RowY(g, a) + g.itemHeight <= RowY(g, b)
  {
    TimesMonotone(a + 1, b, g.itemHeight);
  }

  lemma RemainderDiffers(i: nat, j: nat, n: nat)
    requires n > 0 && i != j && i / n == j / n
    ensures i % n != j % n
  {
    assert i == n * (i / n) + i % n;
    assert j == n * (j / n) + j % n;
  }

  /** A later global column starts at least one item width further right. */
  lemma ColumnXGap(g: Grid, c1: nat, c2: nat)
    requires ValidGrid(g)
    requires c1 < c2
    ensures ColumnX(g, c1) + g.itemWidth <= ColumnX(g, c2)
  {
    DivMonotone(c1, c2, g.columnsPerPage);
    TimesMonotone(c1 / g.columnsPerPage, c2 / g.columnsPerPage, 2.0 * g.marginX);
    TimesMonotone(c1 + 1, c2, g.itemWidth);
  }

  /** The page of a button is its index divided by the page's button count. */
  lemma PageOfIsIndexOverPageSize(g: Grid, k: nat)
    requires g.columnsPerPage > 0 && g.rowsPerPage > 0
    ensures PageOf(g, k) == k / g.ButtonsPerPage()
  {
    var R := g.rowsPerPage;
    var C := g.columnsPerPage;
    var c := k / R;
    var r := k % R;
    var p := c / C;
    var s := c % C;
    assert k == R * c + r;
    assert c == C * p + s;
    assert R * c == R * (C * p) + R * s;
    assert R * (C * p) == (C * R) * p;
    MulLe(R, s, C - 1);
    assert R * (C - 1) == C * R - R;
    DivModUnique(k, C * R, p, R * s + r);
  }

  // ---------------------------------------------------------------------------
  // Counter steps of the loop

  /** Advancing the index by one either bumps the remainder or wraps it to zero
      and bumps the quotient. */
  lemma NextCell(n: nat, k: nat)
    requires n > 0
    ensures k % n + 1 == n ==> (k + 1) % n == 0 && (k + 1) / n == k / n + 1
    ensures k % n + 1 < n ==> (k + 1) % n == k % n + 1 && (k + 1) / n == k / n
  {
    assert k == n * (k / n) + k % n;
    if k % n + 1 == n {
      DivModUnique(k + 1, n, k / n + 1, 0);
    } else {
      DivModUnique(k + 1, n, k / n, k % n + 1);
    }
  }

  /** Moving to the next global column adds one item width, plus two margins
      when the new column opens a page. */
  lemma ColumnXStep(g: Grid, c: nat)
    requires g.columnsPerPage > 0
    ensures c % g.columnsPerPage + 1 == g.columnsPerPage ==>
      ColumnX(g, c + 1) == ColumnX(g, c) + g.itemWidth + g.marginX * 2.0
    ensures c % g.columnsPerPage + 1 < g.columnsPerPage ==>
      ColumnX(g, c + 1) == ColumnX(g, c) + g.itemWidth
  {
    NextCell(g.columnsPerPage, c);
  }

  // ---------------------------------------------------------------------------
  // Arithmetic helpers

  lemma MulAtLeast(n: int, d: int)
    requires n > 0 && d >= 1
    ensures n * d >= n
  {
    assert n * d == n * (d - 1) + n;
    assert n * (d - 1) >= 0;
  }

  lemma MulLe(n: int, a: int, b: int)
    requires n >= 0 && a <= b
    ensures n * a <= n * b
  {
    assert n * b - n * a == n * (b - a);
    assert n * (b - a) >= 0;
  }

  lemma DivModUnique(a: int, n: int, q: int, r: int)
    requires n > 0
    requires a == n * q + r && 0 <= r < n
    ensures a / n == q && a % n == r
  {
    var q0 := a / n;
    var r0 := a % n;
    assert a == n * q0 + r0;
    assert n * (q - q0) == r0 - r;
    if q > q0 {
      MulAtLeast(n, q - q0);
      assert false;
    } else if q < q0 {
      MulAtLeast(n, q0 - q);
      assert false;
    }
  }

  lemma DivMonotone(a: nat, b: nat, n: nat)
    requires n > 0 && a <= b
    ensures a / n <= b / n
  {
    assert a == n * (a / n) + a % n;
    assert b == n * (b / n) + b % n;
    if a / n > b / n {
      MulAtLeast(n, a / n - b / n);
      assert false;
    }
  }

  lemma {:induction false} TimesIsProduct(n: nat, w: real)
    ensures Times(n, w) == n as real * w
  {
    if n > 0 {
      TimesIsProduct(n - 1, w);
    }
  }

  lemma {:induction false} TimesMonotone(a: nat, b: nat, w: real)
    requires a <= b && w >= 0.0
    ensures Times(a, w) <= Times(b, w)
    decreases b - a
  {
    if a < b {
      TimesMonotone(a, b - 1, w);
    }
  }

  lemma {:induction false} TimesAdd(a: nat, b: nat, w: real)
    ensures Times(a + b, w) == Times(a, w) + Times(b, w)
  {
    if b > 0 {
      TimesAdd(a, b - 1, w);
    }
  }

  lemma {:induction false} TimesOfTimes(a: nat, b: nat, w: real)
    ensures Times(a * b, w) == Times(a, Times(b, w))
  {
    if a > 0 {
      TimesOfTimes(a - 1, b, w);
      assert a * b == (a - 1) * b + b;
      TimesAdd((a - 1) * b, b, w);
    }
  }

  lemma {:induction false} TimesDistributes(n: nat, u: real, v: real)
    ensures Times(n, u + v) == Times(n, u) + Times(n, v)
  {
    if n > 0 {
      TimesDistributes(n - 1, u, v);
    }
  }
}
