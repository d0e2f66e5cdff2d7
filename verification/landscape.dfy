/** The landscape controller's decisions: what the first layout shows for each
    search state, what a late arrival of results shows, and which result the
    detail pop-up receives when a tile is tapped. */
module Landscape {
  import opened StoreModel
  import Tiling
  import Detail

  /** What the controller puts on screen in response to the search state. */
  datatype Display = NoDisplay | Spinner | NothingFoundLabel | TiledButtons(list: seq<SearchResult>)

  /** The switch over `search.state` that the first layout performs. */
  function LayoutDisplay(state: SearchState): (d: Display)
    ensures d == Spinner <==> state == Loading
    ensures d == NothingFoundLabel <==> state == NoResults
    ensures d == NoDisplay <==> state == NotSearchedYet
    ensures d.TiledButtons? <==> state.Results?
    ensures d.TiledButtons? ==> d.list == state.list
  {
    match state
    case NotSearchedYet => NoDisplay
    case Loading => Spinner
    case NoResults => NothingFoundLabel
    case Results(list) => TiledButtons(list)
  }

  /** The controller's own state across layout passes. */
  datatype Controller = Controller(firstTime: bool)

  const NewController := Controller(true)

  /** `viewWillLayoutSubviews`: the state switch runs on the first pass only, and
      the pass clears `firstTime`. */
  function WillLayoutSubviews(c: Controller, state: SearchState): (r: (Controller, Display))
    ensures !r.0.firstTime
    ensures c.firstTime ==> r.1 == LayoutDisplay(state)
    ensures !c.firstTime ==> r.1 == NoDisplay
  {
    if c.firstTime then (Controller(false), LayoutDisplay(state)) else (c, NoDisplay)
  }

  /** The displays of successive layout passes, the search state possibly having
      changed between passes. */
  function LayoutPasses(c: Controller, states: seq<SearchState>): (ds: seq<Display>)
    ensures |ds| == |states|
    decreases |states|
  {
    if |states| == 0 then []
    else
      var (c', d) := WillLayoutSubviews(c, states[0]);
      [d] + LayoutPasses(c', states[1..])
  }

  /** A fresh controller dispatches on the state of its first layout pass and on no
      later pass: at most one display from layout passes. */
  lemma {:induction false} DispatchHappensOnce(states: seq<SearchState>)
    ensures forall i :: 1 <= i < |states| ==> LayoutPasses(NewController, states)[i] == NoDisplay
    ensures |states| > 0 ==> LayoutPasses(NewController, states)[0] == LayoutDisplay(states[0])
  {
    if |states| > 0 {
      LaterPassesShowNothing(states[1..]);
    }
  }

  /** Once `firstTime` is cleared, layout passes show nothing. */
  lemma {:induction false} LaterPassesShowNothing(states: seq<SearchState>)
    ensures forall i :: 0 <= i < |states| ==> LayoutPasses(Controller(false), states)[i] == NoDisplay
  {
    if |states| > 0 {
      LaterPassesShowNothing(states[1..]);
    }
  }

  /** What `searchResultsReceived` does: remove the spinner (whether or not one is
      up), then show the display the state calls for. */
  datatype Reaction = Reaction(hidesSpinner: bool, display: Display)

  /** `searchResultsReceived`: the spinner is always removed, then a finished
      search is shown; an unfinished one shows nothing. */
  function SearchResultsReceived(state: SearchState): (r: Reaction)
    ensures r.hidesSpinner
    ensures r.display != Spinner
    ensures r.display == NoDisplay <==> (state == NotSearchedYet || state == Loading)
  {
    Reaction(true,
      match state
      case NotSearchedYet => NoDisplay
      case Loading => NoDisplay
      case NoResults => NothingFoundLabel
      case Results(list) => TiledButtons(list))
  }

  /** Whether a spinner is up after a reaction, given whether one was up before. */
  function SpinnerUpAfter(spinnerUp: bool, r: Reaction): bool {
    (spinnerUp && !r.hidesSpinner) || r.display == Spinner
  }

  /** For a finished search, the late arrival shows what a first layout would have. */
  lemma ReceivedAgreesWithLayout(state: SearchState)
    ensures state != NotSearchedYet && state != Loading ==> SearchResultsReceived(state).display == LayoutDisplay(state)
    ensures LayoutDisplay(state) == Spinner ==> SearchResultsReceived(state).display == NoDisplay
  {
  }

  /** Whatever the first layout put up (a spinner for a loading search), no spinner
      is left once results have been received, whatever the state is by then. */
  lemma NoSpinnerAfterResultsReceived(firstState: SearchState, laterState: SearchState)
    ensures !SpinnerUpAfter(LayoutDisplay(firstState) == Spinner, SearchResultsReceived(laterState))
  {
  }

  const ShowDetail := "Show Detail"

  /** What `prepare(for:sender:)` does to the detail controller. Indexing the list
      with an out-of-range `tag - 2000` is a run-time trap in the app. */
  datatype Preparation = Unassigned | Assigned(result: SearchResult) | IndexOutOfRange

  function Prepare(identifier: string, state: SearchState, senderTag: int): (p: Preparation)
    ensures p.Assigned? ==>
      && identifier == ShowDetail && state.Results?
      && 0 <= Tiling.IndexForTag(senderTag) < |state.list|
      && p.result == state.list[Tiling.IndexForTag(senderTag)]
    ensures (identifier != ShowDetail || !state.Results?) ==> p == Unassigned
    ensures p == IndexOutOfRange <==>
      identifier == ShowDetail && state.Results? && !(0 <= senderTag - Tiling.TagBase < |state.list|)
  {
    if identifier == ShowDetail then
      match state
      case Results(list) =>
        var index := Tiling.IndexForTag(senderTag);
        if 0 <= index < |list| then Assigned(list[index]) else IndexOutOfRange
      case _ => Unassigned
    else Unassigned
  }

  /** Tapping the tile placed for result i hands result i to the detail pop-up,
      which then shows that result's labels. */
  lemma TappedTileShowsItsResult(list: seq<SearchResult>, i: nat, format: Detail.CurrencyFormatter)
    requires i < |list|
    ensures Prepare(ShowDetail, Results(list), Tiling.TagFor(i)) == Assigned(list[i])
    ensures Detail.ViewDidLoad(Some(list[i]), format) == Some(Detail.UpdateUI(list[i], format))
    ensures Detail.UpdateUI(list[i], format).name == list[i].name
  {
    Tiling.TagRoundTrip(i);
  }
}
