/** The detail pop-up: the label texts derived from one search result, the guard
    that fills them only when a result was handed over, and the tap filter that
    closes the pop-up on touches outside it. */
module Detail {
  import opened StoreModel

  /** A currency-style number formatter configured with a currency code: the text
      for an amount, or None when it produces no string. Its rules are not modelled. */
  type CurrencyFormatter = (string, real) -> Option<string>

  /** The texts of the name, artist, kind and genre labels and of the price button. */
  datatype Labels = Labels(name: string, artistName: string, kind: string, genre: string, price: string)

  const UnknownArtist := "Unknown"
  const FreePrice := "Free"

  /** The artist label: a placeholder for an empty artist, the artist otherwise. */
  function ArtistText(artist: string): (t: string)
    ensures t != ""
    ensures t == UnknownArtist <==> artist == "" || artist == UnknownArtist
  {
    if artist == "" then UnknownArtist else artist
  }

  /** The artist label tells artists apart, except that an empty artist and one
      literally named "Unknown" read the same. */
  lemma ArtistTextDistinguishes(a: string, b: string)
    ensures ArtistText(a) == ArtistText(b) <==>
      a == b || (a in {"", UnknownArtist} && b in {"", UnknownArtist})
    ensures a != "" ==> ArtistText(a) == a
  {
  }

  /** The price button's title: "Free" for a zero price, else the formatter's
      text, else the empty string. */
  function PriceText(price: real, currency: string, format: CurrencyFormatter): (t: string)
    ensures t == FreePrice <==> price == 0.0 || format(currency, price) == Some(FreePrice)
    ensures t == "" <==> price != 0.0 && format(currency, price) in {None, Some("")}
  {
    if price == 0.0 then FreePrice
    else match format(currency, price)
      case Some(text) => text
      case None => ""
  }

  /** A zero price reads "Free" whatever the currency and the formatter. */
  lemma FreeIgnoresCurrency(currency1: string, currency2: string, format1: CurrencyFormatter, format2: CurrencyFormatter)
    ensures PriceText(0.0, currency1, format1) == PriceText(0.0, currency2, format2) == FreePrice
  {
  }

  /** A nonzero price shows exactly what the formatter yields, or nothing. */
  lemma NonzeroPriceIsFormatted(price: real, currency: string, format: CurrencyFormatter)
    requires price != 0.0
    ensures format(currency, price).Some? ==> PriceText(price, currency, format) == format(currency, price).value
    ensures format(currency, price).None? ==> PriceText(price, currency, format) == ""
  {
  }

  /** `updateUI`: name, kind and genre are copied, the artist gets its placeholder,
      the price its "Free" rule. */
  function UpdateUI(r: SearchResult, format: CurrencyFormatter): (l: Labels)
    ensures l.name == r.name && l.kind == r.kind && l.genre == r.genre
    ensures l.artistName == UnknownArtist <==> r.artistName == "" || r.artistName == UnknownArtist
    ensures r.artistName != "" ==> l.artistName == r.artistName
    ensures r.price == 0.0 ==> l.price == FreePrice
    ensures r.price != 0.0 && format(r.currency, r.price).Some? ==> l.price == format(r.currency, r.price).value
    ensures r.price != 0.0 && format(r.currency, r.price).None? ==> l.price == ""
  {
    Labels(r.name, ArtistText(r.artistName), r.kind, r.genre, PriceText(r.price, r.currency, format))
  }

  /** `viewDidLoad`: labels are filled only when a result has been handed over;
      otherwise they keep what the interface file put there. */
  function ViewDidLoad(searchResult: Option<SearchResult>, format: CurrencyFormatter): (l: Option<Labels>)
    ensures l.Some? <==> searchResult.Some?
    ensures l.Some? ==> l.value.name == searchResult.value.name && l.value.artistName != ""
  {
    match searchResult
    case Some(r) => Some(UpdateUI(r, format))
    case None => None
  }

  /** A view, by identity. */
  type ViewRef = nat

  /** The tap recogniser's filter: a touch closes the pop-up only when it landed on
      the controller's own (dimmed background) view, never when it landed on the
      pop-up or anything inside it. A touch may carry no view. */
  function ShouldReceive(touchedView: Option<ViewRef>, ownView: ViewRef): (accept: bool)
    ensures accept ==> touchedView.Some?
    ensures forall v :: touchedView == Some(v) && v != ownView ==> !accept
  {
    touchedView == Some(ownView)
  }

  /** Touches on the background are taken, touches on the pop-up are not. */
  lemma OnlyBackgroundTouchesClose(ownView: ViewRef, popupView: ViewRef)
    requires popupView != ownView
    ensures ShouldReceive(Some(ownView), ownView)
    ensures !ShouldReceive(Some(popupView), ownView)
    ensures !ShouldReceive(None, ownView)
  {
  }
}
