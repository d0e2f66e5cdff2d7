/** Value types shared by the search table, the landscape grid and the detail pop-up
    of the StoreSearch app. */
module StoreModel {

  /** An optional value, standing for Swift's `T?`. */
  datatype Option<+T> = None | Some(value: T)

  /** One catalog hit, with the fields the three controllers read or write.
      `price` is the record's numeric price; `currency` its currency code. */
  datatype SearchResult = SearchResult(
    name: string,
    artistName: string,
    kind: string,
    genre: string,
    currency: string,
    price: real,
    imageSmall: string,
    imageLarge: string,
    storeURL: string)

  /** The record `SearchResult()` yields before any field is assigned. */
  const BlankResult := SearchResult("", "", "", "", "", 0.0, "", "", "")

  /** The outcome of the current search, as the landscape controller switches on it. */
  datatype SearchState = NotSearchedYet | Loading | NoResults | Results(list: seq<SearchResult>)
}
