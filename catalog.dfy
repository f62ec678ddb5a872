/** The external catalog as the products service sees it: items and the outcome of a call. */
module Catalog {
  import opened Common

  /** An item of the external catalog (its rating is never used by the service). */
  datatype ExternalItem = ExternalItem(
    id: int,
    title: string,
    price: real,
    description: string,
    category: string,
    image: string)

  /** The outcome of one call to the catalog client: the data, a 404 answer, or any
      other failure (network error, timeout, non-404 status). */
  datatype Fetch<+T> = Fetched(value: T) | Missing | Unavailable

  /** An entry of the external list as create reads its id: an integer, a string
      (with the value parseInt gives it, None for NaN), any other id value, or an entry
      whose id cannot be read at all (null or undefined), where reading it throws. */
  datatype RawId = Num(n: int) | Text(parsed: Option<int>) | Other | Unreadable

  /** Every entry of the list has an id that can be read. */
  predicate Readable(raws: seq<RawId>)
  {
    forall raw :: raw in raws ==> !raw.Unreadable?
  }

  function ExternalIds(items: seq<ExternalItem>): set<int>
  {
    set e | e in items :: e.id
  }

  predicate DistinctExternalIds(items: seq<ExternalItem>)
  {
    forall i, j :: 0 <= i < j < |items| ==> items[i].id != items[j].id
  }

  /** The raw ids of a list of well-typed items, each a number. */
  function RawIdsOf(items: seq<ExternalItem>): seq<RawId>
  {
    seq(|items|, i requires 0 <= i < |items| => Num(items[i].id))
  }
}
