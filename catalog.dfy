/** The parts of a Google Books API answer that the handlers read. Every
    other field of the JSON is carried along opaquely and not modelled. */
module Catalog {
  import opened Common

  /** A volume's `volumeInfo` object. A field that is `None` is absent from
      the JSON; `thumbnail` is `imageLinks.thumbnail`. */
  datatype VolumeInfo = VolumeInfo(
    title: Option<string>,
    authors: Option<seq<string>>,
    thumbnail: Option<string>,
    categories: Option<seq<string>>)

  /** A volume resource. `volumeInfo` is `None` when the key is absent or
      its object is empty, the two cases Python's truth test lumps
      together. */
  datatype Volume = Volume(volumeInfo: Option<VolumeInfo>)

  /** The body of a `volumes?q=...` search: `totalItems` and `items`, each
      `None` when absent. */
  datatype SearchResult = SearchResult(totalItems: Option<int>, items: Option<seq<Volume>>)

  /** `data.get("items", [])` of a search, or `[]` when the request failed
      or did not answer 200. */
  function ItemsOf(reply: Fetched<SearchResult>): (items: seq<Volume>)
    ensures reply.Failed? || reply.status != 200 ==> items == []
    ensures reply.Reply? && reply.status == 200 && reply.body.items.Some? ==> items == reply.body.items.value
    ensures reply.Reply? && reply.status == 200 && reply.body.items.None? ==> items == []
  {
    if reply.Reply? && reply.status == 200 && reply.body.items.Some? then reply.body.items.value else []
  }
}
