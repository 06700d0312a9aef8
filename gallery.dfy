/**
 * `renderNasaImages`: the search response is cut to `limit` items, each item
 * becomes a card (title, alt text, thumbnail, download link), and the mount
 * point shows a no-results notice, the grid of cards, or a failure notice.
 * The two network calls are inputs: the parsed search response, and for each
 * item the href list its asset request produced (or nothing when that
 * request or its parsing failed).
 */
module Gallery {
  import opened Wrappers
  import opened Text
  import AssetResolver
  import UriComponent

  /**
   * One search result: the `title` of its first metadata record, the `href`
   * of its first link, and the outcome of its asset request (`None` when the
   * request threw and the `catch` ran).
   */
  datatype Item = Item(title: Option<string>, linkHref: Option<string>, listing: Option<seq<string>>)

  /** The parsed search response: `collection.items`, if present; or a failed request/parse. */
  datatype SearchResponse = Parsed(items: Option<seq<Item>>) | RequestFailed

  /** What one card shows. `searchLink` is the "Open in NASA Library" target. */
  datatype Card = Card(title: string, alt: string, thumb: string, download: string, searchLink: string)

  /** What the mount point ends up holding. */
  datatype View = NoResults(query: string) | Grid(cards: seq<Card>) | CouldNotContact

  const LibrarySearch := "https://images.nasa.gov/search?q="

  /** Where `Array.prototype.slice(0, limit)` stops on a list of `len` elements. */
  function SliceEnd(len: nat, limit: int): (e: nat)
    ensures e <= len
  {
    if limit < 0 then (if len + limit < 0 then 0 else len + limit)
    else if limit < len then limit else len
  }

  /** `items.slice(0, limit)`: the API's items in API order, at most `limit` of them. */
  function Batch(items: seq<Item>, limit: int): (b: seq<Item>)
    ensures |b| <= |items| && b == items[..|b|]
    ensures limit >= 0 ==> |b| == (if limit < |items| then limit else |items|)
    ensures limit < 0 ==> |b| == (if |items| + limit < 0 then 0 else |items| + limit)
  {
    items[..SliceEnd(|items|, limit)]
  }

  /** `meta.title || query`. */
  function CardTitle(query: string, it: Item): string {
    if it.title.Some? && it.title.value != "" then it.title.value else query
  }

  /** `(it.links && it.links[0] && it.links[0].href) || ""`. */
  function LinkThumb(it: Item): string {
    if it.linkHref.Some? then it.linkHref.value else ""
  }

  /** `origHref`: the resolved asset href, "" when the asset request failed. */
  function OrigHref(it: Item): string {
    if it.listing.Some? then AssetResolver.Resolve(it.listing.value) else ""
  }

  /** The card one item yields. */
  function CardFor(query: string, it: Item): (card: Card)
    ensures '"' !in card.alt
    ensures card.title != "" <== query != ""
  {
    var title := CardTitle(query, it);
    var origHref := OrigHref(it);
    var thumb := if LinkThumb(it) == "" && it.listing.Some? then origHref else LinkThumb(it);
    Card(title, EscapeQuotes(title), thumb, if origHref != "" then origHref else thumb,
         LibrarySearch + UriComponent.Encode(query))
  }

  /**
   * The loop of `renderNasaImages` over a parsed response, from the cut to
   * `limit` to the final grid: one card per item, in API order.
   */
  method Render(query: string, response: SearchResponse, limit: int) returns (view: View)
    ensures response.RequestFailed? ==> view == CouldNotContact
    ensures response.Parsed? ==>
              var batch := Batch(if response.items.Some? then response.items.value else [], limit);
              && (batch == [] ==> view == NoResults(query))
              && (batch != [] ==> view.Grid? && |view.cards| == |batch|
                                  && forall i :: 0 <= i < |batch| ==> view.cards[i] == CardFor(query, batch[i]))
  {
    if response.RequestFailed? {
      return CouldNotContact;
    }
    var items := Batch(if response.items.Some? then response.items.value else [], limit);
    if |items| == 0 {
      return NoResults(query);
    }
    var cards: seq<Card> := [];
    for i := 0 to |items|
      invariant |cards| == i
      invariant forall k :: 0 <= k < i ==> cards[k] == CardFor(query, items[k])
    {
      var it := items[i];
      var title := CardTitle(query, it);
      var thumb := LinkThumb(it);
      var origHref := "";
      if it.listing.Some? {
        origHref := AssetResolver.Resolve(it.listing.value);
        if thumb == "" {
          thumb := origHref;
        }
      }
      var download := if origHref != "" then origHref else thumb;
      var card := Card(title, EscapeQuotes(title), thumb, download,
                       LibrarySearch + UriComponent.Encode(query));
      cards := cards + [card];
    }
    return Grid(cards);
  }

  /** The title is the item's own non-empty title, else the query; the alt text is
      that title with its quotes escaped, and reads back as the title when the
      title has no `&`. */
  lemma CardTitleRule(query: string, it: Item)
    ensures var card := CardFor(query, it);
            && card.title == (if it.title.Some? && it.title.value != "" then it.title.value else query)
            && card.alt == EscapeQuotes(card.title)
            && '"' !in card.alt
            && ('&' !in card.title ==> UnescapeQuotes(card.alt) == card.title)
  {
    if '&' !in CardTitle(query, it) {
      UnescapeEscapeQuotes(CardTitle(query, it));
    }
  }

  /** The thumbnail is the first link's href; without one, the resolved asset
      href if the asset listing was obtained, and "" if its request failed. */
  lemma CardThumbnailRule(query: string, it: Item)
    ensures var thumb := CardFor(query, it).thumb;
            && (it.linkHref.Some? && it.linkHref.value != "" ==> thumb == it.linkHref.value)
            && (LinkThumb(it) == "" && it.listing.Some? ==> thumb == AssetResolver.Resolve(it.listing.value))
            && (LinkThumb(it) == "" && it.listing.None? ==> thumb == "")
  {
  }

  /** The download link is the resolved href when there is one, else the thumbnail;
      it is always one of the item's own hrefs or "". */
  lemma CardDownloadRule(query: string, it: Item)
    ensures var card := CardFor(query, it);
            && (OrigHref(it) != "" ==> card.download == OrigHref(it))
            && (OrigHref(it) == "" ==> card.download == card.thumb)
            && (it.listing.None? ==> card.download == LinkThumb(it))
            && (card.download == "" || card.download == LinkThumb(it)
                || (it.listing.Some? && card.download in it.listing.value))
  {
  }
}
