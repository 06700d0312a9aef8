# NSAC page script: gallery cards and the Spot-the-Station widget URL

This project models the deterministic rules inside `assets/main.js`, the
script of a small outreach page about the International Space Station:

- **The gallery renderer** (`renderNasaImages`). It takes the NASA Images
  search response and cuts it to `limit` items with `slice(0, limit)`. Each
  item becomes a card: the title, the alt text with `"` escaped as `&quot;`,
  the thumbnail, the download link and the library search link. The mount
  point ends up holding a "No results" notice, the grid of cards, or the
  "Could not contact" notice.
- **The asset resolver** inside that loop. From the hrefs of an item's asset
  listing it picks the first `~orig` image (`.jpg`, `.jpeg`, `.png`, `.tif`).
  If there is none, it picks the first `.jpg`/`.jpeg`/`.png`. If there is
  none of those either, it picks the first href, or `""` for an empty
  listing. All suffix tests ignore case.
- **The widget URL builder** (`update` in `initSpotTheStation`). It trims
  the city, region and country fields and puts in a default for each empty
  one (`New York`, `New_York`, `United_States`). It then encodes each value
  with `encodeURIComponent` and fills them into the Spot the Station widget
  URL in the order city, country, region.

The two network requests are inputs to the model. The search request is a
`SearchResponse`: either the parsed `collection.items` (`None` when the body
has no such list), or `RequestFailed` when `fetch` rejected or `res.json()`
threw. The code never checks the HTTP status: an error status whose body is
JSON without `collection.items` is `Parsed(None)` and shows "No results". Each item's asset
request is the `listing` field of its `Item`: either the list of hrefs it
produced, or `None` when that request threw and the inner `catch` ran.

Modules: `Wrappers` (Option), `Text` (trim, the case-insensitive suffix
test, quote escaping), `UriComponent` (`encodeURIComponent` and a reference
decoder), `AssetResolver`, `Gallery`, `SpotTheStation`.

Three details of the code that the model keeps:
- A card's title is guaranteed non-empty only when the query is non-empty. The title is
  `meta.title || query`, so an empty query with an untitled item gives an
  empty title. `Gallery.CardFor` states the conditional form. Every caller in
  the script passes a non-empty query.
- `encodeURIComponent` leaves `! * ' ( )` unescaped as well as the RFC 3986
  unreserved characters (ECMA-262 section 19.2.6.5, the `uriMark` set).
  `UriComponent.IsUnescaped` uses the ECMA-262 set.
- `limit` has the `Array.prototype.slice` meaning. A negative limit drops
  that many items from the end.

## Model

| member | source | states |
|---|---|---|
| Text.Trim | assets/main.js:52-54 | `trim()` drops white space (the ECMAScript WhiteSpace and LineTerminator sets) from both ends: the result is the factor of the input that starts after the leading white space, is followed only by white space, and neither starts nor ends with white space |
| Text.TrimUnpadded | assets/main.js:52-54 | a field value with no white space at its ends is left as it is by `trim()` |
| Text.TrimIdempotent | assets/main.js:52-54 | trimming a trimmed value changes nothing |
| Text.EscapeQuotes | assets/main.js:30 | `replace(/"/g,'&quot;')` leaves no raw `"` in the alt text and never shortens it |
| Text.EscapeQuotesAppend | assets/main.js:30 | the global replacement works character by character: escaping a concatenation is the concatenation of the escapes |
| Text.EscapeQuotesNoQuote | assets/main.js:30 | a title without `"` is used as it is, so escaping an already escaped alt text changes nothing |
| Text.UnescapeEscapeQuotes | assets/main.js:30 | for a title without `&`, reading the entity `&quot;` back as `"` recovers the title exactly: the escaping loses nothing |
| Text.EscapeQuotesConflates | assets/main.js:30 | without that condition the read-back fails: the titles `"` and `&quot;` give the same alt text |
| UriComponent.Encode | assets/main.js:55 | `encodeURIComponent` output consists only of unescaped characters and `%` |
| UriComponent.EncodeTriplets | assets/main.js:55 | every `%` in the output opens a triplet: it is followed by two upper-case hexadecimal digits |
| UriComponent.EncodeAppend | assets/main.js:55 | encoding works character by character: the encoding of a concatenation is the concatenation of the encodings |
| UriComponent.EncodeUnescaped | assets/main.js:55 | ASCII letters, digits and `-_.!~*'()` pass through unchanged |
| UriComponent.EncodeSpace | assets/main.js:55 | a space is written as `%20` |
| UriComponent.EncodeHidesSeparators | assets/main.js:55 | no `&` and no `=` survive encoding, so a value cannot break the query string |
| UriComponent.Utf8RoundTrip | assets/main.js:55 | the UTF-8 bytes written for a non-ASCII character decode back to that character, and the lead byte announces the right length |
| UriComponent.DecodeEncode | assets/main.js:55 | decoding the encoded text (as `decodeURIComponent` does) gives back the original for every string of Unicode scalar values |
| AssetResolver.Matches | assets/main.js:23-24 | the two suffix patterns: a match needs at least 4 characters (`.jpg`, `.png`), and a `~orig` match at least 9 |
| AssetResolver.MatchesIgnoresCase | assets/main.js:23-24 | the `i` flag: two hrefs that differ only in the case of ASCII letters match the same pattern alike |
| AssetResolver.OriginalAlsoRaster | assets/main.js:23-24 | a `~orig` JPEG or PNG also matches the second pattern, while a `~orig.tif` does not |
| AssetResolver.FindFirst | assets/main.js:23-24 | `Array.prototype.find`: the index returned is that of a matching href with no match before it, and `None` means that no href matches |
| AssetResolver.Resolve | assets/main.js:22-25 | the resolved href is `""` or one of the listing's hrefs; it is `""` only for an empty listing or one whose first href is `""` |
| AssetResolver.ResolveOriginal | assets/main.js:23 | when some href ends, ignoring case, in `~orig.jpg`, `~orig.jpeg`, `~orig.png` or `~orig.tif`, the first such href is returned |
| AssetResolver.ResolveRaster | assets/main.js:24 | with no `~orig` href, the first href ending in `.jpg`, `.jpeg` or `.png` (ignoring case) is returned |
| AssetResolver.ResolveFallback | assets/main.js:25 | with neither kind of href, the result is `hrefs[0]`, or `""` for an empty listing |
| AssetResolver.ResolveIsBestRanked | assets/main.js:22-25 | for a non-empty listing, the result is the href of best rank (`~orig` image, then JPEG/PNG, then anything else), and the first one among those of that rank |
| AssetResolver.ResolveExampleOriginal | assets/main.js:23 | `["a.png", "b~orig.tif", "c.gif"]` resolves to `"b~orig.tif"`: a later `~orig` beats an earlier PNG |
| AssetResolver.ResolveExampleFallback | assets/main.js:25 | `["a.gif", "b.docx"]` resolves to `"a.gif"` |
| AssetResolver.ResolveExampleEmpty | assets/main.js:25 | an empty listing resolves to `""` |
| AssetResolver.ResolveExampleTif | assets/main.js:24 | a plain `.TIF` is not accepted at the second tier: `["x.TIF", "y.JPEG"]` resolves to `"y.JPEG"` |
| Gallery.Batch | assets/main.js:10 | `slice(0, limit)` keeps a prefix of the items in API order; for `limit >= 0` it keeps the smaller of `limit` and the number of items, and for a negative limit all but the last `-limit` |
| Gallery.CardFor | assets/main.js:14-35 | a card's alt text never holds a raw `"`, and its title is non-empty whenever the query is |
| Gallery.Render | assets/main.js:6-43 | a failed search request gives the failure notice and no cards; an empty batch gives the "No results" notice for the query; otherwise the grid holds exactly one card per item of the batch, card `i` built from item `i`, including items whose asset request failed |
| Gallery.CardTitleRule | assets/main.js:16-32 | the title is the item's non-empty `title`, otherwise the query; the alt text is the title with every `"` replaced by `&quot;`, so it holds no `"`, and for a title without `&` it reads back as the title |
| Gallery.CardThumbnailRule | assets/main.js:17-26 | the thumbnail is the first link's href when present; without one it is the resolved href if the asset listing was obtained, and `""` if the asset request failed |
| Gallery.CardDownloadRule | assets/main.js:18-34 | the download link is the resolved href when non-empty, otherwise the thumbnail; after a failed asset request it is the first link's href or `""`; it is always `""`, that href or one of the listing's hrefs |
| SpotTheStation.FieldValue | assets/main.js:52-54 | a field that trims to non-empty text contributes that trimmed text; one that trims to empty contributes its default |
| SpotTheStation.FrameSource | assets/main.js:51-55 | the frame source starts with the widget page and is followed by a query string with `&` separators; FrameSourceParameters states its parameters |
| SpotTheStation.ParameterReadsBack | assets/main.js:55 | a `name=value` parameter holds no `&` and splits back into its name and, decoded, its value |
| SpotTheStation.ParameterListReadsBack | assets/main.js:55 | the query string splits into exactly three parameters, named `city`, `country`, `region` in that order, whose decoded values are the three values given |
| SpotTheStation.FrameSourceParameters | assets/main.js:51-56 | the frame source is the widget page followed by the parameters `city`, `country` and `region`, whose decoded values are the trimmed fields or their defaults |
| SpotTheStation.FrameSourceDefaults | assets/main.js:52-55 | with every field empty or only white space, the frame source is the widget page with `city=New%20York&country=United_States&region=New_York` |
| SpotTheStation.FieldValueIdempotent | assets/main.js:52-54 | applying the trim-or-default rule to its own result changes nothing |
| SpotTheStation.FrameSourceIdempotent | assets/main.js:51-57 | `update` depends on the field values alone, and writing the values it used back into the fields gives the same frame source |

## Left out

- Network I/O. The `fetch` calls, `res.json()` and the async sequencing are not modelled (lines 8-9, 20-21). The parsed search response and each item's asset listing are inputs instead. The `nasa_id` is used only to build the asset request URL, so the model does not carry it.
- DOM access. The mount lookup and its silent return, the "Loading" placeholder, the `innerHTML` writes, `frame.src`, the form listener and the `DOMContentLoaded` wiring are not modelled (lines 3-5, 41, 48-50, 56-59, 62-66). The final content of the mount point is the returned `View`. The frame source is a function result.
- Card markup. The exact HTML of the card template and the notices is not modelled. A `Card` holds the values put into it. The heading and the notices insert the title and query without escaping, and no claim is made about them.
- Non-string JSON values. `title` and `href` are modelled as strings. A truthy non-string title would make `title.replace` throw, and that exception reaches the outer `catch`. A non-string href is coerced to a string by the regular expression test. The model covers neither case.
- Malformed response shapes. The model takes `collection.items` as a list of items or absent. A value of another type is not modelled: a string has its own `slice` and would be walked character by character, and most other objects make `slice` throw and give the failure notice.
- Null items. A `null` entry among the kept items throws at `it.data` (assets/main.js:14), and the outer `catch` shows the failure notice. An `Item` always has fields, so the model does not capture this path.
- The default `limit=8` (assets/main.js:2). `Gallery.Render` takes `limit` as an explicit integer. Both callers pass 9 (lines 63-64), so no behaviour is lost. A non-integer or non-numeric `limit` is not modelled.
- Regular expressions. Only the two fixed suffix patterns are modelled, as case-insensitive suffix tests. Lower-casing is limited to ASCII. That is exact for these all-ASCII patterns without the `u` flag.
- Lone surrogates. A Dafny `char` is a Unicode scalar value, so `encodeURIComponent`'s URIError for lone surrogates is not modelled.
- UriComponent.Decode: a reference decoder for stating the round trip. It does not reject overlong UTF-8 sequences the way `decodeURIComponent` does.
- The decorative pointer tilt effect and the 3D globe viewer are not modelled. They are not in `assets/main.js`.
