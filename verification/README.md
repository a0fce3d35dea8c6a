# pinboard-to-bluesky gateway, modelled in Dafny

`gateway.py` reads a Pinboard RSS feed. It posts every entry it has not
posted before, and that is less than a week old, to a Bluesky account through
the AT Protocol XRPC API.

Each post's text is `title — description`, then a blank line, then the link.
When the description is too long it is cut at a word boundary and ends in
` […]`. The post carries rich-text facets:
- one mention facet for each `@handle` that resolves to an identifier;
- one link facet for each `http(s)://` URL.

Facet offsets are byte offsets into the UTF-8 encoding of the text. When there
is a facet, the post may also get an `app.bsky.embed.external` card. The card
is built from the `og:*` meta tags of the last URL's page, with a thumbnail
uploaded as a blob.

The model follows the script's structure, one module per file:

- `Bytes`, `Utf8`: bytes, and the UTF-8 encoding of section 3 of RFC 3629.
- `Scan`: `re.finditer`: non-overlapping matches, left to right, resuming at
  the previous match's end.
- `Mentions`, `Urls`: the two patterns of `parse_mentions` and `parse_urls`.
  - Each is written out as the procedure a backtracking engine follows for that
    pattern: greedy counts are tried from the largest down, and `\b` and `\W`
    are taken over ASCII bytes.
  - Each procedure is proved to accept exactly an independently stated
    grammar. For mentions that is the AT Protocol handle syntax.
- `Atproto`, `Network`: the records the script builds, and the network as
  functions from request to answer. An exception the script does not catch
  becomes a `Fatal` error that ends the run.
- `Card`: the decision procedure of `fetch_embed_url_card` and the MIME choice
  of `upload_file`.
- `Facets`: `parse_facets`. `Publish`: `create_post`.
- `Shorten`: the description cut and the post text.
- `Gateway`: the main loop. It is a fold over the reversed entries that
  carries the set of processed links. It is proved equal to a stateless
  reference definition of "the new entries".

## Model

| member | source | states |
|---|---|---|
| Bytes.AsciiDecode | gateway.py:129-131 | decoding pure ASCII bytes gives one character per byte with the same code |
| Utf8.EncodeChar | gateway.py:125 | the bytes of one character follow the RFC 3629 table: the length is fixed by the code-point range, lead and continuation bytes lie in their ranges, the bits reassemble to the code point, and a multi-byte character has no ASCII byte |
| Utf8.Encode | gateway.py:125 | `encode("UTF-8")` spends one to four bytes per character, and the first byte is the first character itself exactly when that character is ASCII |
| Utf8.EncodeAppend | gateway.py:125 | encoding distributes over concatenation |
| Utf8.AsciiRoundTrip | gateway.py:129-131 | encoding the decoded text of ASCII bytes gives back those bytes |
| Utf8.AsciiByteIsCharacter | gateway.py:153-158 | an ASCII byte of an encoded text is a whole character: the encoding of some prefix of the text ends just before it, and the next character has the byte's code |
| Scan.FindAll | gateway.py:126 | the matches `finditer` reports are matches of the pattern, start at or after the search start, and do not overlap, in left-to-right order |
| Scan.FindAllCovers | gateway.py:126 | `finditer` never skips a match: every position where the pattern matches is the start of, or inside, a reported match |
| Scan.OrderedApart | gateway.py:126 | spans that are ordered neighbour by neighbour are ordered pairwise |
| Mentions.LabelDotAt | gateway.py:140 | one iteration of `(LABEL\.)` ends after a dot, and what precedes the dot is a label |
| Mentions.TopEnd | gateway.py:140 | the top label matches exactly when the next byte is a letter, and what it matches is a top label |
| Mentions.MentionTail | gateway.py:140 | the greedy `(LABEL\.)+TOP` after one iteration consumes at least one byte and stays inside the text |
| Mentions.MentionMatch | gateway.py:140 | a match at `i` consumes the prefix byte and at least the `@` |
| Mentions.MentionTailSound | gateway.py:140 | what the tail matches is a dotted name: labels separated by dots, the last of them starting with a letter |
| Mentions.MentionMatchSound | gateway.py:140 | every match is a prefix byte (`$`, `\|` or a non-word byte) followed by `@` and a handle of at least two labels |
| Mentions.MentionTailComplete | gateway.py:140 | at any position where a dotted name starts, the tail matches |
| Mentions.MentionMatchComplete | gateway.py:140 | at a prefix byte followed by `@` and a handle, the pattern matches |
| Mentions.DottedNameIsAscii | gateway.py:140 | a dotted name consists of letters, digits, hyphens and dots only, so it is pure ASCII |
| Mentions.MentionSpan | gateway.py:144-149 | a span's byte range starts at the `@` and follows a prefix byte; it holds `@` and a handle; `@` followed by the span's handle encodes to exactly those bytes |
| Mentions.ScanMentions | gateway.py:137-150 | all spans satisfy `1 <= start < end <= len(bytes)`, follow a prefix byte and hold `@` and a handle; `'@' + handle` encodes to exactly the span's bytes; each span ends before the next begins |
| Mentions.MentionsFound | gateway.py:140-142 | every mention behind a prefix byte in the text is reported, or overlaps a reported span |
| Urls.TldTry | gateway.py:124 | `TLD{1,6}\b` picks the largest count at which `\b` holds: the count it returns ends on a word boundary and no larger available count does; when it fails, `\b` holds at none of the counts available |
| Urls.HostTry | gateway.py:124 | trying the host count from the largest down ends at a dot followed by one to six top-level bytes and a word boundary; that top-level part is the longest after its dot that ends on a word boundary, and no dot at a larger host count is followed by any such part |
| Urls.TailEnd | gateway.py:124 | the optional tail is empty, or a run of path bytes that ends with an END byte |
| Urls.UrlMatch | gateway.py:124 | a match at `i` consumes the prefix byte and at least one more byte |
| Urls.UrlMatchSound | gateway.py:124 | every match is a prefix byte followed by a URL of the grammar: scheme, optional `www.`, 1 to 256 host bytes, a dot, 1 to 6 top-level bytes at a word boundary, an optional path |
| Urls.SchemeUnique | gateway.py:124 | where `http://` or `https://` occurs, the scheme step ends exactly after it |
| Urls.HostTryComplete | gateway.py:124 | when any dot within the allowed host count is followed by a top-level part and a word boundary, the host step succeeds |
| Urls.UrlMatchComplete | gateway.py:124 | at a prefix byte followed by a URL of the grammar, the pattern matches |
| Urls.UrlIsAscii | gateway.py:124 | every URL of the grammar is pure ASCII |
| Urls.UrlAtText | gateway.py:129-131 | the bytes of any URL of the pattern decode to a URL that starts with `http://` or `https://` and encodes back to the same bytes |
| Urls.UrlSpan | gateway.py:128-133 | a span starts after its prefix byte, holds a URL of the grammar, starts with a scheme, and its url encodes to exactly its bytes |
| Urls.ScanUrls | gateway.py:120-134 | all spans satisfy `1 <= start < end <= len(bytes)`, follow a prefix byte, hold a URL that starts with `http://` or `https://`, and the url encodes to exactly the span's bytes; each span ends before the next begins |
| Urls.UrlsFound | gateway.py:124-126 | every URL behind a prefix byte in the text is reported, or overlaps a reported span |
| Card.LastSegment | gateway.py:46 | `split(".")[-1]` is the longest dot-free suffix: a suffix without dots, preceded by a dot unless it is the whole name |
| Card.LastSegmentOfName | gateway.py:46 | for a name `stem.ext` with a dot-free `ext`, the last segment is `ext` |
| Card.LowerAscii | gateway.py:46 | lower-casing maps `A`-`Z` to `a`-`z` and keeps every other character |
| Card.MimeType | gateway.py:47-53 | the Content-Type is one of image/png, image/jpeg, image/webp and application/octet-stream |
| Card.MimeTypeOfName | gateway.py:46-53 | for `stem.ext`, the type is image/png exactly for png, image/jpeg exactly for jpeg or jpg, image/webp exactly for webp, and application/octet-stream exactly for any other extension, in any letter case |
| Card.ContainsExtended | gateway.py:98-101 | a text that holds a substring, in the sense of Python's `in`, still holds it with more text appended |
| Card.ThumbUrl | gateway.py:100-101 | an `og:image` holding `://` is used as it is, any other is appended to the page URL; so the image address is absolute whenever the page URL is |
| Card.ImageAt | gateway.py:74-104 | an image is requested exactly when the page request was sent and answered with a page whose `og:image` does not contain `http://localhost`, and the address requested is the `ThumbUrl` of that image |
| Card.FetchCard | gateway.py:69-117 | the empty URL is a fatal error before any request, since `requests.get` refuses a URL without a scheme; otherwise no card on a page HTTP or connection error, a `http://localhost` image, an image HTTP error, an image over 950000 bytes or an upload HTTP error; a fatal error on any other request failure; otherwise an `app.bsky.embed.external` card with `uri` the URL, title and description from the meta tags or `""`, and a thumbnail only when one was uploaded |
| Card.OversizeImageNotUploaded | gateway.py:96-110 | an image over 950000 bytes gives no card, whatever the upload would answer |
| Card.LocalhostImageNotFetched | gateway.py:98-102 | for a URL the page request is sent for, a `http://localhost` image gives no card, whatever the image request and the upload would answer |
| Card.OnlyThumbUrlFetched | gateway.py:100-106 | the card depends on the image answer only at the image address: the `og:image` itself when it holds `://`, else the page URL followed by it |
| Facets.MentionFacets | gateway.py:159-177 | the mention loop succeeds exactly when no handle fails to resolve; otherwise it fails at the first such handle; on success its facets are exactly one mention facet, with the resolved identifier, per span whose handle resolves (400 answers are skipped); they come in byte order |
| Facets.LinkFacets | gateway.py:179-196 | one link facet per URL span, in order, with the span's byte range and the URL as `uri` |
| Facets.ConsMentionFacet | gateway.py:160-177 | a resolving first handle puts its facet in front of the facets of the remaining spans, keeping "exactly the resolving spans" and byte order |
| Facets.FacetList | gateway.py:159-196 | the facet list exists exactly when no handle fails to resolve; it is non-empty exactly when a handle resolves or there is a URL; it is the mention facets of exactly the resolving handles, in byte order, followed by one link facet per URL in order |
| Facets.CardFor | gateway.py:198-202 | without a URL no card is asked for; a card that comes back is an external embed that links the last URL of the text, for a page that answered; a failure only happens with a URL, and is the failed request for that page, for its image, or for the upload |
| Facets.AddFacets | gateway.py:159-204 | succeeds exactly when no handle lookup fails and, for spans with a URL, the card of the last URL does not fail; `$type`, `text` and `createdAt` never change; with nothing to add the post is returned unchanged; otherwise `facets` holds the facet list; without a URL the embed is left alone, and with one `embed` is set only when a card comes back |
| Facets.AddFacetsAsWritten | gateway.py:159-204 | as the code is written: succeeds exactly when no handle lookup fails and, when there is something to add, the card of the last URL, `""` without one, does not fail; it is the same as `AddFacets` whenever there is a URL or nothing to add |
| Facets.MentionWithoutUrl | gateway.py:178-202 | with a handle that resolves, no failing lookup and no URL, the code as written fails on the card request for `""`, while `AddFacets` gives the post its mention facets and leaves the embed alone |
| Facets.MentionFacetFaithful | gateway.py:160-177 | a mention facet covers bytes that encode `@` and a handle resolving to the facet's identifier |
| Facets.LinkFacetFaithful | gateway.py:180-196 | a link facet covers bytes that encode its URI, which starts with a scheme |
| Facets.FacetsFaithful | gateway.py:159-196 | mention facets drawn from resolving spans, followed by one link facet per URL span, each mark what they claim in the bytes the spans encode |
| Facets.FacetListFaithful | gateway.py:159-196 | every facet of the list built from well-formed spans marks what it claims in the bytes |
| Facets.ScannedSpansEncode | gateway.py:120-150 | the spans of both scanners encode exactly their bytes of the text, and every URL starts with a scheme |
| Facets.ScannedFacets | gateway.py:153-204 | for the spans scanned from a post's text, changed facets each mark what they claim in the text's encoding, and a changed embed is an external card for the last URL that comes with facets |
| Facets.ParseFacets | gateway.py:153-204 | succeeds exactly when no handle of the text fails to resolve and, for a text with a URL, the card of its last URL does not fail; `$type`, `text` and `createdAt` never change; with nothing to add the post is unchanged; with a resolving handle or a URL the post gets facets; changed facets each cover a byte range of the UTF-8 text that holds either their URI, or `@` and a handle resolving to their identifier; a changed embed is an external card whose `uri` is the last URL, and it comes with facets |
| Facets.ParseFacetsAsWritten | gateway.py:153-204 | as the code is written: succeeds exactly when no handle of the text fails to resolve and, when there is something to add, the card of the last URL, `""` without one, does not fail; it is the same as `ParseFacets` whenever the text holds a URL or nothing to add |
| Facets.MentionOnlyText | gateway.py:153-204 | for a text with a resolving handle, no failing lookup and no URL, the code as written ends with the failed request for `""`; `ParseFacets` gives the post its facets and no new embed |
| Facets.FacetStartsOnCharacter | gateway.py:155-157 | a facet that marks what it claims starts on a character boundary: its `byteStart` is the byte length of the encoding of the characters before it, and the character there is the `@` of the mention or the `h` of the scheme |
| Publish.Record | gateway.py:212-223 | with the corrected card step of Findings, the record is built exactly when the text is empty, or no handle lookup fails and, for a text with a URL, the card of its last URL does not fail; it has `$type` app.bsky.feed.post and the given text and time; an empty text gets neither facets nor embed; a non-empty text with a resolving handle or a URL gets facets; with nothing to add it is the bare draft |
| Publish.CreatePost | gateway.py:207-240 | with the corrected card step of Findings: a failed login is fatal; after a login, the call succeeds exactly when the record is built and `createRecord` accepts it in the session's repository, and it then returns that record; a record that cannot be built, or a refusal of `createRecord` with its status, is fatal; a returned post has `$type` app.bsky.feed.post and the given text and time; an empty text gets neither facets nor embed; an embed only comes with facets and points at the last URL; every facet marks what it claims in the text |
| Publish.RecordAsWritten | gateway.py:212-223 | the record as the code builds it: built exactly when the text is empty, or no handle lookup fails and, once there is something to add, the card of the last URL, `""` without one, does not fail; the same record as `Record` for an empty text, a text with a URL, or one with nothing to add |
| Publish.CreatePostAsWritten | gateway.py:207-240 | `create_post` as written: a failed login is fatal; after a login, the call succeeds exactly when the as-written record is built and `createRecord` accepts it, and returns that record; a record that cannot be built is fatal with its error |
| Publish.MentionOnlyPost | gateway.py:198-202 | for a non-empty text with a resolving handle, no failing lookup and no URL, `create_post` as written fails with the request for `""` after the login, while the corrected record is built with facets and no embed |
| Shorten.RStrip | gateway.py:278 | `rstrip()` removes exactly the trailing run of white space |
| Shorten.DropTrailingWord | gateway.py:278 | `re.sub(r'\w+$', '', s)` removes exactly the trailing run of word characters |
| Shorten.SlicePrefix | gateway.py:277 | `s[:n]` is a prefix of `s` of length `min(n, len(s))`, or `max(0, len(s) + n)` for a negative `n` |
| Shorten.Cut | gateway.py:277-278 | the cut text is a prefix of the description, at most `293 - extralen` characters long (at most `len(description) + 293 - extralen`, and at least none, when that is negative), and it does not end in white space |
| Shorten.ShortDescription | gateway.py:274-279 | a description within `296 - extralen` characters is unchanged; a longer one becomes a prefix of itself with no trailing white space followed by ` […]`; whenever `extralen <= 293` the result has at most `297 - extralen` characters |
| Shorten.CutBetweenWords | gateway.py:277-278 | the cut never splits a word: the kept text is empty, or its last character and the next character of the description are not both word characters |
| Shorten.CutReachesBound | gateway.py:274-279 | the `297 - extralen` bound is reached, one character above the threshold that triggers the cut |
| Shorten.PostText | gateway.py:282 | the post text starts with the title, ends with the link, and has `extralen + 1 + len(description)` characters |
| Shorten.PostTextFits | gateway.py:274-282 | whenever `extralen <= 293`, the post text has at most 298 characters |
| Gateway.Reverse | gateway.py:256 | entries are visited last to first |
| Gateway.ReverseMembers | gateway.py:256 | the reversed entries are exactly the entries |
| Gateway.Step | gateway.py:266-289 | an entry that is stored or not fresh changes nothing; a fresh, unstored entry whose post is created is appended to the posts and its link is stored; a post that fails records the entry and its error and stores nothing |
| Gateway.Visit | gateway.py:256-289 | the store only grows; every posted entry comes from the queue, its link was not stored before the run and is stored after it; no link is posted twice; a failed entry comes from the queue |
| Gateway.Run | gateway.py:256-289 | over the feed's entries: the store only grows; every posted entry is one of the entries, its link was not stored before the run and is stored after it; no link is posted twice; a failed entry is one of the entries |
| Gateway.GatewayRun | gateway.py:282-289 | every entry the script posts had its record created: `create_post` returned a post with the entry's text, after a login, and `createRecord` accepted it |
| Gateway.NewItemsLinks | gateway.py:266-269 | the new entries are fresh, come from the queue, have unprocessed and pairwise distinct links, and together with the old store they cover every fresh link |
| Gateway.StoredIffNotNew | gateway.py:266-269 | a fresh entry's link is in the store left by the earlier entries exactly when the entry is not new |
| Gateway.VisitStep | gateway.py:266-289 | one iteration keeps the loop's store, posts and failure in agreement with the new entries |
| Gateway.StepAgrees | gateway.py:266-289 | one step after a completed loop that posted exactly the new entries so far agrees with them extended by the entry when it is fresh and unstored |
| Gateway.VisitMatchesReference | gateway.py:256-289 | a completed loop posts exactly the new entries in visit order: fresh (strictly after the cutoff), not processed before, and first with their link; a failed loop posted a prefix of them, and the next one is the entry whose `create_post` failed; the store is the old store plus the posted links; every posted entry's `create_post` returned |
| Gateway.RunInvariants | gateway.py:256-289 | the store only grows, by the posted links; no link is posted twice or when already stored; every posted entry comes from the feed, is fresh and had its post created; the link of a failed entry is not stored |
| Gateway.AgreedFacts | gateway.py:256-289 | a loop outcome that agrees with the new entries stores only the old links and the posted ones, posts distinct, fresh, unstored entries of the queue whose posts were created, and never stores the link of the failed entry |
| Gateway.RerunPostsNothing | gateway.py:266-289 | after a completed run, a second run over the same entries with a cutoff no earlier posts nothing and leaves the store unchanged |
| Gateway.NoNewItems | gateway.py:266-269 | nothing is new when every fresh link is already stored |
| Gateway.GatewayPostsCreated | gateway.py:282-289 | for every entry the run with `create_post` posts, `create_post` returned a post holding the entry's text, after a successful login, and `createRecord` accepted that post in the session's repository |

Three behaviours of the code that are easy to misread:

- **Localhost images.** Only an image address containing `http://localhost`
  is refused. `https://localhost` is not.
- **The length of a cut description is counted in code points, not bytes.**
  A cut description can reach `297 - extralen` characters, which is one more
  than the `296 - extralen` threshold (`Shorten.CutReachesBound`). The
  composed text still stays within 298 characters.
- **The embed card is asked for the last URL of the text.** Since the text
  ends with the entry's link, that is normally the link. When the text has
  no URL the code asks for `""` and the run ends; the model asks for no card
  there (see Findings).

## Left out

- HTTP is replaced by the functions of `Network.Net`, which answer each request
  deterministically. That covers:
  - session creation;
  - handle resolution;
  - the page and image requests;
  - blob upload;
  - `createRecord`.
- The shapes of the JSON bodies are left out. A resolution answer other than
  400 that has no `did` counts as a failed resolution.
- A login failure is fatal. The model logs in once per `create_post`, as the
  script does; with a deterministic network every login gives the same
  answer.
- BeautifulSoup is left out. The `content` of the `og:title`, `og:description`
  and `og:image` tags are optional inputs. A tag without a `content`
  attribute (a `KeyError` in the script) is not modelled.
- feedparser and SQLite are left out. Entries are `Gateway.Item` records. The
  store is a `set<string>`, its state before the run is a parameter, and a
  commit is the insertion into the set.
- The clock is left out:
  - the cutoff one week back and each entry's update time are integers;
  - `createdAt` is a string parameter;
  - the local-versus-UTC difference and the `Z` rewrite of the timestamp are
    not modelled.
- Printing to stdout and stderr is left out, as are argument parsing and the
  configuration.
- The tag-stripping substitutions of the description (gateway.py:263-264) are
  left out. An entry's description is taken as already stripped.
- Unicode `\w` in the description cut is the parameter `isWord`.
  `Shorten.CutBetweenWords` assumes only that white space is not a word
  character. White space itself is Python's `str.isspace` table, written out.
- Card.LowerAscii: lower-cases ASCII letters only. For the suffix comparison
  this agrees with Python's `lower()`. The only other characters that lower to
  ASCII letters are U+212A (to `k`) and U+0130 (to `i` and a combining dot),
  and neither letter occurs in png, jpg, jpeg or webp.
- Shorten.ShortDescription: the length bound is stated only for
  `extralen <= 293`. For a larger `extralen`, Python's negative slice
  `desc[:293 - extralen]` is modelled exactly, and no bound holds.
- Facets.AddFacets: does not claim that mention facets and link facets are
  disjoint. A mention inside a URL, such as `/@a.bc`, is matched by both
  scanners.
- Card.FetchCard: of the URLs `requests.get` refuses before sending, only the
  empty one is modelled; any other goes to the page function. `parse_facets`
  only ever passes `""` or a URL that starts with `http://` or `https://`.
- Publish.Record: models the corrected card step of Findings, not the code as
  written. A non-empty text with a resolving handle and no URL gets its record
  here, where the code raises `MissingSchema`. The code as written is
  `Publish.RecordAsWritten`.
- Publish.CreatePost: built on `Publish.Record`, so it also models the
  corrected card step. For the text above it posts, where the code's
  `create_post` raises and ends the run. The code as written is
  `Publish.CreatePostAsWritten`, and `Publish.MentionOnlyPost` shows the
  difference.
- Gateway.GatewayRun: runs the loop with the corrected `Publish.CreatePost`.
  The code as written would end the run at the first entry like the one in
  Findings.
- Utf8.Encode: a Dafny `char` is a Unicode scalar value, so lone surrogates
  cannot occur. Python's `encode("UTF-8")` raises `UnicodeEncodeError` on
  them (gateway.py:125, 141), but text decoded by feedparser holds none.

## Findings

| source | as written | input that shows it | evidently intended | confidence | as-written member | corrected member |
|---|---|---|---|---|---|---|
| gateway.py:178-202 | `link` stays `''` when the text has no URL, yet once a mention facet exists `fetch_embed_url_card` is called with it; `requests.get('')` raises `MissingSchema`, which lines 78-84 do not catch, so the run ends before the post is created | an entry whose link has a top-level part longer than six letters, such as `https://example.technology/`, so the URL pattern finds nothing, and whose title reads `notes by @alice.bsky.social`, a handle that resolves | without a URL no card is asked for, and the post goes out with its mention facets | not executed | Facets.AddFacetsAsWritten, used by Facets.ParseFacetsAsWritten, Publish.RecordAsWritten and Publish.CreatePostAsWritten, shown by Facets.MentionWithoutUrl, Facets.MentionOnlyText and Publish.MentionOnlyPost | Facets.AddFacets, used by Facets.ParseFacets, Publish.Record, Publish.CreatePost and Gateway.GatewayRun |
