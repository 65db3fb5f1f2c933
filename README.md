# Instagram media inspector, modelled in Dafny

The service answers `POST /api/instagram/inspect` with the media of an Instagram
post. It checks that the URL looks like a post, reel or TV link. Then it fetches
the page and reads the Open Graph / Twitter card `<meta>` tags into a table. From
that table it picks one primary video or image. Finally it appends every inline
`"video_url"` / `"display_url"` value whose URL is not listed yet, in document
order. The answer is that list or one of four HTTP errors, unless a decoding
or validation step raises. Those raises are not modelled (see "Left out").

The model has five modules, one per piece of `main.py`:

- `Common` (common.dfy): `Option` and a `StartsWith` helper.
- `PostUrl` (post_url.dfy): the URL validator `INSTAGRAM_URL_RE`. It is written
  as a recogniser and proved equal to the pattern read as "the string splits
  into these pieces".
- `MetaTags` (meta_tags.dfy): `extract_meta_tags`. It is a method with the
  source's two loops, proved equal to the fold `TagTable`.
- `Media` (media.dfy): primary-item selection, the inline-URL unescaping, and
  the duplicate-skipping fold `AppendInline`. The fold is proved equal to an
  independent "first occurrence wins" walk (`FirstSeen`).
- `Inspect` (inspect.dfy): `instagram_inspect` as two methods. `CollectMedia`
  holds the append loop and is proved against the function `Assemble`.
  `InstagramInspect` holds the URL check, the fetch outcome and the empty-list
  check, and is proved against the function `Respond`.

The fetch is an input value: a transport failure, or a response with a status
code and a page. A page is given as what the three regular-expression scans of
its text return. These are the `property`/`content` matches, the `name`/`content`
matches and the inline matches, each in document order.

Two behaviours of the code are easy to misread:

- The URL pattern is compiled without `re.IGNORECASE`, so matching is
  case-sensitive (`RejectsCapitalHost`, `RejectsCapitalPathKind`).
- Only status 200 counts as success. Every other status, including other 2xx
  codes, is passed back as the error status (`NonOkStatusPassedThrough`).

## Model

| member | source | states |
|---|---|---|
| `PostUrl.IsPostUrlMatchesPattern` | main.py:85 | the validator accepts a string exactly when it begins with optional `http://`/`https://`, optional `www.`, `instagram.com/`, one of `p`, `reel`, `reels`, `tv`, a slash and an identifier character (both directions) |
| `PostUrl.PostUrlSplits` | main.py:85 | every accepted string splits into the pieces of the pattern |
| `PostUrl.SplitsArePostUrls` | main.py:85 | every string made of the pieces of the pattern, followed by anything, is accepted |
| `PostUrl.AcceptanceIgnoresSuffix` | main.py:85 | acceptance is a prefix test: appending a query string or more path never turns an accepted URL into a rejected one |
| `PostUrl.AcceptsCanonicalPostLink` | main.py:85 | `https://www.instagram.com/p/<id>/` is accepted for every non-empty identifier of letters, digits, `_` and `-` |
| `PostUrl.AcceptsExample` | main.py:85 | `https://instagram.com/p/abc` is accepted |
| `PostUrl.RejectsBadHostAfterHttps` | main.py:85 | after `https://`, a string that starts with neither `w` nor `i` is rejected |
| `PostUrl.RejectsBadKindAfterHost` | main.py:85 | after `https://instagram.com/`, a path starting with a letter other than `p`, `r` or `t` is rejected |
| `PostUrl.RejectsOtherHost` | main.py:85 | `https://example.com/p/abc` is rejected |
| `PostUrl.RejectsOtherPathKind` | main.py:85 | `https://instagram.com/notp/abc` is rejected |
| `PostUrl.RejectsEmpty` | main.py:85 | the empty string is rejected |
| `PostUrl.RejectsCapitalHost` | main.py:85 | `https://Instagram.com/p/abc` is rejected: matching is case-sensitive |
| `PostUrl.RejectsCapitalPathKind` | main.py:85 | `https://instagram.com/P/abc` is rejected: matching is case-sensitive |
| `MetaTags.Lower` | main.py:93 | the lower-cased key has the same length, contains no upper-case letter, maps each upper-case ASCII letter to its lower-case partner, keeps every other character, and leaves an already lower-case key unchanged |
| `MetaTags.ExtractMetaTags` | main.py:88-98 | the two loops build exactly `TagTable`: its keys are the lower-cased keys of both passes, and all are lower-case |
| `MetaTags.InsertKeys` | main.py:92-93 | one pass adds exactly the lower-cased keys of its matches to the table |
| `MetaTags.InsertLastWins` | main.py:92-93 | within one pass, the last match for a key decides that key's value |
| `MetaTags.InsertUntouched` | main.py:96-97 | a pass leaves alone every key none of its matches produces |
| `MetaTags.LastForExists` | main.py:92-97 | every key a pass produces has a last match in that pass |
| `MetaTags.TagTableKeys` | main.py:91-98 | the table's domain is the union of the lower-cased keys of the property pass and the name pass, all lower-case |
| `MetaTags.NameTagWins` | main.py:94-97 | a key some `name` tag carries holds the content of the last such tag, overriding any `property` tag with that key |
| `MetaTags.PropertyTagKept` | main.py:90-97 | a key only `property` tags carry holds the content of the last such tag |
| `Media.PrimarySelection` | main.py:126-136 | the primary video is `og:video`, else `twitter:player:stream`. The primary image is `og:image`, else `twitter:image`. A video becomes the single primary item, with the primary image as thumbnail. Otherwise an image becomes it, with itself as thumbnail. With neither there is no primary item. Empty values count as absent |
| `Media.UnescapeSlashes` | main.py:143 | the unescaped value is no longer than the raw one, and a value without backslashes is unchanged |
| `Media.UnescapeEscapeSlashes` | main.py:143 | unescaping undoes the `/` → `\/` escaping of any backslash-free URL |
| `Media.UnescapeAppend` | main.py:143 | the replacement can be done piecewise at any point not right after a backslash |
| `Media.InlineUrlHasScheme` | main.py:140-143 | every value of the shape `https?:\/\/[^"]+` unescapes to a URL starting with `http://` or `https://` |
| `Media.AppendInlineKeepsPrefix` | main.py:140-149 | the items listed before the fragments are read stay first, unchanged |
| `Media.AppendInlineGrows` | main.py:140-149 | the list after any prefix of the fragments is a prefix of the final list: items are never removed or reordered |
| `Media.AppendInlineDistinct` | main.py:144-149 | if the start list has distinct URLs, so does the final list |
| `Media.AppendInlineUrls` | main.py:140-149 | the final URLs are exactly the start list's URLs plus the unescaped URL of every fragment |
| `Media.AppendInlineSources` | main.py:144-149 | every appended item is the item some fragment yields |
| `Media.FirstSeenUrls` | main.py:140-149 | the reference walk emits only fragment URLs, and together with the seen set covers every fragment URL |
| `Media.FirstSeenSnoc` | main.py:140-149 | the reference walk extended by one fragment emits its item exactly when its URL is new |
| `Media.AppendInlineIsFirstSeen` | main.py:140-149 | the loop's list equals the start list followed by the reference walk: fragments in document order, first occurrence wins, URLs already listed are skipped |
| `Media.AssembleProperties` | main.py:123-149 | the assembled list has distinct URLs and starts with the primary item. Its URLs are the primary URL plus every fragment URL. Every later item comes from a fragment |
| `Media.AssembleEmpty` | main.py:123-151 | the list is empty exactly when there is no primary item and no inline fragment |
| `Media.AssembleInlineSchemes` | main.py:140-149 | when every fragment has the scanned shape, every item after the primary one has an `http://` or `https://` URL |
| `Media.AssembleInlineItemShape` | main.py:144-149 | every item after the primary one has a fragment URL. It is either a video whose thumbnail is the primary image, or an image that is its own thumbnail |
| `Inspect.CollectMedia` | main.py:120-149 | the tag table, primary selection and duplicate-skipping loop produce exactly `Assemble`, with distinct URLs and the primary item first |
| `Inspect.InstagramInspect` | main.py:102-155 | the endpoint answers exactly `Respond`, and a successful answer is a non-empty list with distinct URLs |
| `Inspect.OutcomeMapping` | main.py:105-155 | a rejected URL gives 400 and a transport failure 502. A status other than 200 is passed through. After 200 the answer is 422 exactly when there is no primary item and no inline fragment. A success is a non-empty list with distinct URLs |
| `Inspect.RejectedUrlIgnoresFetch` | main.py:105-113 | a rejected URL is answered with 400 whatever the fetch would have returned, so the page plays no part |
| `Inspect.NonOkStatusPassedThrough` | main.py:117-118 | every status other than exactly 200 becomes the error status |

## Left out

- The HTTP fetch (`requests.get`, its headers and its 12-second timeout, main.py:108-115) is network I/O. It is the input `Fetch`: a transport failure or a response with a status and a page.
- The regular-expression engine (main.py:90, 95, 140) is not modelled. The `findall`/`finditer` results are inputs, so the `IGNORECASE` of the two meta patterns and their attribute-order limits are not modelled. `Media.IsInlineValue` states the shape the inline pattern guarantees, and only `Media.InlineUrlHasScheme` and `Media.AssembleInlineSchemes` rely on it.
- `html.unescape` (main.py:93, 97) is the identity: a tag's content is taken as already decoded.
- The `unicode_escape` decoding (main.py:142) is the identity. Only the explicit `\/` → `/` replacement of main.py:143 is modelled, so escapes such as `\u0026` stay as written.
- `MetaTags.Lower`: lower-cases ASCII letters only. Python's `str.lower` also maps non-ASCII letters.
- The validation library's `HttpUrl` type (main.py:21-28, 103) is not modelled. URLs are plain strings and duplicates are found by string equality. The library's URL checks and normalisation are not modelled: a required scheme, host lower-casing, and rejection of malformed item URLs.
- Exceptions that escape `instagram_inspect` as an unhandled server error (status 500) are not modelled, and `Outcome` has no case for them. The model answers with the list where the code would raise:
  - `decode('unicode_escape')` (main.py:142) raises on a value with a malformed escape. One example is a value ending in a backslash, which the scan yields for an escaped quote such as `"display_url":"https:\/\/x\"y"`.
  - `MediaItem(...)` (main.py:130, 136, 146, 149) raises a validation error when a tag content or candidate is not a valid URL.
- The duplicate check of main.py:145 and 148 is modelled as string equality, which is its evident intent. Under pydantic 2, `x.url` is an `HttpUrl` object, and such an object never equals a `str`. So there `x.url != candidate` always holds, and no fragment is ever skipped. `Media.AppendInlineDistinct`, `Media.AssembleProperties`, `Inspect.CollectMedia` and `Inspect.InstagramInspect` promise distinct URLs only under the string-equality reading, which is pydantic 1's behaviour.
- FastAPI's `HTTPException` and JSON serialisation are the `Outcome` datatype: a status with its detail text, or the list.
- The `/`, `/api/hello` and `/test` endpoints (main.py:31-82) are not modelled: liveness texts and a database-diagnostic stub. CORS (main.py:12-18) and server start-up (main.py:158-161) are deployment plumbing.
