# Caption debug service — Dafny model

The service has two HTTP endpoints. `POST /caption` takes an id and an image URL.
It adds a cache-busting query parameter `_cb` to the URL, downloads the image once
and answers with a debug caption: the byte count and the first 16 hex digits of the
body's SHA-256 digest. `GET /health` always answers `{"ok": true}`.

What is modelled, by file:

- `decimal.dfy` (module `Decimal`): the decimal numeral `str(n)` of a natural number,
  and reading it back.
- `query_dict.dfy` (module `QueryDict`): a decoded query as a sequence of
  (name, value) pairs. `dict(pairs)` becomes `FromPairs`, an insertion-ordered,
  last-value-wins fold. `d[k] = v` becomes `Put`. Order is stated with `Rank(ps, k)`:
  the index of the first pair named `k` in `ps`, or `|ps|` for a name not in `ps`.
  `RankSorted(ps, d)` says the items of `d` come in strictly increasing rank.
- `cache_buster.dfy` (module `CacheBuster`): the six `urlparse` components of a URL,
  the `_cb` value `token + "_" + str(now)`, the query rewrite, the rewrite of the
  components (`RewriteUrl`) and the string-to-string `add_cache_buster`.
- `service.dfy` (module `Service`): the pseudo-analysis of the downloaded bytes, the
  `/caption` handler and `/health`.

Everything is a pure function, and the source itself is straight-line code. The one
in-place update, `qs["_cb"] = ...`, is a dictionary assignment. It is modelled as the
value-level function `Put` over the ordered items of the dictionary.

Outside effects are parameters:

- `now: nat` is `int(time.time())`.
- `codec: UrlCodec` holds the library functions `urlparse`, `urlunparse`, `urlencode`
  and `parse_qsl(..., keep_blank_values=True)`.
- `fetch` is `requests.get(...)` followed by `raise_for_status()`.
- `sha256` is `hashlib.sha256(...).hexdigest()`. Its type `HexDigest` holds exactly the
  strings of 64 lowercase hex digits.

Results that need the codec to invert itself say so explicitly, as a precondition
or as the premise of an implication. `RoundTripsAt(codec, w)` says that parsing the
printed form of the one record `w` gives `w` back. It is stated only for the record
`add_cache_buster` prints, because `urlunparse` normalises some records and those do
not come back unchanged. `QueryRoundTrips(codec)` says that decoding an encoded
dictionary gives back its items in order.

Behaviour of `app.py` that the model keeps:

- A failed `requests.get` or `raise_for_status` escapes the handler, which has no
  `try`/`except`. `Caption` returns `Raised(reason)`.
- The caption is `debug: size=<n>B sha16=<h>`, with `n` the byte count and `h` the
  first 16 hex digits of the SHA-256 digest.
- Duplicate query parameters are not preserved. `dict(...)` keeps one entry per name,
  with the last value, at the position of the first occurrence.
- Input validation is pydantic's (`HttpUrl`). The model takes an already-validated
  request.

## Model

| member | source | states |
|---|---|---|
| `Decimal.Show` | app.py:16 | `str(int)`: the numeral is non-empty, all digits, and has no leading zero unless the number is 0 |
| `Decimal.ShowOfValue` | app.py:16 | every canonical numeral (digits, no leading zero unless it is `0`) is the one `str` writes for the number it denotes |
| `Decimal.ValueOfShow` | app.py:16 | reading the numeral of `n` back as a number gives `n` |
| `Decimal.ShowInjective` | app.py:16 | two times have the same numeral exactly when they are equal |
| `QueryDict.Put` | app.py:16 | `d[k] = v`: the pair `(k, v)` is in the result, and the length grows by one exactly when `k` was not a key. `PutSpec` gives the full characterisation |
| `QueryDict.FromPairs` | app.py:14 | `dict(pairs)` has at most as many items as there are pairs, and the last pair is one of them. `FromPairsKeys`, `FromPairsValues` and `FromPairsOrder` characterise it |
| `QueryDict.PutSpec` | app.py:16 | `d[k] = v` keeps keys distinct and adds only `k`. Afterwards `d[k]` is `v` and every other key keeps its value. An existing key keeps its position. A new key is appended last |
| `QueryDict.PutSame` | app.py:16 | assigning a key the value it already holds leaves the dictionary unchanged |
| `QueryDict.FromPairsKeys` | app.py:14 | `dict(pairs)` has distinct keys, and its keys are exactly the names that occur in the pairs |
| `QueryDict.FromPairsValues` | app.py:14 | each key of `dict(pairs)` holds the value of the last pair with that name, blank values included |
| `QueryDict.FromPairsOrder` | app.py:14 | `dict(pairs)` orders its keys by the position of their first occurrence in the pairs |
| `QueryDict.FromPairsUnique` | app.py:14 | these three properties determine `dict(pairs)`: any dictionary with those keys, those values and that order equals `FromPairs(pairs)` |
| `QueryDict.FromPairsOfDistinct` | app.py:14 | `dict` of pairs whose names are already distinct returns the same pairs in the same order |
| `QueryDict.OccurrencesOfDistinct` | app.py:14 | in a dictionary a name occurs once if it is a key and not at all otherwise |
| `CacheBuster.Value` | app.py:16 | the `_cb` value is the token, then `_`, then a non-empty run of decimal digits |
| `CacheBuster.ValueInjective` | app.py:15-16 | `token_now` values are equal exactly when both the tokens and the times are equal. So they differ for two tokens at the same second, and for one token at two different seconds |
| `CacheBuster.RewriteQuery` | app.py:14-16 | the decoded query after `dict(...)` and `qs["_cb"] = value`: the result holds the pair `("_cb", value)` and has at most one item more than the input has pairs. The lemmas below characterise it |
| `CacheBuster.RewriteQueryAsAppend` | app.py:14-16 | helper identity used by `RewriteQueryOrder`: the rewrite is `FromPairs` unfolded once over the query with `("_cb", value)` appended |
| `CacheBuster.RewriteQueryContents` | app.py:14-17 | in the rewritten query, `_cb` occurs exactly once, even if the input had several, and holds `token_now`. Every other input name occurs exactly once, with the value of its last occurrence. No other name occurs |
| `CacheBuster.RewriteQueryOrder` | app.py:14-17 | the names of the rewritten query follow the order of their first occurrence in the input, and a `_cb` the input lacked comes after all of them |
| `CacheBuster.RewriteQueryPlacement` | app.py:14-16 | a `_cb` the input lacked is appended after `dict(input)`. A `_cb` the input had keeps its place, so the key sequence is that of `dict(input)` |
| `CacheBuster.RewriteQueryIdempotent` | app.py:14-17 | rewriting an already rewritten query with the same token and time changes nothing |
| `CacheBuster.RewriteUrl` | app.py:13-18 | the reassembled components keep scheme, netloc, path, params and fragment. For a query codec that round-trips, the new query decodes to the rewrite of the old decoded query |
| `CacheBuster.RewriteUrlIdempotent` | app.py:13-18 | for a query codec that round-trips, rewriting already rewritten components with the same token and time changes nothing |
| `CacheBuster.AddCacheBuster` | app.py:12-18 | if the reassembled record survives printing and parsing, the result parses to the original scheme, netloc, path, params and fragment. With a query codec that round-trips, the new query decodes to the rewrite of the old one |
| `CacheBuster.AddCacheBusterIdempotent` | app.py:12-18 | if the reassembled record survives printing and parsing and the query codec round-trips, adding the cache buster twice with the same token and time gives the same URL string as adding it once |
| `Service.ParseCaptionText` | app.py:40 | the caption `debug: size=<n>B sha16=<h>` parses back to exactly `n` and `h`, so it reports both unambiguously |
| `Service.ParseCaptionSound` | app.py:40 | any caption the parser accepts is exactly the caption written for the count and prefix it reports |
| `Service.ParseCaptionExact` | app.py:40 | a string parses to `(n, h)` exactly when it is `debug: size=<n>B sha16=<h>`. So the `ParseCaption` clauses of `Analyze` and `Caption` fix the caption string |
| `Service.Analyze` | app.py:32-33 | `fileSize` is the byte length of the body. The caption reports that length and the first 16 characters of the body's digest. The prefix is 16 lowercase hex digits |
| `Service.AnalyzeSameAnswer` | app.py:39-42 | two bodies get the same response exactly when they have the same length and the same 16-character hash prefix. So the response depends on the bytes alone |
| `Service.ImageRequest` | app.py:25-27 | the fetch uses a 30 s timeout and the header `Cache-Control: no-cache`. If the reassembled record survives printing and parsing, the fetched URL parses to the request URL's components with the query rewritten |
| `Service.Caption` | app.py:20-42 | a response is produced exactly when the single download succeeds. A failed download propagates its exception unchanged. On success, `fileSize` is the body length and the caption reports it with the hash prefix |
| `Service.Health` | app.py:44-46 | `/health` answers `ok: true` unconditionally |

## Left out

- FastAPI routing and pydantic validation (`CaptionRequest`, `HttpUrl`): a framework concern. The model takes an already-validated request and its URL as the string `str(req.image)`. Pydantic's URL normalisation is not modelled.
- The parsing rules of `urlparse` / `urlunparse`: library internals. They are the `parse` and `unparse` fields of the abstract `UrlCodec`.
- The percent-encoding of `urlencode` / `quote_plus` and the splitting rules of `parse_qsl`: library internals. They are the `encode` and `decode` fields of `UrlCodec`.
- CacheBuster.RewriteUrl: the decoded-query clause holds only for a codec satisfying `QueryRoundTrips`, an assumption about the library that is not proved here.
- CacheBuster.RewriteUrlIdempotent: rests on the same `QueryRoundTrips` assumption.
- CacheBuster.AddCacheBuster: its clauses hold only when `RoundTripsAt` holds for the record it prints, and the decoded-query clause also needs `QueryRoundTrips`. For a record that `urlunparse` normalises (a netloc with a relative path, an upper-case scheme), the model says nothing about the result.
- CacheBuster.AddCacheBusterIdempotent: rests on `RoundTripsAt` for the printed record and on `QueryRoundTrips`.
- Service.ImageRequest: the URL clause rests on `RoundTripsAt` for the printed record.
- `requests.get` and `raise_for_status`: network I/O. The model does not enforce the timeout or follow redirects. These are the `fetch` parameter, which receives the request description (URL, timeout, headers). Any failure it reports, whether network error or HTTP error status, is an escaping exception.
- SHA-256: a foreign primitive, passed in as `sha256`. SHA-256 is not assumed collision-free.
- `time.time()`: a clock read. It is the parameter `now`, already truncated to whole seconds.
- The two `print` log lines: output with no effect on results.
- Concurrency of requests: each call is a pure function of its own arguments, so no state is shared between requests.
