/**
 * The two endpoints: `POST /caption` (download the image with a cache buster and
 * answer with a debug caption derived from its bytes) and `GET /health`.
 *
 * The network fetch, SHA-256 and the clock are parameters: `fetch` stands for
 * `requests.get` followed by `raise_for_status`, `sha256` for
 * `hashlib.sha256(...).hexdigest()`, `now` for `int(time.time())`.
 */
module Service {
  import opened CacheBuster
  import Decimal

  type byte = x: int | 0 <= x < 256

  datatype Option<T> = None | Some(value: T)

  predicate IsLowerHexDigit(c: char) {
    '0' <= c <= '9' || 'a' <= c <= 'f'
  }

  predicate IsLowerHex(s: string) {
    forall i :: 0 <= i < |s| ==> IsLowerHexDigit(s[i])
  }

  /** What `hexdigest()` of a SHA-256 hash returns: 64 lowercase hexadecimal digits. */
  type HexDigest = s: string | |s| == 64 && IsLowerHex(s)
    witness seq(64, i => '0')

  /** The JSON body `{"caption": ..., "fileSize": ...}`. */
  datatype CaptionResponse = CaptionResponse(caption: string, fileSize: nat)

  const SizeLabel: string := "debug: size="
  const HashLabel: string := "B sha16="

  /** The caption text for a body of `size` bytes whose digest starts with `sha16`. */
  function CaptionText(size: nat, sha16: string): string {
    SizeLabel + Decimal.Show(size) + HashLabel + sha16
  }

  /** Length of the run of digits `s` starts with. */
  function DigitRun(s: string): (n: nat)
    ensures n <= |s| && Decimal.AllDigits(s[..n])
    ensures n < |s| ==> !Decimal.IsDigit(s[n])
  {
    if s != [] && Decimal.IsDigit(s[0]) then
      var n := 1 + DigitRun(s[1..]);
      assert s[..n] == [s[0]] + s[1..][..n - 1];
      n
    else 0
  }

  /**
   * Reads a caption back into the byte count and the hash prefix it reports.  The
   * count must be written as `str` writes it: a numeral with a leading zero is refused.
   */
  function ParseCaption(c: string): Option<(nat, string)> {
    if |c| < |SizeLabel| || c[..|SizeLabel|] != SizeLabel then None
    else
      var rest := c[|SizeLabel|..];
      var n := DigitRun(rest);
      var tail := rest[n..];
      if n == 0 || (rest[0] == '0' && n > 1) then None
      else if |tail| < |HashLabel| || tail[..|HashLabel|] != HashLabel then None
      else Some((Decimal.Value(rest[..n]), tail[|HashLabel|..]))
  }

  lemma DigitRunOf(ds: string, t: string)
    requires Decimal.AllDigits(ds) && t != [] && !Decimal.IsDigit(t[0])
    ensures DigitRun(ds + t) == |ds|
  {
    assert (ds + t)[|ds|] == t[0];
  }

  lemma SplitConcat(x: string, y: string)
    ensures (x + y)[..|x|] == x && (x + y)[|x|..] == y
  {
  }

  /** The caption states the byte count and the hash prefix unambiguously. */
  lemma ParseCaptionText(size: nat, sha16: string)
    ensures ParseCaption(CaptionText(size, sha16)) == Some((size, sha16))
  {
    var ds := Decimal.Show(size);
    var tail := HashLabel + sha16;
    var rest := ds + tail;
    assert CaptionText(size, sha16) == SizeLabel + rest;
    SplitConcat(SizeLabel, rest);
    DigitRunOf(ds, tail);
    SplitConcat(ds, tail);
    SplitConcat(HashLabel, sha16);
    Decimal.ValueOfShow(size);
  }

  /** A caption that parses is the caption written for the count and prefix it reports. */
  lemma ParseCaptionSound(c: string)
    requires ParseCaption(c).Some?
    ensures c == CaptionText(ParseCaption(c).value.0, ParseCaption(c).value.1)
  {
    var rest := c[|SizeLabel|..];
    var n := DigitRun(rest);
    var ds, tail := rest[..n], rest[n..];
    Decimal.ShowOfValue(ds);
    assert c == c[..|SizeLabel|] + rest;
    assert rest == ds + tail;
    assert tail == tail[..|HashLabel|] + tail[|HashLabel|..];
  }

  /** A caption parses to `(size, sha16)` exactly when it is the caption written for them. */
  lemma ParseCaptionExact(c: string, size: nat, sha16: string)
    ensures ParseCaption(c) == Some((size, sha16)) <==> c == CaptionText(size, sha16)
  {
    if c == CaptionText(size, sha16) {
      ParseCaptionText(size, sha16);
    }
    if ParseCaption(c) == Some((size, sha16)) {
      ParseCaptionSound(c);
    }
  }

  /** The pseudo-analysis of a downloaded body: its size and a debug caption with the hash prefix. */
  function Analyze(data: seq<byte>, sha256: seq<byte> -> HexDigest): (r: CaptionResponse)
    ensures r.fileSize == |data|
    ensures ParseCaption(r.caption) == Some((|data|, sha256(data)[..16]))
    ensures IsLowerHex(sha256(data)[..16]) && |sha256(data)[..16]| == 16
  {
    ParseCaptionText(|data|, sha256(data)[..16]);
    CaptionResponse(CaptionText(|data|, sha256(data)[..16]), |data|)
  }

  /** Two bodies get the same answer exactly when their sizes and hash prefixes agree. */
  lemma AnalyzeSameAnswer(d1: seq<byte>, d2: seq<byte>, sha256: seq<byte> -> HexDigest)
    ensures Analyze(d1, sha256) == Analyze(d2, sha256)
        <==> |d1| == |d2| && sha256(d1)[..16] == sha256(d2)[..16]
  {
  }

  /** A validated request: the caller's id and the image URL (`str(req.image)`). */
  datatype CaptionRequest = CaptionRequest(id: string, image: string)

  /** One outbound GET: the URL, the timeout in seconds and the request headers. */
  datatype HttpGet = HttpGet(url: string, timeoutSeconds: nat, headers: seq<(string, string)>)

  /** The body of a successful download, or the exception `requests` raised. */
  datatype FetchOutcome = Body(content: seq<byte>) | FetchError(reason: string)

  /** What the handler does: return a response body, or let an exception escape. */
  datatype CaptionOutcome = Response(body: CaptionResponse) | Raised(reason: string)

  /** The single GET issued for the image: the cache-busted URL, a 30 s timeout, `Cache-Control: no-cache`. */
  function ImageRequest(req: CaptionRequest, now: nat, codec: UrlCodec): (g: HttpGet)
    ensures g.timeoutSeconds == 30 && g.headers == [("Cache-Control", "no-cache")]
    ensures var u, v := codec.parse(req.image), codec.parse(g.url);
      RoundTripsAt(codec, RewriteUrl(u, req.id, now, codec)) ==>
        && v.scheme == u.scheme && v.netloc == u.netloc && v.path == u.path
        && v.params == u.params && v.fragment == u.fragment
        && (QueryRoundTrips(codec) ==>
              codec.decode(v.query) == RewriteQuery(codec.decode(u.query), req.id, now))
  {
    HttpGet(AddCacheBuster(req.image, req.id, now, codec), 30, [("Cache-Control", "no-cache")])
  }

  /**
   * `POST /caption`: one download of the cache-busted image URL; a failed download
   * propagates, a successful one is answered with its size and hash prefix.
   */
  function Caption(req: CaptionRequest, now: nat, codec: UrlCodec,
                   fetch: HttpGet -> FetchOutcome, sha256: seq<byte> -> HexDigest): (r: CaptionOutcome)
    ensures var got := fetch(ImageRequest(req, now, codec));
      && (r.Response? <==> got.Body?)
      && (got.FetchError? ==> r == Raised(got.reason))
      && (got.Body? ==>
            r.body.fileSize == |got.content| &&
            ParseCaption(r.body.caption) == Some((|got.content|, sha256(got.content)[..16])))
  {
    match fetch(ImageRequest(req, now, codec))
    case FetchError(reason) => Raised(reason)
    case Body(data) => Response(Analyze(data, sha256))
  }

  /** The JSON body `{"ok": true}`. */
  datatype HealthResponse = HealthResponse(ok: bool)

  /** `GET /health` answers `ok` unconditionally. */
  function Health(): (r: HealthResponse)
    ensures r.ok
  {
    HealthResponse(true)
  }
}
