/**
 * `add_cache_buster`: rewrite the query of an image URL so that it carries a
 * `_cb` parameter made of the caller's token and the current time in seconds.
 *
 * The library functions it calls (`urlparse`, `urlunparse`, `urlencode`,
 * `parse_qsl`) are not modelled: they are the fields of an abstract `UrlCodec`.
 * Results that need the parser to give back the record `urlunparse` printed say
 * so with `RoundTripsAt`, for that one record; results that need the query
 * decoder to invert the encoder say so with `QueryRoundTrips`.
 */
module CacheBuster {
  import opened QueryDict
  import Decimal

  /** The six components of a parsed URL, in `urlparse` order. */
  datatype Url = Url(
    scheme: string,
    netloc: string,
    path: string,
    params: string,
    query: string,
    fragment: string)

  /**
   * `urlparse` (parse), `urlunparse` (unparse), `urlencode` (encode) and
   * `parse_qsl(..., keep_blank_values=True)` (decode).
   */
  datatype UrlCodec = UrlCodec(
    parse: string -> Url,
    unparse: Url -> string,
    encode: Pairs -> string,
    decode: string -> Pairs)

  /**
   * Parsing the printed form of `w` gives back `w`.  This is a property of one
   * record, not of all: `urlunparse` normalises some records (a netloc with a
   * relative path, an upper-case scheme), and those do not come back unchanged.
   */
  ghost predicate RoundTripsAt(c: UrlCodec, w: Url) {
    c.parse(c.unparse(w)) == w
  }

  /** Decoding an encoded dictionary gives back its items, in order. */
  ghost predicate QueryRoundTrips(c: UrlCodec) {
    forall d :: Distinct(d) ==> c.decode(c.encode(d)) == d
  }

  const Key: string := "_cb"

  /** The cache-buster value `f"{token}_{now}"`, where `now` is `int(time.time())`. */
  function Value(token: string, now: nat): (r: string)
    ensures |r| > |token| && r[..|token|] == token && r[|token|] == '_'
    ensures Decimal.AllDigits(r[|token| + 1..]) && |r| > |token| + 1
  {
    token + "_" + Decimal.Show(now)
  }

  /**
   * The value determines both the token and the time: two requests get different
   * values when their tokens differ or when their times differ.
   */
  lemma ValueInjective(t1: string, n1: nat, t2: string, n2: nat)
    ensures Value(t1, n1) == Value(t2, n2) <==> t1 == t2 && n1 == n2
  {
    if Value(t1, n1) == Value(t2, n2) {
      var s1, s2 := Decimal.Show(n1), Decimal.Show(n2);
      var w := Value(t1, n1);
      assert w == t2 + "_" + s2;
      if |s1| < |s2| {
        SeparatorAt(t1, s1);
        assert false;
      } else if |s2| < |s1| {
        SeparatorAt(t2, s2);
        assert false;
      }
      assert s1 == w[|t1| + 1..] == s2;
      Decimal.ShowInjective(n1, n2);
      assert t1 == w[..|t1|] == t2;
    }
  }

  lemma SeparatorAt(t: string, s: string)
    ensures (t + "_" + s)[|t|] == '_'
  {
  }

  /** The dictionary of the decoded query with `_cb` assigned the cache-buster value. */
  function RewriteQuery(q: Pairs, token: string, now: nat): (r: Pairs)
    ensures (Key, Value(token, now)) in r
    ensures |r| <= |q| + 1
  {
    Put(FromPairs(q), Key, Value(token, now))
  }

  /** The rewrite is dict() of the query with the cache-buster pair appended. */
  lemma RewriteQueryAsAppend(q: Pairs, token: string, now: nat)
    ensures RewriteQuery(q, token, now) == FromPairs(q + [(Key, Value(token, now))])
  {
  }

  /**
   * What the rewritten query holds: every name once, `_cb` with the new value,
   * every other name with the value of its last occurrence, nothing else.
   */
  lemma RewriteQueryContents(q: Pairs, token: string, now: nat)
    ensures var r := RewriteQuery(q, token, now);
      && Distinct(r)
      && (forall k :: Occurrences(r, k) == if k == Key || k in Keys(q) then 1 else 0)
      && Key in Keys(r) && Get(r, Key) == Value(token, now)
      && (forall k :: k in Keys(q) && k != Key ==>
            k in Keys(r) && Get(r, k) == q[LastIndex(q, k)].1)
  {
    var r := RewriteQuery(q, token, now);
    var d := FromPairs(q);
    FromPairsKeys(q);
    FromPairsValues(q);
    PutSpec(d, Key, Value(token, now));
    forall k ensures Occurrences(r, k) == if k == Key || k in Keys(q) then 1 else 0 {
      OccurrencesOfDistinct(r, k);
    }
  }

  /** Names keep the order of their first occurrence in the input, a `_cb` new to it last. */
  lemma RewriteQueryOrder(q: Pairs, token: string, now: nat)
    ensures RankSorted(q, RewriteQuery(q, token, now))
  {
    var ps := q + [(Key, Value(token, now))];
    RewriteQueryAsAppend(q, token, now);
    FromPairsOrder(ps);
    FromPairsKeys(ps);
    forall k | k in Keys(ps) ensures Rank(ps, k) == Rank(q, k) {
      RankAppend(q, (Key, Value(token, now)), k);
    }
  }

  /** A `_cb` that was not in the input goes last; one that was there keeps its place. */
  lemma RewriteQueryPlacement(q: Pairs, token: string, now: nat)
    ensures var r := RewriteQuery(q, token, now);
      && (Key !in Keys(q) ==> r == FromPairs(q) + [(Key, Value(token, now))])
      && (Key in Keys(q) ==> Keys(r) == Keys(FromPairs(q)))
  {
    FromPairsKeys(q);
    PutSpec(FromPairs(q), Key, Value(token, now));
  }

  /** Appending a pair leaves the rank of every name it does not add unchanged. */
  lemma RankAppend(q: Pairs, x: (string, string), k: string)
    requires k in Keys(q + [x])
    ensures Rank(q + [x], k) == Rank(q, k)
  {
    if k in Keys(q) {
      FirstIndexAppend(q, x, k);
    } else {
      assert FirstIndex(q + [x], k) == |q|;
    }
  }

  /** Rewriting an already rewritten query with the same token and time changes nothing. */
  lemma RewriteQueryIdempotent(q: Pairs, token: string, now: nat)
    ensures RewriteQuery(RewriteQuery(q, token, now), token, now) == RewriteQuery(q, token, now)
  {
    var r := RewriteQuery(q, token, now);
    RewriteQueryContents(q, token, now);
    FromPairsOfDistinct(r);
    PutSame(r, Key);
  }

  /**
   * The components `add_cache_buster` reassembles: only the query changes, and it
   * is the re-encoded rewrite of the decoded query.
   */
  function RewriteUrl(u: Url, token: string, now: nat, codec: UrlCodec): (r: Url)
    ensures r.scheme == u.scheme && r.netloc == u.netloc && r.path == u.path
    ensures r.params == u.params && r.fragment == u.fragment
    ensures QueryRoundTrips(codec) ==>
      codec.decode(r.query) == RewriteQuery(codec.decode(u.query), token, now)
  {
    var q := RewriteQuery(codec.decode(u.query), token, now);
    RewriteQueryContents(codec.decode(u.query), token, now);
    u.(query := codec.encode(q))
  }

  /** With a query codec that round-trips, rewriting rewritten components changes nothing. */
  lemma RewriteUrlIdempotent(u: Url, token: string, now: nat, codec: UrlCodec)
    requires QueryRoundTrips(codec)
    ensures RewriteUrl(RewriteUrl(u, token, now, codec), token, now, codec)
         == RewriteUrl(u, token, now, codec)
  {
    var once := RewriteUrl(u, token, now, codec);
    RewriteQueryIdempotent(codec.decode(u.query), token, now);
    assert codec.decode(once.query) == RewriteQuery(codec.decode(u.query), token, now);
  }

  /**
   * `add_cache_buster(url, token)` at time `now`.  When the reassembled record
   * survives printing and parsing, the result parses to the components of `url`
   * except for the query, which decodes to the rewritten one.
   */
  function AddCacheBuster(url: string, token: string, now: nat, codec: UrlCodec): (r: string)
    ensures var u, w := codec.parse(url), RewriteUrl(codec.parse(url), token, now, codec);
      RoundTripsAt(codec, w) ==>
        var v := codec.parse(r);
        && v.scheme == u.scheme && v.netloc == u.netloc && v.path == u.path
        && v.params == u.params && v.fragment == u.fragment
        && (QueryRoundTrips(codec) ==>
              codec.decode(v.query) == RewriteQuery(codec.decode(u.query), token, now))
  {
    codec.unparse(RewriteUrl(codec.parse(url), token, now, codec))
  }

  /**
   * Adding the cache buster twice with the same token and time is adding it once,
   * when the reassembled record survives printing and parsing.
   */
  lemma AddCacheBusterIdempotent(url: string, token: string, now: nat, codec: UrlCodec)
    requires QueryRoundTrips(codec)
    requires RoundTripsAt(codec, RewriteUrl(codec.parse(url), token, now, codec))
    ensures AddCacheBuster(AddCacheBuster(url, token, now, codec), token, now, codec)
         == AddCacheBuster(url, token, now, codec)
  {
    RewriteUrlIdempotent(codec.parse(url), token, now, codec);
  }
}
