/**
 * The frontend's API client: the anonymous client id, the auth-token
 * header, which requests carry `client_id`, and the offline fallback to
 * cached responses.
 *
 * The network is an input (`Net`), and so are the clock and
 * `JSON.stringify`/`JSON.parse` of the cache entries (`encode`, `decode`).
 */
module ApiClient {
  import opened Wrappers
  import opened Strings
  import opened Numerals
  import opened LocalStorage
  import QuoteViews

  const ClientIdKey: string := "makumark_client_id"
  const AuthTokenKey: string := "auth_token"
  const TodayCacheKey: string := "makumark_quote_today"
  const DateCachePrefix: string := "makumark_quote_"
  const ClientIdParam: string := "client_id"
  const AuthorizationHeader: string := "Authorization"

  /**
   * `getClientId`: the stored id when it is truthy, otherwise `freshId`
   * (the source draws it from `crypto.randomUUID()` or builds
   * "mm-" + random digits, so it is never empty), stored first.
   */
  function GetClientId(s: Storage, freshId: string): (r: (string, Storage))
    requires freshId != ""
    ensures r.0 != "" && GetItem(r.1, ClientIdKey) == Some(r.0)
    ensures Truthy(GetItem(s, ClientIdKey)) ==> r.0 == s[ClientIdKey] && r.1 == s
    ensures !Truthy(GetItem(s, ClientIdKey)) ==> r.0 == freshId
    ensures forall k :: k != ClientIdKey ==> GetItem(r.1, k) == GetItem(s, k)
  {
    var id := GetItem(s, ClientIdKey);
    if Truthy(id) then (id.value, s) else (freshId, SetItem(s, ClientIdKey, freshId))
  }

  /** Once an id is issued, every later call returns it and writes nothing, whatever id it would draw. */
  lemma GetClientIdIsStable(s: Storage, freshId: string, laterFreshId: string)
    requires freshId != "" && laterFreshId != ""
    ensures var (id, s') := GetClientId(s, freshId);
      GetClientId(s', laterFreshId) == (id, s')
  {
  }

  predicate HasToken(s: Storage) {
    Truthy(GetItem(s, AuthTokenKey))
  }

  /** The request interceptor: `Authorization: Token <t>` when a token is stored. */
  function WithAuth(s: Storage, headers: map<string, string>): (h: map<string, string>)
    ensures HasToken(s) ==> h == headers[AuthorizationHeader := "Token " + s[AuthTokenKey]]
    ensures !HasToken(s) ==> h == headers
  {
    if HasToken(s) then headers[AuthorizationHeader := "Token " + s[AuthTokenKey]] else headers
  }

  /** Starting without one, a request carries an `Authorization` header exactly when a token is stored. */
  lemma AuthorizationIffToken(s: Storage, headers: map<string, string>)
    requires AuthorizationHeader !in headers
    ensures AuthorizationHeader in WithAuth(s, headers) <==> HasToken(s)
  {
  }

  /**
   * The query or body of an identified request: `client_id` is added, from
   * `getClientId`, only when no token is stored.
   */
  function Identify(s: Storage, params: map<string, string>, freshId: string): (r: (map<string, string>, Storage))
    requires freshId != ""
    requires ClientIdParam !in params
    ensures ClientIdParam in r.0 <==> !HasToken(s)
    ensures !HasToken(s) ==> r.0 == params[ClientIdParam := GetClientId(s, freshId).0] && r.1 == GetClientId(s, freshId).1
    ensures HasToken(s) ==> r.0 == params && r.1 == s
  {
    if HasToken(s) then (params, s)
    else
      var (id, s') := GetClientId(s, freshId);
      (params[ClientIdParam := id], s')
  }

  /** An anonymous request identifies the caller by the same id on every call. */
  lemma AnonymousRequestsShareTheId(s: Storage, freshId: string, laterFreshId: string)
    requires freshId != "" && laterFreshId != ""
    requires !HasToken(s)
    ensures var (p1, s1) := Identify(s, map[], freshId);
      var (p2, s2) := Identify(s1, map[], laterFreshId);
      s2 == s1 && p2 == p1
  {
    var (id, s1) := GetClientId(s, freshId);
    assert GetItem(s1, AuthTokenKey) == GetItem(s, AuthTokenKey);
  }

  /** A network call: the response data, or the error it threw. */
  datatype Net<D> = Ok(data: D) | Err(error: string)

  /** What an API function gives its caller: a value, or a thrown error. */
  datatype Answer<D> = Returned(data: D) | Thrown(error: string)

  /** The object cached per response: the data, when it was cached, and its date. */
  datatype CacheEntry<D> = CacheEntry(data: D, cachedAt: string, date: string)

  /**
   * The fetch-or-cache pattern: a response is cached under `key` and
   * returned; after a network error the cached data is returned when the
   * entry is truthy and parses, otherwise the original error is rethrown.
   */
  function FetchWithCache<D>(s: Storage, key: string, net: Net<D>, entry: D -> CacheEntry<D>,
                             encode: CacheEntry<D> -> string, decode: string -> Option<CacheEntry<D>>)
    : (r: (Answer<D>, Storage))
    ensures net.Ok? ==> r.0 == Returned(net.data) && r.1 == s[key := encode(entry(net.data))]
    ensures net.Err? ==> r.1 == s
    ensures net.Err? && r.0.Returned? ==> Truthy(GetItem(s, key)) && decode(s[key]).Some? && r.0.data == decode(s[key]).value.data
    ensures net.Err? && (!Truthy(GetItem(s, key)) || decode(s[key]).None?) ==> r.0 == Thrown(net.error)
  {
    match net
    case Ok(data) => (Returned(data), SetItem(s, key, encode(entry(data))))
    case Err(e) =>
      var cached := GetItem(s, key);
      if Truthy(cached) && decode(cached.value).Some? then (Returned(decode(cached.value).value.data), s)
      else (Thrown(e), s)
  }

  /** After one successful fetch, a failing one returns the same data from the cache (given that parsing undoes serialising). */
  lemma OfflineServesLastResponse<D>(s: Storage, key: string, data: D, error: string, entry: D -> CacheEntry<D>,
                                     encode: CacheEntry<D> -> string, decode: string -> Option<CacheEntry<D>>)
    requires decode(encode(entry(data))) == Some(entry(data))
    requires entry(data).data == data
    requires encode(entry(data)) != ""
    ensures var (_, s1) := FetchWithCache(s, key, Ok(data), entry, encode, decode);
      FetchWithCache(s1, key, Err(error), entry, encode, decode) == (Returned(data), s1)
  {
  }

  /** The date stored with today's quote: its `publish_date`, else the UTC date part of the current ISO time. */
  function TodayEntryDate(publishDate: string, nowIso: string): (r: string)
    ensures publishDate != "" ==> r == publishDate
    ensures publishDate == "" ==> r <= nowIso && 'T' !in r && (r == nowIso || nowIso[|r|] == 'T')
  {
    if publishDate != "" then publishDate else Split(nowIso, 'T')[0]
  }

  /** A request as sent: its query parameters and headers. */
  datatype Request = Request(params: map<string, string>, headers: map<string, string>)

  /** The result of one API function: the request it sent, its answer, and the storage afterwards. */
  datatype Call<D> = Call(request: Request, answer: Answer<D>, storage: Storage)

  /** `fetchTodayQuote`. */
  function FetchTodayQuote<D>(s: Storage, freshId: string, net: Net<D>, publishDate: D -> string, nowIso: string,
                              encode: CacheEntry<D> -> string, decode: string -> Option<CacheEntry<D>>)
    : (c: Call<D>)
    requires freshId != ""
    ensures ClientIdParam in c.request.params <==> !HasToken(s)
    ensures AuthorizationHeader in c.request.headers <==> HasToken(s)
    ensures net.Ok? ==> c.answer == Returned(net.data)
    ensures net.Ok? ==> GetItem(c.storage, TodayCacheKey) == Some(encode(CacheEntry(net.data, nowIso, TodayEntryDate(publishDate(net.data), nowIso))))
    ensures net.Err? && !Truthy(GetItem(s, TodayCacheKey)) ==> c.answer == Thrown(net.error)
    ensures net.Err? && Truthy(GetItem(s, TodayCacheKey)) && decode(s[TodayCacheKey]).Some? ==>
      c.answer == Returned(decode(s[TodayCacheKey]).value.data)
    ensures net.Err? && Truthy(GetItem(s, TodayCacheKey)) && decode(s[TodayCacheKey]).None? ==> c.answer == Thrown(net.error)
    ensures net.Err? ==> c.storage == Identify(s, map[], freshId).1
    ensures net.Ok? ==> c.storage == Identify(s, map[], freshId).1[TodayCacheKey :=
      encode(CacheEntry(net.data, nowIso, TodayEntryDate(publishDate(net.data), nowIso)))]
  {
    var (params, s1) := Identify(s, map[], freshId);
    var request := Request(params, WithAuth(s1, map[]));
    var entry := (d: D) => CacheEntry(d, nowIso, TodayEntryDate(publishDate(d), nowIso));
    var (answer, s2) := FetchWithCache(s1, TodayCacheKey, net, entry, encode, decode);
    assert HasToken(s1) == HasToken(s);
    Call(request, answer, s2)
  }

  /** The cache key of one date's quote. */
  function DateCacheKey(dateStr: string): string {
    DateCachePrefix + dateStr
  }

  /** No per-date cache key is the client-id key. */
  lemma DateCacheKeyIsNotClientIdKey(dateStr: string)
    ensures DateCacheKey(dateStr) != ClientIdKey
  {
    assert DateCacheKey(dateStr)[9] == 'q';
  }

  lemma DateCacheKeyInjective(a: string, b: string)
    requires DateCacheKey(a) == DateCacheKey(b)
    ensures a == b
  {
    assert a == DateCacheKey(a)[|DateCachePrefix|..];
  }

  /** `fetchQuoteByDate`. */
  function FetchQuoteByDate<D>(s: Storage, dateStr: string, freshId: string, net: Net<D>, nowIso: string,
                               encode: CacheEntry<D> -> string, decode: string -> Option<CacheEntry<D>>)
    : (c: Call<D>)
    requires freshId != ""
    ensures ClientIdParam in c.request.params <==> !HasToken(s)
    ensures "date" in c.request.params && c.request.params["date"] == dateStr
    ensures AuthorizationHeader in c.request.headers <==> HasToken(s)
    ensures net.Ok? ==> c.answer == Returned(net.data)
    ensures net.Ok? ==> GetItem(c.storage, DateCacheKey(dateStr)) == Some(encode(CacheEntry(net.data, nowIso, dateStr)))
    ensures net.Err? && !Truthy(GetItem(s, DateCacheKey(dateStr))) ==> c.answer == Thrown(net.error)
    ensures net.Err? && Truthy(GetItem(s, DateCacheKey(dateStr))) && decode(s[DateCacheKey(dateStr)]).Some? ==>
      c.answer == Returned(decode(s[DateCacheKey(dateStr)]).value.data)
    ensures net.Err? && Truthy(GetItem(s, DateCacheKey(dateStr))) && decode(s[DateCacheKey(dateStr)]).None? ==> c.answer == Thrown(net.error)
    ensures net.Err? ==> c.storage == Identify(s, map["date" := dateStr], freshId).1
    ensures net.Ok? ==> c.storage == Identify(s, map["date" := dateStr], freshId).1[DateCacheKey(dateStr) :=
      encode(CacheEntry(net.data, nowIso, dateStr))]
  {
    var (params, s1) := Identify(s, map["date" := dateStr], freshId);
    DateCacheKeyIsNotClientIdKey(dateStr);
    var request := Request(params, WithAuth(s1, map[]));
    var entry := (d: D) => CacheEntry(d, nowIso, dateStr);
    var (answer, s2) := FetchWithCache(s1, DateCacheKey(dateStr), net, entry, encode, decode);
    assert HasToken(s1) == HasToken(s);
    Call(request, answer, s2)
  }

  /** The body `toggleFavorite` posts: `is_campaign`, and the client id only when anonymous. */
  datatype ToggleRequest = ToggleRequest(path: string, isCampaign: bool, clientId: Option<string>)

  /** `toggleFavorite`'s request, and the storage after `getClientId`. */
  function ToggleFavoriteRequest(s: Storage, quoteId: nat, isCampaign: bool, freshId: string): (r: (ToggleRequest, Storage))
    requires freshId != ""
    ensures r.0.clientId.Some? <==> !HasToken(s)
    ensures r.0.isCampaign == isCampaign
    ensures r.0.path == "/quotes/" + Decimal(quoteId) + "/toggle-favorite/"
    ensures r.0.clientId.Some? ==> r.0.clientId.value == Identify(s, map[], freshId).0[ClientIdParam]
    ensures r.1 == Identify(s, map[], freshId).1
  {
    var (params, s1) := Identify(s, map[], freshId);
    var path := "/quotes/" + Decimal(quoteId) + "/toggle-favorite/";
    (ToggleRequest(path, isCampaign, if ClientIdParam in params then Some(params[ClientIdParam]) else None), s1)
  }

  /**
   * The anonymous toggle is attributed, by the backend's body-first rule,
   * to the stored client id, whatever headers or query accompany it.
   */
  lemma AnonymousToggleUsesStoredId(s: Storage, quoteId: nat, isCampaign: bool, freshId: string,
                                    header: Option<string>, query: Option<string>)
    requires freshId != ""
    requires !HasToken(s)
    ensures var (req, s') := ToggleFavoriteRequest(s, quoteId, isCampaign, freshId);
      QuoteViews.ToggleClientId(req.clientId, header, query) == s'[ClientIdKey]
  {
  }

  /** What `toggleFavorite` resolves to: the server's data, or `{}` (here `None`) after an error. */
  function ToggleFavoriteResult<D>(net: Net<D>): (r: Option<D>)
    ensures r.Some? <==> net.Ok?
    ensures r.Some? ==> r.value == net.data
  {
    if net.Ok? then Some(net.data) else None
  }

  /** `fetchFavorites`' request. */
  function FetchFavoritesRequest(s: Storage, freshId: string): (r: (Request, Storage))
    requires freshId != ""
    ensures ClientIdParam in r.0.params <==> !HasToken(s)
    ensures AuthorizationHeader in r.0.headers <==> HasToken(s)
    ensures r.0.params == Identify(s, map[], freshId).0
    ensures r.1 == Identify(s, map[], freshId).1
  {
    var (params, s1) := Identify(s, map[], freshId);
    assert HasToken(s1) == HasToken(s);
    (Request(params, WithAuth(s1, map[])), s1)
  }
}
