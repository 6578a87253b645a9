/**
 * The five handlers of `app/routes.py` and their two click-logging
 * helpers, as pure transitions of a system made of the database and the
 * cache. A handler takes the system and the request and returns the
 * response with the next system. The clock, the configured base URL and
 * whether each cache call fails are inputs; ISO-8601 parsing is a
 * function passed in by the caller.
 */
module Routes {
  import opened Wrappers
  import opened Text
  import opened Codec
  import opened Validators
  import Cache
  import opened Models
  import opened Store
  import opened Analytics

  /** What outlives a request. */
  datatype System = System(db: Db, cache: Cache.Store)

  const Start: System := System(Initial, Cache.Empty)

  /** Which cache calls of this request fail: the lookup, and the write
      or delete. */
  datatype Faults = Faults(read: bool, write: bool)

  const NoFaults: Faults := Faults(false, false)

  /** The world a request runs in. */
  datatype Env = Env(now: int, baseUrl: string, faults: Faults)

  /** A JSON member value, as far as the shorten route looks at it:
      `null`, a string, or any other value with its Python truth value. */
  datatype Json = JNull | JString(s: string) | JOther(truthy: bool)

  /** `request.get_json(silent=True)`: no JSON at all (or `null`), a JSON
      value that is not an object, or an object. */
  datatype Body = NoJson | NonObject(truthy: bool) | Object(fields: map<string, Json>)

  /** The requesting client: `remote_addr` and the request headers. */
  datatype Client = Client(remoteAddr: Option<string>, headers: map<string, string>)

  datatype Response =
    | Created(view: UrlView)
    | Info(view: UrlView)
    | Stats(report: Report)
    | Redirect(location: string)
    | NoContent
    | ClientError(status: nat, problem: Problem)
    /** An exception the handler does not catch: status 500. */
    | ServerError

  function Status(r: Response): nat {
    match r
    case Created(_) => 201
    case Info(_) => 200
    case Stats(_) => 200
    case Redirect(_) => 302
    case NoContent => 204
    case ClientError(status, _) => status
    case ServerError => 500
  }

  /** The `error` member of a 4xx response. */
  datatype Problem = BodyNotJson | InvalidUrl(reason: Reason) | BadExpiry | NotFound | Expired

  function ErrorText(p: Problem): string {
    match p
    case BodyNotJson => "Request body must be JSON"
    case InvalidUrl(reason) => Message(reason)
    case BadExpiry => "expires_at must be a valid ISO-8601 datetime"
    case NotFound => "Short URL not found"
    case Expired => "This short URL has expired"
  }

  /** The short code the source gives a new row until its id is known. */
  const WrittenPlaceholder: string := "tmp"

  /** A placeholder no base-62 code can equal. */
  const SafePlaceholder: string := "_tmp"

  // ---------------------------------------------------------------------
  // POST /api/shorten
  // ---------------------------------------------------------------------

  /** `data.get("url", "").strip()`: `None` when the member is not a
      string, where `.strip()` raises. */
  function RequestedUrl(fields: map<string, Json>): (r: Option<string>)
    ensures "url" !in fields ==> r == Some([])
    ensures "url" in fields ==> (r.Some? <==> fields["url"].JString?)
    ensures "url" in fields && fields["url"].JString? ==> r == Some(Strip(fields["url"].s))
    ensures r.Some? ==> Trimmed(r.value)
  {
    if "url" !in fields then Some([])
    else match fields["url"]
      case JString(s) => Some(Strip(s))
      case _ => None
  }

  /** What the `expires_at` member asks for. */
  datatype Expiry = NoExpiry | ExpiresAt(t: int) | Unparsable | NotAString

  /** The optional expiry: ignored when absent or falsy, parsed when a
      string, and a type error for any other truthy value. */
  function RequestedExpiry(fields: map<string, Json>, parseIso: string -> Option<int>): (e: Expiry)
    ensures "expires_at" !in fields ==> e == NoExpiry
    ensures e.ExpiresAt? ==> "expires_at" in fields && fields["expires_at"].JString?
                             && parseIso(fields["expires_at"].s) == Some(e.t)
    ensures e == Unparsable <==> "expires_at" in fields && fields["expires_at"].JString?
                                 && fields["expires_at"].s != [] && parseIso(fields["expires_at"].s).None?
    ensures ("expires_at" in fields && fields["expires_at"].JString? && fields["expires_at"].s != []
             && parseIso(fields["expires_at"].s).Some?) ==> e == ExpiresAt(parseIso(fields["expires_at"].s).value)
    ensures "expires_at" in fields && fields["expires_at"] in {JNull, JOther(false), JString([])} ==> e == NoExpiry
    ensures e == NotAString <==> "expires_at" in fields && fields["expires_at"] == JOther(true)
  {
    if "expires_at" !in fields then NoExpiry
    else match fields["expires_at"]
      case JNull => NoExpiry
      case JOther(truthy) => if truthy then NotAString else NoExpiry
      case JString(s) =>
        if s == [] then NoExpiry
        else match parseIso(s)
          case None => Unparsable
          case Some(t) => ExpiresAt(t)
  }

  /** An expiry the handler goes on with: none, or a parsed instant. */
  predicate ExpiryUsable(e: Expiry) {
    e.NoExpiry? || e.ExpiresAt?
  }

  /** The instant an usable expiry stands for. */
  function ExpiryValue(e: Expiry): Option<int> {
    if e.ExpiresAt? then Some(e.t) else None
  }

  /** Both writes of a new row go through: the placeholder is free, and
      the code of the next id fits the column and is free too. */
  predicate CanPersist(placeholder: string, d: Db) {
    && !CodeTaken(d.urls, placeholder)
    && |Encode(d.nextUrlId)| <= MaxCodeLength
    && !CodeTaken(d.urls, Encode(d.nextUrlId))
  }

  /** The effect of a successful shorten: a row under the next id, whose
      code is that id in base 62, written through to the cache. */
  predicate Inserted(s: System, r: (Response, System), env: Env)
    requires r.0.Created?
  {
    var id := s.db.nextUrlId;
    var v := r.0.view;
    && v == ToDict(NewUrl(id, Encode(id), v.originalUrl, env.now, v.expiresAt), env.baseUrl)
    && r.1 == System(Insert(s.db, Encode(id), v.originalUrl, env.now, v.expiresAt),
                     Cache.Set(s.cache, Encode(id), v.originalUrl, env.faults.write))
  }

  /** The row is flushed under `placeholder` and given its real code at
      commit; either step can violate the unique index or the column
      width, which the handler does not catch. */
  function Persist(placeholder: string, s: System, url: string, expiresAt: Option<int>, env: Env): (r: (Response, System))
    ensures r.0.Created? || r == (ServerError, s)
    ensures r.0.Created? <==> CanPersist(placeholder, s.db)
    ensures r.0.Created? ==> Inserted(s, r, env) && r.0.view.originalUrl == url && r.0.view.expiresAt == expiresAt
  {
    var code := Encode(s.db.nextUrlId);
    if CodeTaken(s.db.urls, placeholder) || |code| > MaxCodeLength || CodeTaken(s.db.urls, code) then
      (ServerError, s)
    else
      var db' := Insert(s.db, code, url, env.now, expiresAt);
      (Created(ToDict(db'.urls[|db'.urls| - 1], env.baseUrl)),
       System(db', Cache.Set(s.cache, code, url, env.faults.write)))
  }

  /** `shorten_url`, parameterised by the placeholder short code. */
  function ShortenWith(placeholder: string, s: System, body: Body, parseIso: string -> Option<int>, env: Env): (r: (Response, System))
    ensures r.0.Created? || r.1 == s
    ensures r.0 == ClientError(400, BodyNotJson) <==> body == NoJson || body == NonObject(false) || body == Object(map[])
    ensures r.0.Created? <==> && body.Object? && RequestedUrl(body.fields).Some?
                              && ValidateUrl(RequestedUrl(body.fields)) == Accepted
                              && ExpiryUsable(RequestedExpiry(body.fields, parseIso))
                              && CanPersist(placeholder, s.db)
    ensures r.0.Created? ==> r.0.view.originalUrl == RequestedUrl(body.fields).value
                             && r.0.view.expiresAt == ExpiryValue(RequestedExpiry(body.fields, parseIso))
    ensures r.0.Created? ==> Inserted(s, r, env) && !CodeTaken(s.db.urls, placeholder)
  {
    match body
    case NoJson => (ClientError(400, BodyNotJson), s)
    case NonObject(truthy) => if truthy then (ServerError, s) else (ClientError(400, BodyNotJson), s)
    case Object(fields) =>
      if fields == map[] then (ClientError(400, BodyNotJson), s)
      else match RequestedUrl(fields)
        case None => (ServerError, s)
        case Some(url) => ShortenUrl(placeholder, s, fields, url, parseIso, env)
  }

  /** The steps after reading the URL member: validate it, read the
      expiry, persist. */
  function ShortenUrl(placeholder: string, s: System, fields: map<string, Json>, url: string,
                      parseIso: string -> Option<int>, env: Env): (r: (Response, System))
    requires Trimmed(url)
    ensures r.0.Created? || r.1 == s
    ensures r.0 != ClientError(400, BodyNotJson)
    ensures r.0.Created? <==> && ValidateUrl(Some(url)) == Accepted
                              && ExpiryUsable(RequestedExpiry(fields, parseIso))
                              && CanPersist(placeholder, s.db)
    ensures r.0.Created? ==> r.0.view.originalUrl == url
                             && r.0.view.expiresAt == ExpiryValue(RequestedExpiry(fields, parseIso))
    ensures r.0.Created? ==> Inserted(s, r, env) && !CodeTaken(s.db.urls, placeholder)
    ensures ValidateUrl(Some(url)).Rejected? ==> r == (ClientError(400, InvalidUrl(ValidateUrl(Some(url)).reason)), s)
    ensures ValidateUrl(Some(url)) == Accepted && RequestedExpiry(fields, parseIso) == Unparsable
            ==> r == (ClientError(400, BadExpiry), s)
  {
    match ValidateUrl(Some(url))
    case Raised(_) => (ServerError, s)
    case Rejected(reason) => (ClientError(400, InvalidUrl(reason)), s)
    case Accepted => ShortenValid(placeholder, s, fields, url, parseIso, env)
  }

  /** The steps after validation; the URL is already stripped, so
      `sanitize_url` leaves it as it is. */
  function ShortenValid(placeholder: string, s: System, fields: map<string, Json>, url: string,
                        parseIso: string -> Option<int>, env: Env): (r: (Response, System))
    requires Trimmed(url)
    ensures r.0.Created? || r.1 == s
    ensures r.0 != ClientError(400, BodyNotJson)
    ensures r.0.Created? <==> ExpiryUsable(RequestedExpiry(fields, parseIso)) && CanPersist(placeholder, s.db)
    ensures r.0.Created? ==> r.0.view.originalUrl == url
                             && r.0.view.expiresAt == ExpiryValue(RequestedExpiry(fields, parseIso))
    ensures r.0.Created? ==> Inserted(s, r, env) && !CodeTaken(s.db.urls, placeholder)
    ensures RequestedExpiry(fields, parseIso) == Unparsable ==> r == (ClientError(400, BadExpiry), s)
  {
    var clean := SanitizeUrl(url);
    SanitizeStripped(url);
    var e := RequestedExpiry(fields, parseIso);
    if e == NotAString then (ServerError, s)
    else if e == Unparsable then (ClientError(400, BadExpiry), s)
    else Persist(placeholder, s, clean, ExpiryValue(e), env)
  }

  /** The handler with the placeholder the source uses. */
  function ShortenAsWritten(s: System, body: Body, parseIso: string -> Option<int>, env: Env): (r: (Response, System))
    ensures r == ShortenWith(WrittenPlaceholder, s, body, parseIso, env)
  {
    ShortenWith(WrittenPlaceholder, s, body, parseIso, env)
  }

  /** The handler with a placeholder outside the code alphabet. */
  function Shorten(s: System, body: Body, parseIso: string -> Option<int>, env: Env): (r: (Response, System))
    ensures r == ShortenWith(SafePlaceholder, s, body, parseIso, env)
  {
    ShortenWith(SafePlaceholder, s, body, parseIso, env)
  }

  // ---------------------------------------------------------------------
  // GET /api/url/<code>
  // ---------------------------------------------------------------------

  /** `get_url_info`: the view of the active row, or 404. */
  function GetUrlInfo(s: System, code: string, env: Env): (r: Response)
    ensures r.Info? <==> FindActive(s.db.urls, code).Some?
    ensures r.Info? ==> r.view.shortCode == code && r.view.isActive
                        && r.view == ToDict(s.db.urls[FindActive(s.db.urls, code).value], env.baseUrl)
    ensures !r.Info? ==> r == ClientError(404, NotFound)
  {
    match FindActive(s.db.urls, code)
    case None => ClientError(404, NotFound)
    case Some(i) => Info(ToDict(s.db.urls[i], env.baseUrl))
  }

  // ---------------------------------------------------------------------
  // Click helpers
  // ---------------------------------------------------------------------

  /** `req.remote_addr or "unknown"`: an empty address counts as none. */
  function ClientAddress(c: Client): (ip: string)
    ensures ip != []
    ensures c.remoteAddr.Some? && c.remoteAddr.value != [] ==> ip == c.remoteAddr.value
    ensures c.remoteAddr.None? || c.remoteAddr.value == [] ==> ip == "unknown"
  {
    if c.remoteAddr.Some? && c.remoteAddr.value != [] then c.remoteAddr.value else "unknown"
  }

  /** `req.headers.get(name, "")`. */
  function Header(c: Client, name: string): (v: string)
    ensures name in c.headers ==> v == c.headers[name]
    ensures name !in c.headers ==> v == []
  {
    if name in c.headers then c.headers[name] else []
  }

  /** `_log_click`: one click for the URL, stamped with the time and the
      client's address and headers. */
  function LogClick(d: Db, urlId: nat, c: Client, now: int): (d': Db)
    ensures d'.clicks == d.clicks + [ClickLog(d.nextClickId, urlId, ClientAddress(c), Header(c, "User-Agent"), Header(c, "Referer"), now)]
    ensures d'.urls == d.urls && d'.nextUrlId == d.nextUrlId
  {
    AppendClick(d, urlId, ClientAddress(c), Header(c, "User-Agent"), Header(c, "Referer"), now)
  }

  /** The click of a redirect: logged and counted against row `i`. */
  function CountClick(d: Db, i: nat, c: Client, now: int): (d': Db)
    requires i < |d.urls|
    ensures |d'.clicks| == |d.clicks| + 1 && d'.clicks[..|d.clicks|] == d.clicks
    ensures d'.clicks[|d.clicks|].urlId == d.urls[i].id && d'.clicks[|d.clicks|].clickedAt == now
    ensures |d'.urls| == |d.urls| && d'.urls[i].clickCount == d.urls[i].clickCount + 1
    ensures d'.urls[i] == d.urls[i].(clickCount := d.urls[i].clickCount + 1)
    ensures forall j :: 0 <= j < |d.urls| && j != i ==> d'.urls[j] == d.urls[j]
  {
    var d1 := LogClick(d, d.urls[i].id, c, now);
    assert d1.clicks[..|d.clicks|] == d.clicks;
    Increment(d1, i)
  }

  /** `_log_click_and_increment`: count the click when the code has an
      active row, otherwise change nothing. */
  function LogClickAndIncrement(d: Db, code: string, c: Client, now: int): (d': Db)
    ensures FindActive(d.urls, code).None? ==> d' == d
    ensures FindActive(d.urls, code).Some? ==> d' == CountClick(d, FindActive(d.urls, code).value, c, now)
  {
    match FindActive(d.urls, code)
    case None => d
    case Some(i) => CountClick(d, i, c, now)
  }

  // ---------------------------------------------------------------------
  // GET /<code>
  // ---------------------------------------------------------------------

  /** An expiry strictly before the current time has passed. */
  predicate HasExpired(u: Url, now: int) {
    u.expiresAt.Some? && u.expiresAt.value < now
  }

  /** `redirect_short_url`. A non-empty cached URL is followed without
      looking at the row's active flag or expiry. */
  function RedirectShortUrl(s: System, code: string, c: Client, env: Env): (r: (Response, System))
    ensures r.0.Redirect? || r.0 == ClientError(404, NotFound) || r.0 == ClientError(404, Expired)
    ensures r.0 == ClientError(404, NotFound) ==> r.1 == s
  {
    var cached := Cache.Get(s.cache, code, env.faults.read);
    if cached.Some? && cached.value != [] then
      (Redirect(cached.value), s.(db := LogClickAndIncrement(s.db, code, c, env.now)))
    else match FindActive(s.db.urls, code)
      case None => (ClientError(404, NotFound), s)
      case Some(i) =>
        var u := s.db.urls[i];
        if HasExpired(u, env.now) then
          (ClientError(404, Expired), System(Deactivate(s.db, i), Cache.Invalidate(s.cache, code, env.faults.write)))
        else
          (Redirect(u.originalUrl),
           System(CountClick(s.db, i, c, env.now), Cache.Set(s.cache, code, u.originalUrl, env.faults.write)))
  }

  /** A cache hit is a redirect to the cached URL. The click is counted
      exactly when the code has an active row, whatever its expiry. */
  lemma RedirectOnHit(s: System, code: string, c: Client, env: Env)
    requires !env.faults.read && Cache.Key(code) in s.cache && s.cache[Cache.Key(code)].url != []
    ensures var r := RedirectShortUrl(s, code, c, env);
            && r.0 == Redirect(s.cache[Cache.Key(code)].url)
            && r.1.cache == s.cache
            && (FindActive(s.db.urls, code).None? ==> r.1.db == s.db)
            && (FindActive(s.db.urls, code).Some? ==>
                  var i := FindActive(s.db.urls, code).value;
                  && |r.1.db.clicks| == |s.db.clicks| + 1
                  && r.1.db.clicks[|s.db.clicks|].urlId == s.db.urls[i].id
                  && r.1.db.urls[i].clickCount == s.db.urls[i].clickCount + 1)
  {
  }

  /** On a miss, an unknown or inactive code is 404 and nothing changes. */
  lemma RedirectOnMissUnknown(s: System, code: string, c: Client, env: Env)
    requires Cache.Get(s.cache, code, env.faults.read).None?
    requires FindActive(s.db.urls, code).None?
    ensures RedirectShortUrl(s, code, c, env) == (ClientError(404, NotFound), s)
  {
  }

  /** On a miss, an expired row is deactivated, its cache entry dropped
      (unless the delete fails), and no click is counted. */
  lemma RedirectOnMissExpired(s: System, code: string, c: Client, env: Env)
    requires Cache.Get(s.cache, code, env.faults.read).None?
    requires FindActive(s.db.urls, code).Some?
    requires HasExpired(s.db.urls[FindActive(s.db.urls, code).value], env.now)
    ensures var r := RedirectShortUrl(s, code, c, env);
            var i := FindActive(s.db.urls, code).value;
            && r.0 == ClientError(404, Expired)
            && !r.1.db.urls[i].isActive
            && r.1.db.clicks == s.db.clicks
            && r.1.db.urls[i].clickCount == s.db.urls[i].clickCount
            && (!env.faults.write ==> Cache.Key(code) !in r.1.cache)
  {
  }

  /** On a miss, a live row is followed, cached and counted once. */
  lemma RedirectOnMissLive(s: System, code: string, c: Client, env: Env)
    requires Cache.Get(s.cache, code, env.faults.read).None?
    requires FindActive(s.db.urls, code).Some?
    requires !HasExpired(s.db.urls[FindActive(s.db.urls, code).value], env.now)
    ensures var r := RedirectShortUrl(s, code, c, env);
            var u := s.db.urls[FindActive(s.db.urls, code).value];
            && r.0 == Redirect(u.originalUrl)
            && |r.1.db.clicks| == |s.db.clicks| + 1
            && r.1.db.clicks[|s.db.clicks|].urlId == u.id
            && r.1.db.urls[FindActive(s.db.urls, code).value].clickCount == u.clickCount + 1
            && (!env.faults.write ==> Cache.Get(r.1.cache, code, false) == Some(u.originalUrl))
  {
  }

  // ---------------------------------------------------------------------
  // GET /api/analytics/<code>
  // ---------------------------------------------------------------------

  /** `get_analytics`. */
  function GetAnalytics(s: System, code: string, args: PageArgs, env: Env): (r: Response)
    ensures r.Stats? <==> FindActive(s.db.urls, code).Some?
    ensures !r.Stats? ==> r == ClientError(404, NotFound)
    ensures r.Stats? ==> 1 <= r.report.perPage <= MaxPerPage && r.report.page >= 1
                         && |r.report.recent| <= r.report.perPage && |r.report.daily| <= DailyRowLimit
  {
    match FindActive(s.db.urls, code)
    case None => ClientError(404, NotFound)
    case Some(i) =>
      var u := s.db.urls[i];
      Stats(Summarise(u, env.baseUrl, ClicksFor(s.db.clicks, u.id), args))
  }

  /** In a valid store the reported click total is the number of logged
      clicks, so `total_clicks` and the pagination total agree. */
  lemma AnalyticsTotalsAgree(s: System, code: string, args: PageArgs, env: Env)
    requires Valid(s.db)
    requires GetAnalytics(s, code, args, env).Stats?
    ensures GetAnalytics(s, code, args, env).report.totalClicks == GetAnalytics(s, code, args, env).report.total
  {
  }

  // ---------------------------------------------------------------------
  // DELETE /api/url/<code>
  // ---------------------------------------------------------------------

  /** `delete_url`: deactivate the active row, then drop its cache entry. */
  function DeleteUrl(s: System, code: string, env: Env): (r: (Response, System))
    ensures r.0 == NoContent <==> FindActive(s.db.urls, code).Some?
    ensures r.0 != NoContent ==> r == (ClientError(404, NotFound), s)
    ensures r.0 == NoContent ==> var i := FindActive(s.db.urls, code).value;
              && r.1.db == Deactivate(s.db, i)
              && (!env.faults.write ==> Cache.Key(code) !in r.1.cache)
              && (env.faults.write ==> r.1.cache == s.cache)
  {
    match FindActive(s.db.urls, code)
    case None => (ClientError(404, NotFound), s)
    case Some(i) => (NoContent, System(Deactivate(s.db, i), Cache.Invalidate(s.cache, code, env.faults.write)))
  }
}
