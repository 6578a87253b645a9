/**
 * What the handlers of `Routes` keep true from one request to the next,
 * and what a client observes over a sequence of requests.
 *
 * The invariant is `Consistent`: the store is `Valid`, and every URL the
 * cache holds is one that some row, active or not, maps the same code to.
 * Every handler keeps it, whatever the cache backend does, so a redirect
 * only ever goes to a URL that was registered under the requested code.
 */
module Behaviour {
  import opened Wrappers
  import opened Codec
  import opened Text
  import opened Validators
  import Cache
  import opened Models
  import opened Store
  import opened Analytics
  import opened Routes

  /** Some row, active or not, maps `code` to `url`. */
  predicate Registered(urls: seq<Url>, code: string, url: string) {
    exists j :: 0 <= j < |urls| && urls[j].shortCode == code && urls[j].originalUrl == url
  }

  /** Every cached URL is registered under the code of its key. */
  ghost predicate CacheSound(s: System) {
    forall code :: Cache.Key(code) in s.cache ==> Registered(s.db.urls, code, s.cache[Cache.Key(code)].url)
  }

  ghost predicate Consistent(s: System) {
    Valid(s.db) && CacheSound(s)
  }

  lemma StartConsistent()
    ensures Consistent(Start)
  {
    InitialValid();
  }

  lemma EvolvesReflexive(d: Db)
    ensures Evolves(d, d)
  {
  }

  /** Rows are never removed and keep their code and URL. */
  lemma RegisteredPersists(d: Db, d': Db, code: string, url: string)
    requires Evolves(d, d') && Registered(d.urls, code, url)
    ensures Registered(d'.urls, code, url)
  {
    var j :| 0 <= j < |d.urls| && d.urls[j].shortCode == code && d.urls[j].originalUrl == url;
    assert Persists(d.urls[j], d'.urls[j]);
  }

  /** A store that moves forward keeps a sound cache sound. */
  lemma SoundAfterEvolve(s: System, d': Db)
    requires CacheSound(s) && Evolves(s.db, d')
    ensures CacheSound(System(d', s.cache))
  {
    forall code | Cache.Key(code) in s.cache
      ensures Registered(d'.urls, code, s.cache[Cache.Key(code)].url)
    {
      RegisteredPersists(s.db, d', code, s.cache[Cache.Key(code)].url);
    }
  }

  /** Caching a registered URL under its code keeps the cache sound. */
  lemma SoundAfterSet(db: Db, c: Cache.Store, code: string, url: string, fails: bool)
    requires CacheSound(System(db, c)) && Registered(db.urls, code, url)
    ensures CacheSound(System(db, Cache.Set(c, code, url, fails)))
  {
    var c' := Cache.Set(c, code, url, fails);
    forall k | Cache.Key(k) in c'
      ensures Registered(db.urls, k, c'[Cache.Key(k)].url)
    {
      Cache.KeyInjective(k, code);
    }
  }

  /** Dropping an entry keeps the cache sound. */
  lemma SoundAfterInvalidate(db: Db, c: Cache.Store, code: string, fails: bool)
    requires CacheSound(System(db, c))
    ensures CacheSound(System(db, Cache.Invalidate(c, code, fails)))
  {
    var c' := Cache.Invalidate(c, code, fails);
    forall k | Cache.Key(k) in c'
      ensures Registered(db.urls, k, c'[Cache.Key(k)].url)
    {
      Cache.KeyInjective(k, code);
    }
  }

  /** Logging and counting a click keeps the store valid and moves it
      forward. */
  lemma CountClickValid(d: Db, i: nat, c: Client, now: int)
    requires Valid(d) && i < |d.urls|
    ensures Valid(CountClick(d, i, c, now)) && Evolves(d, CountClick(d, i, c, now))
  {
    var ip, agent, referer := ClientAddress(c), Header(c, "User-Agent"), Header(c, "Referer");
    var d1 := AppendClick(d, d.urls[i].id, ip, agent, referer, now);
    assert CountClick(d, i, c, now) == Increment(d1, i);
    ClickValid(d, i, ip, agent, referer, now);
    PrimitivesEvolve(d, i, [], [], d.urls[i].id, ip, agent, referer, now, None);
    PrimitivesEvolve(d1, i, [], [], d.urls[i].id, ip, agent, referer, now, None);
    EvolvesTransitive(d, d1, Increment(d1, i));
  }

  /** A valid store never holds the next code. */
  lemma FreshCodeUnused(d: Db)
    requires Valid(d)
    ensures !CodeTaken(d.urls, Encode(d.nextUrlId))
  {
    forall j | 0 <= j < |d.urls|
      ensures d.urls[j].shortCode != Encode(d.nextUrlId)
    {
      EncodeInjective(d.urls[j].id, d.nextUrlId);
    }
  }

  /** Once its active row is deactivated, a code has no active row left. */
  lemma NoActiveAfterDeactivate(d: Db, code: string, i: nat)
    requires Valid(d) && FindActive(d.urls, code) == Some(i)
    ensures FindActive(Deactivate(d, i).urls, code).None?
  {
    var urls' := Deactivate(d, i).urls;
    forall j | 0 <= j < |urls'|
      ensures !(urls'[j].shortCode == code && urls'[j].isActive)
    {
      if j != i {
        UniqueCodes(d, i, j);
      }
    }
  }

  // ---------------------------------------------------------------------
  // Every handler keeps the invariant
  // ---------------------------------------------------------------------

  /** Inserting the next row and caching its URL keeps the invariant. */
  lemma InsertPreserves(s: System, url: string, now: int, exp: Option<int>, fails: bool)
    requires Consistent(s)
    ensures var code := Encode(s.db.nextUrlId);
            var s' := System(Insert(s.db, code, url, now, exp), Cache.Set(s.cache, code, url, fails));
            Consistent(s') && Evolves(s.db, s'.db)
  {
    var code := Encode(s.db.nextUrlId);
    var d' := Insert(s.db, code, url, now, exp);
    InsertValid(s.db, url, now, exp);
    assert Evolves(s.db, d') by {
      assert forall j :: 0 <= j < |s.db.urls| ==> d'.urls[j] == s.db.urls[j];
    }
    SoundAfterEvolve(s, d');
    assert d'.urls[|s.db.urls|].shortCode == code && d'.urls[|s.db.urls|].originalUrl == url;
    SoundAfterSet(d', s.cache, code, url, fails);
  }

  /** A successful shorten keeps the invariant. */
  lemma InsertedPreserves(s: System, r: (Response, System), env: Env)
    requires Consistent(s)
    requires r.0.Created? && Inserted(s, r, env)
    ensures Consistent(r.1) && Evolves(s.db, r.1.db)
  {
    InsertPreserves(s, r.0.view.originalUrl, env.now, r.0.view.expiresAt, env.faults.write);
  }

  lemma ShortenPreserves(placeholder: string, s: System, body: Body, parseIso: string -> Option<int>, env: Env)
    requires Consistent(s)
    ensures var r := ShortenWith(placeholder, s, body, parseIso, env);
            Consistent(r.1) && Evolves(s.db, r.1.db)
  {
    var r := ShortenWith(placeholder, s, body, parseIso, env);
    if r.0.Created? {
      InsertedPreserves(s, r, env);
    } else {
      EvolvesReflexive(s.db);
    }
  }

  /** Counting a click on row `i` keeps the invariant, and so does then
      caching the row's URL under its code. */
  lemma ClickPreserves(s: System, i: nat, c: Client, now: int, fails: bool)
    requires Consistent(s) && i < |s.db.urls|
    ensures var d' := CountClick(s.db, i, c, now);
            && Consistent(System(d', s.cache))
            && Consistent(System(d', Cache.Set(s.cache, s.db.urls[i].shortCode, s.db.urls[i].originalUrl, fails)))
            && Evolves(s.db, d')
  {
    var d' := CountClick(s.db, i, c, now);
    CountClickValid(s.db, i, c, now);
    SoundAfterEvolve(s, d');
    assert d'.urls[i].shortCode == s.db.urls[i].shortCode && d'.urls[i].originalUrl == s.db.urls[i].originalUrl;
    SoundAfterSet(d', s.cache, s.db.urls[i].shortCode, s.db.urls[i].originalUrl, fails);
  }

  /** Deactivating row `i`, and dropping a cache entry or not, keeps the
      invariant. */
  lemma DeactivatePreserves(s: System, i: nat, code: string, fails: bool)
    requires Consistent(s) && i < |s.db.urls|
    ensures Consistent(System(Deactivate(s.db, i), Cache.Invalidate(s.cache, code, fails)))
    ensures Evolves(s.db, Deactivate(s.db, i))
  {
    var d' := Deactivate(s.db, i);
    DeactivateValid(s.db, i);
    PrimitivesEvolve(s.db, i, [], [], 0, [], [], [], 0, None);
    SoundAfterEvolve(s, d');
    SoundAfterInvalidate(d', s.cache, code, fails);
  }

  lemma RedirectPreserves(s: System, code: string, c: Client, env: Env)
    requires Consistent(s)
    ensures var r := RedirectShortUrl(s, code, c, env);
            Consistent(r.1) && Evolves(s.db, r.1.db)
  {
    var r := RedirectShortUrl(s, code, c, env);
    var cached := Cache.Get(s.cache, code, env.faults.read);
    match FindActive(s.db.urls, code)
    case None =>
      assert r.1 == s;
      EvolvesReflexive(s.db);
    case Some(i) =>
      ClickPreserves(s, i, c, env.now, env.faults.write);
      if cached.Some? && cached.value != [] {
        assert r.1 == System(CountClick(s.db, i, c, env.now), s.cache);
      } else if HasExpired(s.db.urls[i], env.now) {
        assert r.1 == System(Deactivate(s.db, i), Cache.Invalidate(s.cache, code, env.faults.write));
        DeactivatePreserves(s, i, code, env.faults.write);
      } else {
        assert r.1 == System(CountClick(s.db, i, c, env.now),
                             Cache.Set(s.cache, code, s.db.urls[i].originalUrl, env.faults.write));
      }
  }

  lemma DeletePreserves(s: System, code: string, env: Env)
    requires Consistent(s)
    ensures var r := DeleteUrl(s, code, env);
            Consistent(r.1) && Evolves(s.db, r.1.db)
  {
    match FindActive(s.db.urls, code)
    case None =>
      EvolvesReflexive(s.db);
    case Some(i) =>
      DeactivatePreserves(s, i, code, env.faults.write);
  }

  /** Under a sound cache, both paths of a redirect lead to a URL
      registered under the requested code. */
  lemma RedirectGoesToRegistered(s: System, code: string, c: Client, env: Env)
    requires CacheSound(s)
    ensures var r := RedirectShortUrl(s, code, c, env);
            r.0.Redirect? ==> Registered(s.db.urls, code, r.0.location)
  {
    var cached := Cache.Get(s.cache, code, env.faults.read);
    if !(cached.Some? && cached.value != []) {
      match FindActive(s.db.urls, code)
      case None =>
      case Some(i) =>
        assert s.db.urls[i].shortCode == code;
    }
  }

  // ---------------------------------------------------------------------
  // The application as a whole
  // ---------------------------------------------------------------------

  /** One request of the five routes. */
  datatype Call =
    | ShortenCall(body: Body)
    | InfoCall(code: string)
    | RedirectCall(code: string, client: Client)
    | AnalyticsCall(code: string, args: PageArgs)
    | DeleteCall(code: string)

  datatype Request = Request(call: Call, env: Env)

  /** The URL map of the application: each request to its handler, with
      new rows flushed under `placeholder` (`"tmp"` in the source). */
  function Handle(placeholder: string, s: System, q: Request, parseIso: string -> Option<int>): (r: (Response, System))
    ensures q.call.InfoCall? || q.call.AnalyticsCall? ==> r.1 == s
    ensures q.call.RedirectCall? ==> r.0.Redirect? || r.0.ClientError?
    ensures q.call.DeleteCall? ==> r.0 == NoContent || r.0 == ClientError(404, NotFound)
  {
    match q.call
    case ShortenCall(body) => ShortenWith(placeholder, s, body, parseIso, q.env)
    case InfoCall(code) => (GetUrlInfo(s, code, q.env), s)
    case RedirectCall(code, client) => RedirectShortUrl(s, code, client, q.env)
    case AnalyticsCall(code, args) => (GetAnalytics(s, code, args, q.env), s)
    case DeleteCall(code) => DeleteUrl(s, code, q.env)
  }

  lemma HandlePreserves(placeholder: string, s: System, q: Request, parseIso: string -> Option<int>)
    requires Consistent(s)
    ensures Consistent(Handle(placeholder, s, q, parseIso).1) && Evolves(s.db, Handle(placeholder, s, q, parseIso).1.db)
  {
    var s' := Handle(placeholder, s, q, parseIso).1;
    match q.call
    case ShortenCall(body) =>
      assert s' == ShortenWith(placeholder, s, body, parseIso, q.env).1;
      ShortenPreserves(placeholder, s, body, parseIso, q.env);
    case InfoCall(_) =>
      EvolvesReflexive(s.db);
    case RedirectCall(code, client) =>
      assert s' == RedirectShortUrl(s, code, client, q.env).1;
      RedirectPreserves(s, code, client, q.env);
    case AnalyticsCall(_, _) =>
      EvolvesReflexive(s.db);
    case DeleteCall(code) =>
      assert s' == DeleteUrl(s, code, q.env).1;
      DeletePreserves(s, code, q.env);
  }

  /** The system after serving the requests in order. */
  function Run(placeholder: string, s: System, qs: seq<Request>, parseIso: string -> Option<int>): System
    decreases |qs|
  {
    if qs == [] then s else Run(placeholder, Handle(placeholder, s, qs[0], parseIso).1, qs[1..], parseIso)
  }

  /** Any sequence of requests keeps the invariant and only moves the
      store forward, whatever the placeholder: with `"tmp"` a request can
      fail, but a failed request changes nothing. */
  lemma {:induction false} RunPreserves(placeholder: string, s: System, qs: seq<Request>, parseIso: string -> Option<int>)
    requires Consistent(s)
    ensures Consistent(Run(placeholder, s, qs, parseIso)) && Evolves(s.db, Run(placeholder, s, qs, parseIso).db)
    decreases |qs|
  {
    if qs == [] {
      EvolvesReflexive(s.db);
    } else {
      var s1 := Handle(placeholder, s, qs[0], parseIso).1;
      HandlePreserves(placeholder, s, qs[0], parseIso);
      RunPreserves(placeholder, s1, qs[1..], parseIso);
      EvolvesTransitive(s.db, s1.db, Run(placeholder, s, qs, parseIso).db);
    }
  }

  /** After any history, a redirect goes to a URL that was registered
      under the requested code, even when it comes from a stale cache
      entry. */
  lemma RedirectsStayRegistered(placeholder: string, qs: seq<Request>, parseIso: string -> Option<int>, code: string, c: Client, env: Env)
    ensures var s := Run(placeholder, Start, qs, parseIso);
            var r := RedirectShortUrl(s, code, c, env);
            r.0.Redirect? ==> Registered(s.db.urls, code, r.0.location)
  {
    StartConsistent();
    RunPreserves(placeholder, Start, qs, parseIso);
    RedirectGoesToRegistered(Run(placeholder, Start, qs, parseIso), code, c, env);
  }

  // ---------------------------------------------------------------------
  // The placeholder short code
  // ---------------------------------------------------------------------

  /** The placeholder the source writes is the base-62 numeral of 112865. */
  lemma PlaceholderCollides()
    ensures Encode(112865) == WrittenPlaceholder
  {
    CharsetAt(29);
    CharsetAt(22);
    CharsetAt(25);
    assert Digits(0) == [];
    assert Digits(29) == Digits(0) + [Charset[29]];
    assert Digits(1820) == Digits(29) + [Charset[22]];
    assert Digits(112865) == Digits(1820) + [Charset[25]];
  }

  /** As written: once the row with id 112865 exists its code is the
      placeholder, the placeholder flush of every later request hits the
      unique index, and no short URL can be created any more. */
  lemma WrittenPlaceholderJams(s: System, body: Body, parseIso: string -> Option<int>, env: Env)
    requires Valid(s.db) && HasId(s.db.urls, 112865)
    ensures !ShortenAsWritten(s, body, parseIso, env).0.Created?
  {
    var j :| 0 <= j < |s.db.urls| && s.db.urls[j].id == 112865;
    PlaceholderCollides();
    assert s.db.urls[j].shortCode == WrittenPlaceholder;
  }

  /** No short code of a valid store is the safe placeholder. */
  lemma SafePlaceholderFree(d: Db)
    requires Valid(d)
    ensures !CodeTaken(d.urls, SafePlaceholder)
  {
    forall j | 0 <= j < |d.urls|
      ensures d.urls[j].shortCode != SafePlaceholder
    {
      var e := Encode(d.urls[j].id);
      assert IsDigit(e[0]);
    }
  }

  /** A URL the validator rejects is answered with 400 and the
      validator's message, and nothing is written. */
  lemma ShortenRejects(s: System, fields: map<string, Json>, u: string, parseIso: string -> Option<int>, env: Env)
    requires "url" in fields && fields["url"] == JString(u)
    requires ValidateUrl(Some(Strip(u))).Rejected?
    ensures Shorten(s, Object(fields), parseIso, env)
            == (ClientError(400, InvalidUrl(ValidateUrl(Some(Strip(u))).reason)), s)
  {
    ShortenReachesUrl(SafePlaceholder, s, fields, u, parseIso, env);
  }

  /** A string `url` member takes the handler to the validation step with
      the stripped URL. */
  lemma ShortenReachesUrl(placeholder: string, s: System, fields: map<string, Json>, u: string,
                          parseIso: string -> Option<int>, env: Env)
    requires "url" in fields && fields["url"] == JString(u)
    ensures ShortenWith(placeholder, s, Object(fields), parseIso, env)
            == ShortenUrl(placeholder, s, fields, Strip(u), parseIso, env)
  {
    var r := ShortenWith(placeholder, s, Object(fields), parseIso, env);
    assert fields != map[];
    assert RequestedUrl(fields) == Some(Strip(u));
    assert r == ShortenUrl(placeholder, s, fields, RequestedUrl(fields).value, parseIso, env);
  }

  /** The API script's second request, and every request like it: a URL
      with no colon and no bracket, non-empty and short enough after
      stripping, is refused with the scheme message. */
  lemma ColonFreeRefused(s: System, fields: map<string, Json>, u: string, parseIso: string -> Option<int>, env: Env)
    requires "url" in fields && fields["url"] == JString(u)
    requires 0 < |Strip(u)| <= MaxUrlLength
    requires forall i :: 0 <= i < |u| ==> u[i] != ':' && u[i] != '[' && u[i] != ']'
    ensures Shorten(s, Object(fields), parseIso, env) == (ClientError(400, InvalidUrl(BadScheme)), s)
  {
    StripKeepsAbsent(u);
    ColonFreeRejected(Strip(u));
    ShortenRejects(s, fields, u, parseIso, env);
  }

  /** With the safe placeholder, a request with an acceptable URL and a
      usable expiry creates the next row, for every id whose code fits
      the column. */
  lemma ShortenCreates(s: System, fields: map<string, Json>, u: string, parseIso: string -> Option<int>, env: Env)
    requires Valid(s.db) && s.db.nextUrlId < Pow(Base, MaxCodeLength)
    requires "url" in fields && fields["url"] == JString(u)
    requires ValidateUrl(Some(Strip(u))) == Accepted
    requires ExpiryUsable(RequestedExpiry(fields, parseIso))
    ensures var r := Shorten(s, Object(fields), parseIso, env);
            && r.0.Created?
            && r.0.view.shortCode == Encode(s.db.nextUrlId)
            && r.0.view.originalUrl == Strip(u)
            && r.0.view.expiresAt == ExpiryValue(RequestedExpiry(fields, parseIso))
  {
    CodeFitsColumn(s.db.nextUrlId);
    SafePlaceholderFree(s.db);
    FreshCodeUnused(s.db);
    assert CanPersist(SafePlaceholder, s.db);
    assert RequestedUrl(fields) == Some(Strip(u));
  }

  // ---------------------------------------------------------------------
  // Request sequences
  // ---------------------------------------------------------------------

  /** The system after the next row is inserted and its URL cached. */
  function AfterInsert(s: System, url: string, now: int, exp: Option<int>, fails: bool): (s': System)
    ensures |s'.db.urls| == |s.db.urls| + 1
    ensures s'.db.urls[|s.db.urls|] == NewUrl(s.db.nextUrlId, Encode(s.db.nextUrlId), url, now, exp)
  {
    var code := Encode(s.db.nextUrlId);
    System(Insert(s.db, code, url, now, exp), Cache.Set(s.cache, code, url, fails))
  }

  /** The appended row is the one its code finds, and the cache either
      misses the code or maps it to the row's URL, even when the
      write-through failed. */
  lemma InsertedIsReachable(s: System, url: string, now: int, exp: Option<int>, fails: bool, readFails: bool)
    requires Consistent(s)
    ensures var s' := AfterInsert(s, url, now, exp, fails);
            var code := Encode(s.db.nextUrlId);
            && FindActive(s'.db.urls, code) == Some(|s.db.urls|)
            && (Cache.Get(s'.cache, code, readFails).None? || Cache.Get(s'.cache, code, readFails) == Some(url))
  {
    var s' := AfterInsert(s, url, now, exp, fails);
    var code := Encode(s.db.nextUrlId);
    InsertPreserves(s, url, now, exp, fails);
    FreshCodeUnused(s.db);
    var n := |s.db.urls|;
    assert s'.db.urls[n].shortCode == code && s'.db.urls[n].isActive;
    FindActiveUnique(s'.db, code, n);
  }

  /** Following the code of an active, unclicked, unexpired row that the
      cache either misses or maps to the row's URL redirects to that URL
      and counts one click. */
  lemma RedirectFreshRow(s: System, n: nat, code: string, c: Client, env: Env)
    requires Consistent(s)
    requires FindActive(s.db.urls, code) == Some(n)
    requires s.db.urls[n].clickCount == 0 && !HasExpired(s.db.urls[n], env.now)
    requires var cached := Cache.Get(s.cache, code, env.faults.read);
             cached.None? || cached == Some(s.db.urls[n].originalUrl)
    ensures var r := RedirectShortUrl(s, code, c, env);
            && r.0 == Redirect(s.db.urls[n].originalUrl)
            && |r.1.db.urls| == |s.db.urls|
            && r.1.db.urls[n].clickCount == 1
            && |r.1.db.clicks| == |s.db.clicks| + 1
            && Consistent(r.1)
  {
    RedirectPreserves(s, code, c, env);
    RedirectCountsRow(s, n, code, c, env);
    var d' := CountClick(s.db, n, c, env.now);
    assert d'.urls[n].clickCount == 1;
  }

  /** Hit or miss, following the code of an active, unexpired row whose
      cached URL, if any, is its own redirects there and counts the click
      on that row. */
  lemma RedirectCountsRow(s: System, n: nat, code: string, c: Client, env: Env)
    requires Consistent(s)
    requires FindActive(s.db.urls, code) == Some(n)
    requires !HasExpired(s.db.urls[n], env.now)
    requires var cached := Cache.Get(s.cache, code, env.faults.read);
             cached.None? || cached == Some(s.db.urls[n].originalUrl)
    ensures var r := RedirectShortUrl(s, code, c, env);
            r.0 == Redirect(s.db.urls[n].originalUrl) && r.1.db == CountClick(s.db, n, c, env.now)
  {
    var cached := Cache.Get(s.cache, code, env.faults.read);
    if cached.Some? && cached.value != [] {
      assert RedirectShortUrl(s, code, c, env).1.db == LogClickAndIncrement(s.db, code, c, env.now);
    }
  }

  /** Creating a row and then following its code redirects to its URL and
      counts one click, whichever cache calls fail, as long as the link
      has not expired. */
  lemma RedirectAfterInsert(s: System, url: string, now: int, exp: Option<int>, fails: bool, c: Client, env: Env)
    requires Consistent(s)
    requires !(exp.Some? && exp.value < env.now)
    ensures var s' := AfterInsert(s, url, now, exp, fails);
            var r := RedirectShortUrl(s', Encode(s.db.nextUrlId), c, env);
            && r.0 == Redirect(url)
            && |r.1.db.urls| == |s.db.urls| + 1
            && r.1.db.urls[|s.db.urls|].clickCount == 1
  {
    var s' := AfterInsert(s, url, now, exp, fails);
    InsertPreserves(s, url, now, exp, fails);
    InsertedIsReachable(s, url, now, exp, fails, env.faults.read);
    RedirectFreshRow(s', |s.db.urls|, Encode(s.db.nextUrlId), c, env);
  }

  /** Shortening a URL and then following the new code redirects to the
      URL and counts its first click, unless the link has expired. */
  lemma ShortenThenRedirect(s: System, body: Body, parseIso: string -> Option<int>, env: Env, c: Client, env2: Env)
    requires Consistent(s)
    requires Shorten(s, body, parseIso, env).0.Created?
    requires var v := Shorten(s, body, parseIso, env).0.view;
             !(v.expiresAt.Some? && v.expiresAt.value < env2.now)
    ensures var r := Shorten(s, body, parseIso, env);
            var r2 := RedirectShortUrl(r.1, r.0.view.shortCode, c, env2);
            && r2.0 == Redirect(r.0.view.originalUrl)
            && |r2.1.db.urls| == |s.db.urls| + 1
            && r2.1.db.urls[|s.db.urls|].clickCount == 1
  {
    var r := Shorten(s, body, parseIso, env);
    var v := r.0.view;
    assert Inserted(s, r, env);
    assert r.1 == AfterInsert(s, v.originalUrl, env.now, v.expiresAt, env.faults.write);
    RedirectAfterInsert(s, v.originalUrl, env.now, v.expiresAt, env.faults.write, c, env2);
  }

  /** After a delete the code is gone from the info and analytics routes,
      and, unless dropping the cache entry failed, from the redirect too. */
  lemma DeleteThenGone(s: System, code: string, env: Env, env2: Env, c: Client, args: PageArgs)
    requires Valid(s.db)
    requires DeleteUrl(s, code, env).0 == NoContent
    ensures var s' := DeleteUrl(s, code, env).1;
            && GetUrlInfo(s', code, env2) == ClientError(404, NotFound)
            && GetAnalytics(s', code, args, env2) == ClientError(404, NotFound)
            && (!env.faults.write ==> RedirectShortUrl(s', code, c, env2) == (ClientError(404, NotFound), s'))
  {
    NoActiveAfterDeactivate(s.db, code, FindActive(s.db.urls, code).value);
  }

  /** When dropping the cache entry fails, a deleted code keeps
      redirecting from the cache, and its clicks are no longer counted. */
  lemma StaleAfterFailedDelete(s: System, code: string, env: Env, env2: Env, c: Client)
    requires Valid(s.db)
    requires env.faults.write && !env2.faults.read
    requires Cache.Key(code) in s.cache && s.cache[Cache.Key(code)].url != []
    requires DeleteUrl(s, code, env).0 == NoContent
    ensures var s' := DeleteUrl(s, code, env).1;
            RedirectShortUrl(s', code, c, env2) == (Redirect(s.cache[Cache.Key(code)].url), s')
  {
    NoActiveAfterDeactivate(s.db, code, FindActive(s.db.urls, code).value);
  }

  /** Once a redirect has reported a code as expired, and its cache entry
      was dropped, the next redirect reports it as unknown. */
  lemma ExpiredThenNotFound(s: System, code: string, c: Client, env: Env, c2: Client, env2: Env)
    requires Valid(s.db) && !env.faults.write
    requires RedirectShortUrl(s, code, c, env).0 == ClientError(404, Expired)
    ensures var s' := RedirectShortUrl(s, code, c, env).1;
            RedirectShortUrl(s', code, c2, env2) == (ClientError(404, NotFound), s')
  {
    var i := FindActive(s.db.urls, code).value;
    var s' := System(Deactivate(s.db, i), Cache.Invalidate(s.cache, code, false));
    assert RedirectShortUrl(s, code, c, env).1 == s';
    NoActiveAfterDeactivate(s.db, code, i);
    Cache.GetAfterInvalidate(s.cache, code, env2.faults.read);
    RedirectOnMissUnknown(s', code, c2, env2);
  }
}
