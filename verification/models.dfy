/**
 * The two tables of `app/models.py` as records, and their `to_dict`
 * serialisers as views. Date-times are integer seconds on one clock; the
 * ISO-8601 text `isoformat()` would produce is not modelled, the view
 * carries the instant itself.
 */
module Models {
  import opened Wrappers

  /** Width of the `short_code` column. */
  const MaxCodeLength: nat := 10

  /** A row of `urls`. `createdAt` is filled in when the row is inserted. */
  datatype Url = Url(
    id: nat,
    shortCode: string,
    originalUrl: string,
    createdAt: Option<int>,
    expiresAt: Option<int>,
    isActive: bool,
    clickCount: nat)

  /** A row of `click_logs`. `clicked_at` is a non-null column, so a
      stored click always has its time. */
  datatype ClickLog = ClickLog(
    id: nat,
    urlId: nat,
    ipAddress: string,
    userAgent: string,
    referer: string,
    clickedAt: int)

  /** A freshly inserted `Url`: the column defaults make it active and
      unclicked, and stamp it with the insertion time. */
  function NewUrl(id: nat, code: string, original: string, now: int, expiresAt: Option<int>): (u: Url)
    ensures u.isActive && u.clickCount == 0
    ensures u.createdAt == Some(now)
    ensures u.id == id && u.shortCode == code && u.originalUrl == original && u.expiresAt == expiresAt
  {
    Url(id, code, original, Some(now), expiresAt, true, 0)
  }

  /** The `short_url` field: the code under the base URL when one is
      configured, the bare code otherwise. */
  function ShortUrl(base: string, code: string): (r: string)
    ensures base == [] ==> r == code
    ensures base != [] ==> |r| == |base| + 1 + |code| && r[..|base|] == base && r[|base|] == '/'
    ensures r[|r| - |code|..] == code
  {
    if base == [] then code else base + "/" + code
  }

  /** Under one base URL, distinct codes give distinct short URLs. */
  lemma ShortUrlInjective(base: string, a: string, b: string)
    ensures ShortUrl(base, a) == ShortUrl(base, b) <==> a == b
  {
    if ShortUrl(base, a) == ShortUrl(base, b) && base != [] {
      var r := ShortUrl(base, a);
      assert |a| == |b|;
      assert a == r[|r| - |a|..] == b;
    }
  }

  /** The dictionary `Url.to_dict` builds. */
  datatype UrlView = UrlView(
    id: nat,
    shortCode: string,
    shortUrl: string,
    originalUrl: string,
    createdAt: Option<int>,
    expiresAt: Option<int>,
    isActive: bool,
    clickCount: nat)

  /** `Url.to_dict(base_url)`. */
  function ToDict(u: Url, base: string): (v: UrlView)
    ensures v.id == u.id && v.shortCode == u.shortCode && v.originalUrl == u.originalUrl
    ensures v.isActive == u.isActive && v.clickCount == u.clickCount
    ensures v.createdAt == u.createdAt && v.expiresAt == u.expiresAt
  {
    UrlView(u.id, u.shortCode, ShortUrl(base, u.shortCode), u.originalUrl,
            u.createdAt, u.expiresAt, u.isActive, u.clickCount)
  }

  /** Reads a record back from its view. */
  function FromDict(v: UrlView): Url {
    Url(v.id, v.shortCode, v.originalUrl, v.createdAt, v.expiresAt, v.isActive, v.clickCount)
  }

  /** The view loses nothing: the record is recovered from it, and the
      short URL is determined by the base URL and the code. */
  lemma ToDictLossless(u: Url, base: string)
    ensures FromDict(ToDict(u, base)) == u
    ensures ToDict(FromDict(ToDict(u, base)), base) == ToDict(u, base)
    ensures ToDict(u, base).shortUrl == ShortUrl(base, u.shortCode)
  {
  }

  /** The dictionary `ClickLog.to_dict` builds: the owning URL is not
      part of it. */
  datatype ClickView = ClickView(
    id: nat,
    ipAddress: string,
    userAgent: string,
    referer: string,
    clickedAt: int)

  /** `ClickLog.to_dict`. */
  function ClickToDict(c: ClickLog): (v: ClickView)
    ensures v.id == c.id && v.ipAddress == c.ipAddress && v.userAgent == c.userAgent
    ensures v.referer == c.referer && v.clickedAt == c.clickedAt
  {
    ClickView(c.id, c.ipAddress, c.userAgent, c.referer, c.clickedAt)
  }

  /** Reads a click back from its view and the id of its URL. */
  function ClickFromDict(v: ClickView, urlId: nat): ClickLog {
    ClickLog(v.id, urlId, v.ipAddress, v.userAgent, v.referer, v.clickedAt)
  }

  /** The click view keeps everything but the owning URL. */
  lemma ClickToDictLossless(c: ClickLog)
    ensures ClickFromDict(ClickToDict(c), c.urlId) == c
  {
  }
}
