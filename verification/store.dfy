/**
 * The durable store behind the routes: the `urls` and `click_logs`
 * tables as sequences in insertion order, with the next value of each
 * auto-increment counter. Every change the routes make is one of four
 * primitives: insert a URL, append a click, bump a click counter,
 * deactivate a URL. Rows are never removed.
 */
module Store {
  import opened Wrappers
  import opened Codec
  import opened Models

  datatype Db = Db(urls: seq<Url>, clicks: seq<ClickLog>, nextUrlId: nat, nextClickId: nat)

  /** An empty database: both auto-increment counters start at one. */
  const Initial: Db := Db([], [], 1, 1)

  /** `Url.query.filter_by(short_code=code, is_active=True).first()`: the
      position of the first active row carrying the code. */
  function FindActive(urls: seq<Url>, code: string): (r: Option<nat>)
    ensures r.Some? ==> r.value < |urls| && urls[r.value].shortCode == code && urls[r.value].isActive
    ensures r.Some? ==> forall j :: 0 <= j < r.value ==> !(urls[j].shortCode == code && urls[j].isActive)
    ensures r.None? <==> forall j :: 0 <= j < |urls| ==> !(urls[j].shortCode == code && urls[j].isActive)
    decreases |urls|
  {
    if |urls| == 0 then None
    else if urls[0].shortCode == code && urls[0].isActive then Some(0)
    else match FindActive(urls[1..], code)
      case None => None
      case Some(i) => Some(i + 1)
  }

  /** Some row, active or not, carries the code: the unique index on
      `short_code` refuses a second one. */
  predicate CodeTaken(urls: seq<Url>, code: string) {
    exists j :: 0 <= j < |urls| && urls[j].shortCode == code
  }

  predicate HasId(urls: seq<Url>, id: nat) {
    exists j :: 0 <= j < |urls| && urls[j].id == id
  }

  /** The clicks of one URL, in insertion order. */
  function ClicksFor(clicks: seq<ClickLog>, urlId: nat): (r: seq<ClickLog>)
    ensures |r| <= |clicks|
    ensures forall k :: 0 <= k < |r| ==> r[k].urlId == urlId && r[k] in clicks
    decreases |clicks|
  {
    if |clicks| == 0 then []
    else
      var rest := ClicksFor(clicks[..|clicks| - 1], urlId);
      var last := clicks[|clicks| - 1];
      if last.urlId == urlId then rest + [last] else rest
  }

  /** Appending a click extends exactly the selection of its own URL. */
  lemma ClicksForSnoc(clicks: seq<ClickLog>, c: ClickLog, urlId: nat)
    ensures ClicksFor(clicks + [c], urlId)
            == if c.urlId == urlId then ClicksFor(clicks, urlId) + [c] else ClicksFor(clicks, urlId)
  {
    assert (clicks + [c])[..|clicks|] == clicks;
  }

  /** Every click of the URL is selected. */
  lemma {:induction false} ClicksForComplete(clicks: seq<ClickLog>, urlId: nat)
    ensures forall c :: c in clicks && c.urlId == urlId ==> c in ClicksFor(clicks, urlId)
    decreases |clicks|
  {
    if |clicks| > 0 {
      var init := clicks[..|clicks| - 1];
      ClicksForComplete(init, urlId);
      assert clicks == init + [clicks[|clicks| - 1]];
    }
  }

  /** Selecting from a concatenation selects from each part and keeps
      them in log order, so `ClicksFor` keeps the log order of the
      clicks it selects. */
  lemma {:induction false} ClicksForAppend(a: seq<ClickLog>, b: seq<ClickLog>, urlId: nat)
    ensures ClicksFor(a + b, urlId) == ClicksFor(a, urlId) + ClicksFor(b, urlId)
    decreases |b|
  {
    if |b| == 0 {
      assert a + b == a;
    } else {
      var b' := b[..|b| - 1];
      var x := b[|b| - 1];
      var own: seq<ClickLog> := if x.urlId == urlId then [x] else [];
      calc {
        ClicksFor(a + b, urlId);
      == { assert a + b == (a + b') + [x]; }
        ClicksFor((a + b') + [x], urlId);
      == { ClicksForSnoc(a + b', x, urlId); }
        ClicksFor(a + b', urlId) + own;
      == { ClicksForAppend(a, b', urlId); }
        ClicksFor(a, urlId) + (ClicksFor(b', urlId) + own);
      == { ClicksForSnoc(b', x, urlId); assert b' + [x] == b; }
        ClicksFor(a, urlId) + ClicksFor(b, urlId);
      }
    }
  }

  /** No click belongs to a URL id that none of the clicks carries. */
  lemma {:induction false} ClicksForAbsent(clicks: seq<ClickLog>, urlId: nat)
    requires forall k :: 0 <= k < |clicks| ==> clicks[k].urlId != urlId
    ensures ClicksFor(clicks, urlId) == []
    decreases |clicks|
  {
    if |clicks| > 0 {
      ClicksForAbsent(clicks[..|clicks| - 1], urlId);
    }
  }

  predicate IdsIncrease(urls: seq<Url>) {
    forall i, j :: 0 <= i < j < |urls| ==> urls[i].id < urls[j].id
  }

  /** Ids are positive and below the next auto-increment value, which
      itself starts at one. */
  predicate IdsBelow(urls: seq<Url>, next: nat) {
    && 0 < next
    && forall i :: 0 <= i < |urls| ==> 0 < urls[i].id < next
  }

  predicate CodesAreNumerals(urls: seq<Url>) {
    forall i :: 0 <= i < |urls| ==> urls[i].shortCode == Encode(urls[i].id)
  }

  predicate CountsMatchLog(urls: seq<Url>, clicks: seq<ClickLog>) {
    forall i :: 0 <= i < |urls| ==> urls[i].clickCount == |ClicksFor(clicks, urls[i].id)|
  }

  predicate ClicksOwned(urls: seq<Url>, clicks: seq<ClickLog>) {
    forall k :: 0 <= k < |clicks| ==> HasId(urls, clicks[k].urlId)
  }

  predicate ClickIdsBelow(clicks: seq<ClickLog>, next: nat) {
    && (forall k :: 0 <= k < |clicks| ==> clicks[k].id < next)
    && (forall k, l :: 0 <= k < l < |clicks| ==> clicks[k].id < clicks[l].id)
  }

  /** What the store guarantees between requests:
      ids increase along the table and stay below the counter, every code
      is the base-62 numeral of its row's id, every click counter equals
      the number of logged clicks of its row, and every click belongs to a
      stored URL and has an id below the click counter. */
  predicate Valid(d: Db) {
    && IdsIncrease(d.urls)
    && IdsBelow(d.urls, d.nextUrlId)
    && CodesAreNumerals(d.urls)
    && CountsMatchLog(d.urls, d.clicks)
    && ClicksOwned(d.urls, d.clicks)
    && ClickIdsBelow(d.clicks, d.nextClickId)
  }

  lemma InitialValid()
    ensures Valid(Initial)
  {
  }

  /** Ids, and therefore codes, are unique in a valid store. */
  lemma UniqueCodes(d: Db, i: nat, j: nat)
    requires Valid(d)
    requires i < |d.urls| && j < |d.urls| && i != j
    ensures d.urls[i].id != d.urls[j].id
    ensures d.urls[i].shortCode != d.urls[j].shortCode
  {
    EncodeInjective(d.urls[i].id, d.urls[j].id);
  }

  /** In a valid store the active row for a code is the only row with
      that code. */
  lemma FindActiveUnique(d: Db, code: string, j: nat)
    requires Valid(d)
    requires FindActive(d.urls, code).Some?
    requires j < |d.urls| && d.urls[j].shortCode == code
    ensures FindActive(d.urls, code) == Some(j)
  {
    var i := FindActive(d.urls, code).value;
    if i != j {
      UniqueCodes(d, i, j);
    }
  }

  /** Inserts a row under the next id. */
  function Insert(d: Db, code: string, original: string, now: int, expiresAt: Option<int>): (d': Db)
    ensures d'.urls == d.urls + [NewUrl(d.nextUrlId, code, original, now, expiresAt)]
    ensures d'.nextUrlId == d.nextUrlId + 1
    ensures d'.clicks == d.clicks && d'.nextClickId == d.nextClickId
  {
    d.(urls := d.urls + [NewUrl(d.nextUrlId, code, original, now, expiresAt)], nextUrlId := d.nextUrlId + 1)
  }

  /** Appends a click under the next click id. */
  function AppendClick(d: Db, urlId: nat, ip: string, agent: string, referer: string, now: int): (d': Db)
    ensures d'.clicks == d.clicks + [ClickLog(d.nextClickId, urlId, ip, agent, referer, now)]
    ensures d'.nextClickId == d.nextClickId + 1
    ensures d'.urls == d.urls && d'.nextUrlId == d.nextUrlId
  {
    d.(clicks := d.clicks + [ClickLog(d.nextClickId, urlId, ip, agent, referer, now)],
       nextClickId := d.nextClickId + 1)
  }

  /** `click_count = click_count + 1` on row `i`. */
  function Increment(d: Db, i: nat): (d': Db)
    requires i < |d.urls|
    ensures |d'.urls| == |d.urls| && d'.urls[i].clickCount == d.urls[i].clickCount + 1
    ensures d'.urls[i] == d.urls[i].(clickCount := d'.urls[i].clickCount)
    ensures forall j :: 0 <= j < |d.urls| && j != i ==> d'.urls[j] == d.urls[j]
    ensures d'.clicks == d.clicks && d'.nextUrlId == d.nextUrlId && d'.nextClickId == d.nextClickId
  {
    d.(urls := d.urls[i := d.urls[i].(clickCount := d.urls[i].clickCount + 1)])
  }

  /** `is_active = False` on row `i`. */
  function Deactivate(d: Db, i: nat): (d': Db)
    requires i < |d.urls|
    ensures |d'.urls| == |d.urls| && !d'.urls[i].isActive
    ensures d'.urls[i] == d.urls[i].(isActive := false)
    ensures forall j :: 0 <= j < |d.urls| && j != i ==> d'.urls[j] == d.urls[j]
    ensures d'.clicks == d.clicks && d'.nextUrlId == d.nextUrlId && d'.nextClickId == d.nextClickId
  {
    d.(urls := d.urls[i := d.urls[i].(isActive := false)])
  }

  /** Two tables with the same rows as far as ids and codes go. */
  predicate SameKeys(urls: seq<Url>, urls': seq<Url>) {
    && |urls'| == |urls|
    && forall j :: 0 <= j < |urls| ==> urls'[j].id == urls[j].id && urls'[j].shortCode == urls[j].shortCode
  }

  /** The invariants about ids and codes only look at ids and codes. */
  lemma KeysKeepIds(urls: seq<Url>, urls': seq<Url>, next: nat)
    requires SameKeys(urls, urls')
    requires IdsIncrease(urls) && IdsBelow(urls, next) && CodesAreNumerals(urls)
    ensures IdsIncrease(urls') && IdsBelow(urls', next) && CodesAreNumerals(urls')
  {
  }

  lemma KeysKeepOwners(urls: seq<Url>, urls': seq<Url>, clicks: seq<ClickLog>)
    requires SameKeys(urls, urls') && ClicksOwned(urls, clicks)
    ensures ClicksOwned(urls', clicks)
  {
    forall k | 0 <= k < |clicks|
      ensures HasId(urls', clicks[k].urlId)
    {
      var j :| 0 <= j < |urls| && urls[j].id == clicks[k].urlId;
      assert urls'[j].id == urls[j].id;
    }
  }

  /** Appending the row of the next id, under its numeral, keeps the
      invariants about ids and codes. */
  lemma AppendRowKeepsIds(urls: seq<Url>, u: Url, next: nat)
    requires IdsIncrease(urls) && IdsBelow(urls, next) && CodesAreNumerals(urls)
    requires u.id == next && u.shortCode == Encode(next)
    ensures IdsIncrease(urls + [u]) && IdsBelow(urls + [u], next + 1) && CodesAreNumerals(urls + [u])
  {
    var urls' := urls + [u];
    assert forall j :: 0 <= j < |urls| ==> urls'[j] == urls[j];
  }

  lemma InsertKeepsOwners(urls: seq<Url>, u: Url, clicks: seq<ClickLog>)
    requires ClicksOwned(urls, clicks)
    ensures ClicksOwned(urls + [u], clicks)
  {
    forall k | 0 <= k < |clicks|
      ensures HasId(urls + [u], clicks[k].urlId)
    {
      var j :| 0 <= j < |urls| && urls[j].id == clicks[k].urlId;
      assert (urls + [u])[j] == urls[j];
    }
  }

  lemma InsertKeepsCounts(d: Db, u: Url)
    requires Valid(d) && u.id == d.nextUrlId && u.clickCount == 0
    ensures CountsMatchLog(d.urls + [u], d.clicks)
  {
    forall k | 0 <= k < |d.clicks|
      ensures d.clicks[k].urlId != u.id
    {
      assert HasId(d.urls, d.clicks[k].urlId);
    }
    ClicksForAbsent(d.clicks, u.id);
    assert forall j :: 0 <= j < |d.urls| ==> (d.urls + [u])[j] == d.urls[j];
  }

  /** Inserting the code of the next id keeps the store valid. */
  lemma InsertValid(d: Db, original: string, now: int, expiresAt: Option<int>)
    requires Valid(d)
    ensures Valid(Insert(d, Encode(d.nextUrlId), original, now, expiresAt))
  {
    var u := NewUrl(d.nextUrlId, Encode(d.nextUrlId), original, now, expiresAt);
    AppendRowKeepsIds(d.urls, u, d.nextUrlId);
    InsertKeepsOwners(d.urls, u, d.clicks);
    InsertKeepsCounts(d, u);
  }

  /** A click on an existing row, under the next click id, keeps the log
      owned and its ids increasing. */
  lemma AppendClickKeepsLog(urls: seq<Url>, clicks: seq<ClickLog>, c: ClickLog, next: nat)
    requires ClicksOwned(urls, clicks) && ClickIdsBelow(clicks, next)
    requires HasId(urls, c.urlId) && c.id == next
    ensures ClicksOwned(urls, clicks + [c]) && ClickIdsBelow(clicks + [c], next + 1)
  {
    var clicks' := clicks + [c];
    assert forall k :: 0 <= k < |clicks| ==> clicks'[k] == clicks[k];
  }

  lemma IncrementSameKeys(d: Db, i: nat)
    requires i < |d.urls|
    ensures SameKeys(d.urls, Increment(d, i).urls)
  {
  }

  lemma DeactivateSameKeys(d: Db, i: nat)
    requires i < |d.urls|
    ensures SameKeys(d.urls, Deactivate(d, i).urls)
  {
  }

  /** Logging a click on row `i` and bumping its counter keeps the store
      valid: the counter and the log grow together. */
  lemma ClickValid(d: Db, i: nat, ip: string, agent: string, referer: string, now: int)
    requires Valid(d) && i < |d.urls|
    ensures Valid(Increment(AppendClick(d, d.urls[i].id, ip, agent, referer, now), i))
  {
    var c := ClickLog(d.nextClickId, d.urls[i].id, ip, agent, referer, now);
    var d1 := AppendClick(d, d.urls[i].id, ip, agent, referer, now);
    var d' := Increment(d1, i);
    assert HasId(d.urls, c.urlId);
    AppendClickKeepsLog(d.urls, d.clicks, c, d.nextClickId);
    IncrementSameKeys(d1, i);
    KeysKeepIds(d.urls, d'.urls, d.nextUrlId);
    KeysKeepOwners(d.urls, d'.urls, d.clicks + [c]);
    ClickKeepsCounts(d, i, ip, agent, referer, now);
  }

  lemma ClickKeepsCounts(d: Db, i: nat, ip: string, agent: string, referer: string, now: int)
    requires Valid(d) && i < |d.urls|
    ensures CountsMatchLog(Increment(AppendClick(d, d.urls[i].id, ip, agent, referer, now), i).urls,
                           d.clicks + [ClickLog(d.nextClickId, d.urls[i].id, ip, agent, referer, now)])
  {
    var c := ClickLog(d.nextClickId, d.urls[i].id, ip, agent, referer, now);
    var d' := Increment(AppendClick(d, d.urls[i].id, ip, agent, referer, now), i);
    forall j | 0 <= j < |d'.urls|
      ensures d'.urls[j].clickCount == |ClicksFor(d.clicks + [c], d'.urls[j].id)|
    {
      ClicksForSnoc(d.clicks, c, d.urls[j].id);
      if j != i {
        UniqueCodes(d, i, j);
      }
    }
  }

  /** Deactivating a row keeps the store valid. */
  lemma DeactivateValid(d: Db, i: nat)
    requires Valid(d) && i < |d.urls|
    ensures Valid(Deactivate(d, i))
  {
    var d' := Deactivate(d, i);
    DeactivateSameKeys(d, i);
    KeysKeepIds(d.urls, d'.urls, d.nextUrlId);
    KeysKeepOwners(d.urls, d'.urls, d.clicks);
    assert forall j :: 0 <= j < |d.urls| ==> d'.urls[j].clickCount == d.urls[j].clickCount;
  }

  /** How a row may change: everything but the counter and the active
      flag is fixed, the counter never decreases, and a deactivated row
      stays deactivated. */
  predicate Persists(u: Url, u': Url) {
    && u'.id == u.id && u'.shortCode == u.shortCode && u'.originalUrl == u.originalUrl
    && u'.createdAt == u.createdAt && u'.expiresAt == u.expiresAt
    && u.clickCount <= u'.clickCount
    && (!u.isActive ==> !u'.isActive)
  }

  /** How the store may change: rows are never removed and only persist,
      the click log only grows at its end, counters never go back. */
  predicate Evolves(d: Db, d': Db) {
    && |d.urls| <= |d'.urls|
    && (forall i :: 0 <= i < |d.urls| ==> Persists(d.urls[i], d'.urls[i]))
    && d.clicks <= d'.clicks
    && d.nextUrlId <= d'.nextUrlId && d.nextClickId <= d'.nextClickId
  }

  lemma EvolvesTransitive(d1: Db, d2: Db, d3: Db)
    requires Evolves(d1, d2) && Evolves(d2, d3)
    ensures Evolves(d1, d3)
  {
    forall i | 0 <= i < |d1.urls|
      ensures Persists(d1.urls[i], d3.urls[i])
    {
      assert Persists(d1.urls[i], d2.urls[i]);
      assert Persists(d2.urls[i], d3.urls[i]);
    }
  }

  /** Each primitive only evolves the store. */
  lemma PrimitivesEvolve(d: Db, i: nat, code: string, original: string, urlId: nat,
                         ip: string, agent: string, referer: string, now: int, expiresAt: Option<int>)
    requires i < |d.urls|
    ensures Evolves(d, Insert(d, code, original, now, expiresAt))
    ensures Evolves(d, AppendClick(d, urlId, ip, agent, referer, now))
    ensures Evolves(d, Increment(d, i))
    ensures Evolves(d, Deactivate(d, i))
  {
    var d' := Insert(d, code, original, now, expiresAt);
    assert forall j :: 0 <= j < |d.urls| ==> d'.urls[j] == d.urls[j];
  }
}
