/**
 * The Redis layer of `app/cache.py` as a map from keys to entries. Every
 * operation takes a flag saying whether the backend fails on this call;
 * a failure is absorbed: a lookup reports a miss, a write or a delete
 * leaves the map as it was. Real-time expiry of entries is not modelled;
 * each entry records the time-to-live it was written with.
 */
module Cache {
  import opened Wrappers

  const Prefix: string := "url:"

  /** Seconds an entry lives unless the caller asks otherwise. */
  const DefaultTtl: nat := 3600

  datatype Entry = Entry(url: string, ttl: nat)

  /** The key space of the backend, `"url:<code>"` to entry. */
  type Store = map<string, Entry>

  const Empty: Store := map[]

  /** `_key`: the code behind the fixed prefix. */
  function Key(code: string): (k: string)
    ensures |k| == |Prefix| + |code|
    ensures k[..|Prefix|] == Prefix && k[|Prefix|..] == code
  {
    Prefix + code
  }

  /** Distinct codes never share a key. */
  lemma KeyInjective(a: string, b: string)
    ensures Key(a) == Key(b) <==> a == b
  {
    if Key(a) == Key(b) {
      assert a == Key(a)[|Prefix|..] == Key(b)[|Prefix|..] == b;
    }
  }

  /** `get_cached_url`: the stored URL, or `None` on a miss or a backend
      failure. */
  function Get(c: Store, code: string, fails: bool): (r: Option<string>)
    ensures fails ==> r.None?
    ensures !fails ==> (r.Some? <==> Key(code) in c)
    ensures r.Some? ==> Key(code) in c && r.value == c[Key(code)].url
  {
    if fails || Key(code) !in c then None else Some(c[Key(code)].url)
  }

  /** `set_cached_url` with an explicit time-to-live. */
  function SetWithTtl(c: Store, code: string, url: string, ttl: nat, fails: bool): (c': Store)
    ensures fails ==> c' == c
    ensures !fails ==> Key(code) in c' && c'[Key(code)] == Entry(url, ttl)
    ensures forall k :: k != Key(code) ==> (k in c' <==> k in c)
    ensures forall k :: k != Key(code) && k in c ==> c'[k] == c[k]
  {
    if fails then c else c[Key(code) := Entry(url, ttl)]
  }

  /** `set_cached_url` with the default time-to-live. */
  function Set(c: Store, code: string, url: string, fails: bool): (c': Store)
    ensures fails ==> c' == c
    ensures !fails ==> Key(code) in c' && c'[Key(code)] == Entry(url, DefaultTtl)
    ensures forall k :: k != Key(code) ==> (k in c' <==> k in c)
    ensures forall k :: k != Key(code) && k in c ==> c'[k] == c[k]
  {
    SetWithTtl(c, code, url, DefaultTtl, fails)
  }

  /** `invalidate_cache`. */
  function Invalidate(c: Store, code: string, fails: bool): (c': Store)
    ensures fails ==> c' == c
    ensures !fails ==> Key(code) !in c'
    ensures forall k :: k != Key(code) ==> (k in c' <==> k in c)
    ensures forall k :: k != Key(code) && k in c ==> c'[k] == c[k]
  {
    if fails then c else c - {Key(code)}
  }

  /** A successful write is read back by the next successful lookup. */
  lemma GetAfterSet(c: Store, code: string, url: string, fails: bool)
    ensures Get(Set(c, code, url, false), code, fails) == if fails then None else Some(url)
  {
  }

  /** After a successful invalidation the code misses. */
  lemma GetAfterInvalidate(c: Store, code: string, fails: bool)
    ensures Get(Invalidate(c, code, false), code, fails) == None
  {
  }

  /** Writing or deleting one code leaves the lookup of every other code
      as it was, whether or not the backend failed. */
  lemma OtherCodesUntouched(c: Store, code: string, other: string, url: string, f1: bool, f2: bool)
    requires other != code
    ensures Get(Set(c, code, url, f1), other, f2) == Get(c, other, f2)
    ensures Get(Invalidate(c, code, f1), other, f2) == Get(c, other, f2)
  {
    KeyInjective(code, other);
  }

  /** A failed write or delete is invisible to every later lookup. */
  lemma FailureIsInvisible(c: Store, code: string, url: string, other: string, f: bool)
    ensures Get(Set(c, code, url, true), other, f) == Get(c, other, f)
    ensures Get(Invalidate(c, code, true), other, f) == Get(c, other, f)
  {
  }
}
