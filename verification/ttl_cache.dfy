/**
 The process-wide `MemoryCache.Default` store as an explicit value: a map from
 key to a value with an absolute expiry time. Time is an integer number of
 seconds passed in as `now`; an entry is live strictly before its expiry.
 */
module TtlCache {

  import opened Results

  /** What the controller keeps in the store: raw payload text, or the epic dictionary. */
  datatype Value = Raw(text: string) | Dict(dict: map<string, string>)

  datatype Entry = Entry(value: Value, expiresAt: int)

  type Cache = map<string, Entry>

  const Hour: int := 3600
  const Day: int := 24 * Hour

  /** Expiry periods the controller passes to `Set`. */
  const UserTtl: int := 7 * Day
  const EpicTtl: int := 4 * Hour
  const BoardTtl: int := 15 * Day
  const SprintTtl: int := 4 * Hour

  /** The keys the controller uses. */
  const EpicsKey := "epics"
  const ProjectsKey := "projects"
  const SprintsKey := "sprints"

  function UsersKey(username: string): string {
    "users-" + username
  }

  /** `_cache.Contains(key)`: present and not yet expired. */
  predicate Live(c: Cache, key: string, now: int) {
    key in c && now < c[key].expiresAt
  }

  /** `_cache[key]`: the stored value while the entry is live. */
  function Lookup(c: Cache, key: string, now: int): (r: Option<Value>)
    ensures r.Some? <==> Live(c, key, now)
    ensures r.Some? ==> r.value == c[key].value
  {
    if Live(c, key, now) then Some(c[key].value) else None
  }

  /** `_cache.Set(key, value, now + ttl)`: overwrites unconditionally. */
  function Store(c: Cache, key: string, v: Value, now: int, ttl: int): (r: Cache)
    ensures r.Keys == c.Keys + {key}
    ensures r[key] == Entry(v, now + ttl)
    ensures forall k :: k in c && k != key ==> r[k] == c[k]
  {
    c[key := Entry(v, now + ttl)]
  }

  /** The shape the controller keeps: the epic dictionary under "epics", text everywhere else. */
  predicate WellTyped(c: Cache) {
    forall k | k in c :: c[k].value.Dict? <==> k == EpicsKey
  }

  /** A stored value is read back before its expiry and is gone from the expiry on. */
  lemma LookupAfterStore(c: Cache, key: string, v: Value, now: int, ttl: int, t: int)
    ensures Lookup(Store(c, key, v, now, ttl), key, t) == (if t < now + ttl then Some(v) else None)
  {
  }

  /** Storing under one key leaves every other key as it was. */
  lemma StoreKeepsOthers(c: Cache, key: string, v: Value, now: int, ttl: int, k: string, t: int)
    requires k != key
    ensures Lookup(Store(c, key, v, now, ttl), k, t) == Lookup(c, k, t)
  {
  }

  /** Per-user keys never collide with the fixed keys, so the store stays well-typed. */
  lemma UsersKeyIsFresh(username: string)
    ensures UsersKey(username) != EpicsKey
    ensures UsersKey(username) != ProjectsKey
    ensures UsersKey(username) != SprintsKey
  {
    assert UsersKey(username)[0] == 'u';
    assert EpicsKey[0] == 'e' && ProjectsKey[0] == 'p' && SprintsKey[0] == 's';
  }

  /** Storing text under a key other than "epics" keeps the store well-typed. */
  lemma StoreTextWellTyped(c: Cache, key: string, text: string, now: int, ttl: int)
    requires WellTyped(c) && key != EpicsKey
    ensures WellTyped(Store(c, key, Raw(text), now, ttl))
  {
  }
}
