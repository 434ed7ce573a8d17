/**
  The time-to-live store behind `Hosts` (a filesystem cache pool in the
  original), as a map from cache key to the saved value and the second at
  which it expires. The clock is the explicit parameter `now`.
*/
module AddressCache {
  import opened Wrappers

  /** Default lifetime of a saved item, in seconds: 30 days (the comment beside it says 20). */
  const TimeToLive: int := 2592000

  /** A saved item; `value` is `None` when PHP `null` was saved. */
  datatype Entry = Entry(value: Option<string>, expiresAt: int)

  type Store = map<string, Entry>

  /** A key is a hit while its item is stored and the clock is before its expiry. */
  predicate IsHit(store: Store, key: string, now: int) {
    key in store && now < store[key].expiresAt
  }

  /**
    `getItem(key)->get()`: the saved value on a hit, `null` on a miss or
    once the item has expired, even though it was never deleted.
  */
  function Get(store: Store, key: string, now: int): (r: Option<string>)
    ensures !IsHit(store, key, now) ==> r == None
    ensures IsHit(store, key, now) ==> r == store[key].value
  {
    if IsHit(store, key, now) then store[key].value else None
  }

  /**
    `getItem(key)`, `set(value)`, `save(item)`: overwrite the item of `key`
    with `value`, expiring `TimeToLive` seconds after `now`.
  */
  function Save(store: Store, key: string, value: Option<string>, now: int): (r: Store)
    ensures forall t :: now <= t < now + TimeToLive ==> Get(r, key, t) == value
    ensures forall t :: t >= now + TimeToLive ==> Get(r, key, t) == None
    ensures forall k, t :: k != key ==> Get(r, k, t) == Get(store, k, t)
    ensures r.Keys == store.Keys + {key}
  {
    store[key := Entry(value, now + TimeToLive)]
  }

  /** A second save of the same key replaces the first: the store keeps one item per key. */
  lemma SaveOverwrites(store: Store, key: string, v1: Option<string>, t1: int, v2: Option<string>, t2: int)
    ensures Save(Save(store, key, v1, t1), key, v2, t2) == Save(store, key, v2, t2)
  {
  }

  /** An item saved at `saved` is read back at `now` exactly while less than TimeToLive seconds have passed. */
  lemma SavedThenRead(store: Store, key: string, value: Option<string>, saved: int, now: int)
    requires saved <= now
    ensures Get(Save(store, key, value, saved), key, now) == (if now < saved + TimeToLive then value else None)
  {
  }

  /** Once an item has expired it stays absent: a later read also gives `null`, until it is saved again. */
  lemma ExpiryIsPermanent(store: Store, key: string, expired: int, later: int)
    requires !IsHit(store, key, expired) && expired <= later
    ensures Get(store, key, later) == None
  {
  }
}
