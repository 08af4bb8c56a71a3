/** The Redis side of the listing cache: entries with an absolute expiry time,
    the write done by `salvar_livros_redis` (livrosapi.py:83-85) and the purge
    done by `deletar_livros_redis` (livrosapi.py:87-89). The clock is an
    explicit `now`; the value is kept as is, the JSON encoding being an
    identity on it. */
module ListingCache {
  import opened Wrappers
  import opened CacheKeys

  /** Seconds a listing stays in the cache (the `SETEX … 100`). */
  const Ttl: int := 100

  datatype Entry<V> = Entry(value: V, expiresAt: int)

  /** The key space shared with any other user of the same Redis database. */
  type Cache<V> = map<string, Entry<V>>

  /** `GET key` at time `now`: an entry is visible strictly before its expiry. */
  function Get<V>(c: Cache<V>, key: string, now: int): (r: Option<V>)
    ensures r.Some? <==> key in c && now < c[key].expiresAt
    ensures r.Some? ==> c[key].value == r.value
  {
    if key in c && now < c[key].expiresAt then Some(c[key].value) else None
  }

  /** `salvar_livros_redis`: stores `value` under the listing key of
      `(page, limit)` for `Ttl` seconds, overwriting what was there. */
  function SaveListing<V>(c: Cache<V>, page: int, limit: int, value: V, now: int): (r: Cache<V>)
    ensures r.Keys == c.Keys + {ListingKey(page, limit)}
    ensures forall t :: now <= t < now + Ttl ==> Get(r, ListingKey(page, limit), t) == Some(value)
    ensures forall t :: t >= now + Ttl ==> Get(r, ListingKey(page, limit), t) == None
    ensures forall k :: k in c && k != ListingKey(page, limit) ==> r[k] == c[k]
  {
    c[ListingKey(page, limit) := Entry(value, now + Ttl)]
  }

  /** `deletar_livros_redis`: drops every key matching `livros:page=*` and
      keeps every other key with its value and expiry. */
  function PurgeListings<V>(c: Cache<V>): (r: Cache<V>)
    ensures forall k :: k in r <==> k in c && !IsListingKey(k)
    ensures forall k :: k in r ==> r[k] == c[k]
    ensures (forall k :: k in c ==> !IsListingKey(k)) ==> r == c
  {
    map k | k in c && !IsListingKey(k) :: c[k]
  }

  /** After a purge no listing can be read, for any pagination and at any time. */
  lemma PurgeHidesEveryListing<V>(c: Cache<V>, page: int, limit: int, now: int)
    ensures Get(PurgeListings(c), ListingKey(page, limit), now) == None
  {
  }

  /** Purging twice is purging once. */
  lemma PurgeIdempotent<V>(c: Cache<V>)
    ensures PurgeListings(PurgeListings(c)) == PurgeListings(c)
  {
  }

  /** A listing written just before a purge leaves no trace after it. */
  lemma PurgeForgetsSave<V>(c: Cache<V>, page: int, limit: int, value: V, now: int)
    ensures PurgeListings(SaveListing(c, page, limit, value, now)) == PurgeListings(c)
  {
  }
}
