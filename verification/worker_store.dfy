/**
 * The record lifecycle of the Cloudflare worker over its two stores: the D1 `urls` table
 * (the source of truth) and the KV cache in front of it, keyed by short path. Both stores are
 * immutable maps, every operation takes the request time `now` and returns the new stores.
 * The KV store may drop an entry at any time; the model represents a dropped entry as a
 * missing key, so every reading operation handles the miss.
 */
module WorkerStore {
  import opened Records

  /** What KV holds under `short:<shortPath>`: the JSON snapshot of the record and the
      `expirationTtl` in seconds it was written with, if any. */
  datatype CacheEntry = CacheEntry(record: UrlRecord, ttlSeconds: Option<int>)

  type Cache = map<string, CacheEntry>

  datatype Stores = Stores(table: Table, cache: Cache)

  /** Every cached snapshot sits under its own short path and, while the table still holds
      that key, is the table's record. (After a sweep the table may have lost a key whose
      snapshot is still cached.) */
  predicate Coherent(s: Stores) {
    forall p :: p in s.cache ==>
      && s.cache[p].record.shortPath == p
      && (p in s.table ==> s.cache[p].record == RecordAt(s.table, p))
  }

  function Max(a: int, b: int): int {
    if a < b then b else a
  }

  /**
   * The `expirationTtl` of `putInCache`: none for a record that never expires (or whose
   * `expiresAt` is the falsy 0); otherwise the whole seconds left before the record expires,
   * but at least one. So the entry never outlives a record with a second or more left, and
   * outlives any other unexpired record by at most one second.
   */
  function CacheTtl(record: UrlRecord, now: int): (ttl: Option<int>)
    ensures ttl.None? <==> record.expiresAt.None? || record.expiresAt.value == 0
    ensures ttl.Some? ==> ttl.value >= 1
    ensures ttl.Some? ==>
              ttl.value * 1000 <= Max(record.expiresAt.value - now, 1000) < ttl.value * 1000 + 1000
    ensures ttl.Some? && record.expiresAt.value - now >= 1000 ==>
              now + ttl.value * 1000 <= record.expiresAt.value
    ensures ttl.Some? && record.expiresAt.value >= now ==>
              now + ttl.value * 1000 <= record.expiresAt.value + 1000
  {
    if record.expiresAt.Some? && record.expiresAt.value != 0 then
      Some(Max((record.expiresAt.value - now) / 1000, 1))
    else
      None
  }

  /** `putInCache`: write the record's snapshot, with its TTL, under its short path; every
      other entry stays as it was. */
  function PutInCache(cache: Cache, record: UrlRecord, now: int): (r: Cache)
    ensures r.Keys == cache.Keys + {record.shortPath}
    ensures r[record.shortPath].record == record
    ensures r[record.shortPath].ttlSeconds == CacheTtl(record, now)
    ensures forall p :: p in cache && p != record.shortPath ==> r[p] == cache[p]
  {
    cache[record.shortPath := CacheEntry(record, CacheTtl(record, now))]
  }

  /** Caching a record that sits under its own path and agrees with the table keeps the
      stores coherent. */
  lemma PutInCacheKeepsCoherent(s: Stores, record: UrlRecord, now: int)
    requires Coherent(s)
    requires record.shortPath in s.table ==> record == RecordAt(s.table, record.shortPath)
    ensures Coherent(Stores(s.table, PutInCache(s.cache, record, now)))
  {
  }

  /** `removeUrl`: delete the key from the table, then from the cache; nothing else changes. */
  function RemoveUrl(s: Stores, shortPath: string): (r: Stores)
    ensures shortPath !in r.table && shortPath !in r.cache
    ensures forall p :: p != shortPath ==> (p in r.table <==> p in s.table) && (p in r.cache <==> p in s.cache)
    ensures forall p :: p in r.table ==> r.table[p] == s.table[p]
    ensures forall p :: p in r.cache ==> r.cache[p] == s.cache[p]
    ensures Coherent(s) ==> Coherent(r)
  {
    Stores(s.table - {shortPath}, s.cache - {shortPath})
  }

  /** `cleanupExpiredUrls`: `DELETE FROM urls WHERE expiresAt IS NOT NULL AND expiresAt <= now`.
      Exactly the rows with a non-null `expiresAt <= now` go; the cache is not touched. */
  function CleanupExpiredUrls(s: Stores, now: int): (r: Stores)
    ensures r.cache == s.cache
    ensures forall p :: p in r.table <==>
              p in s.table && !(s.table[p].expiresAt.Some? && s.table[p].expiresAt.value <= now)
    ensures forall p :: p in r.table ==> r.table[p] == s.table[p]
    ensures Coherent(s) ==> Coherent(r)
  {
    Stores(map p | p in s.table && IsLiveInQuery(s.table[p].expiresAt, now) :: s.table[p], s.cache)
  }

  /** Sweeping twice at the same instant deletes nothing more. */
  lemma CleanupIdempotent(s: Stores, now: int)
    ensures CleanupExpiredUrls(CleanupExpiredUrls(s, now), now) == CleanupExpiredUrls(s, now)
  {
  }

  datatype Availability = Available | Taken

  /**
   * `ensureShortPathAvailable`: a free path is available and nothing changes; a path held
   * by an expired record is freed by deleting it from both stores; a path held by a live
   * record is `Taken` (the source's `SHORT_PATH_TAKEN` error) and nothing changes.
   */
  function EnsureShortPathAvailable(s: Stores, shortPath: string, now: int): (r: (Availability, Stores))
    ensures shortPath !in s.table ==> r == (Available, s)
    ensures shortPath in s.table && IsExpiredAt(s.table[shortPath].expiresAt, now) ==>
              r.0 == Available && r.1 == RemoveUrl(s, shortPath)
    ensures shortPath in s.table && !IsExpiredAt(s.table[shortPath].expiresAt, now) ==> r == (Taken, s)
    ensures r.0 == Available ==> shortPath !in r.1.table
    ensures Coherent(s) ==> Coherent(r.1)
  {
    if shortPath !in s.table then (Available, s)
    else if IsExpiredAt(s.table[shortPath].expiresAt, now) then (Available, RemoveUrl(s, shortPath))
    else (Taken, s)
  }

  /**
   * `findExistingUrl`: a record for `url` that the dedup query considers live, if there is
   * one; a found record is also written into the cache.
   */
  method FindExistingUrl(s: Stores, url: string, now: int) returns (found: Option<UrlRecord>, s': Stores)
    ensures found.None? <==> !HasLiveRecordFor(s.table, url, now)
    ensures found.None? ==> s' == s
    ensures found.Some? ==>
              && LiveFor(s.table, found.value.shortPath, url, now)
              && found.value == RecordAt(s.table, found.value.shortPath)
              && s' == Stores(s.table, PutInCache(s.cache, found.value, now))
    ensures Coherent(s) ==> Coherent(s')
  {
    var key := FindLiveByUrl(s.table, url, now);
    if key.None? {
      return None, s;
    }
    var record := RecordAt(s.table, key.value);
    found := Some(record);
    s' := Stores(s.table, PutInCache(s.cache, record, now));
  }

  /**
   * `getUrlRecord`: the cache first, then the table. An expired hit in either store is
   * deleted from both and reported absent; a live table hit is written back into the cache.
   * The result is never a record that has expired by the lazy check.
   */
  function GetUrlRecord(s: Stores, shortPath: string, now: int): (r: (Option<UrlRecord>, Stores))
    ensures r.0.Some? ==> !IsExpiredAt(r.0.value.expiresAt, now)
    ensures shortPath in s.cache ==>
              (r.0.None? <==> IsExpiredAt(s.cache[shortPath].record.expiresAt, now))
              && (r.0.Some? ==> r.0.value == s.cache[shortPath].record && r.1 == s)
    ensures shortPath !in s.cache ==>
              (r.0.None? <==> shortPath !in s.table || IsExpiredAt(s.table[shortPath].expiresAt, now))
              && (r.0.Some? ==> r.0.value == RecordAt(s.table, shortPath)
                                && r.1 == Stores(s.table, PutInCache(s.cache, r.0.value, now)))
    ensures r.0.None? ==> r.1 == Stores(s.table - {shortPath}, s.cache - {shortPath})
    ensures Coherent(s) ==> Coherent(r.1)
    ensures Coherent(s) && r.0.Some? ==>
              r.0.value.shortPath == shortPath
              && (shortPath in s.table ==> r.0.value == RecordAt(s.table, shortPath))
  {
    if shortPath in s.cache then
      var cached := s.cache[shortPath].record;
      if IsExpiredAt(cached.expiresAt, now) then (None, RemoveUrl(s, shortPath))
      else (Some(cached), s)
    else if shortPath !in s.table then
      (None, s)
    else
      var record := RecordAt(s.table, shortPath);
      if IsExpiredAt(record.expiresAt, now) then (None, RemoveUrl(s, shortPath))
      else (Some(record), Stores(s.table, PutInCache(s.cache, record, now)))
  }

  /** A cold cache gives the same answer: while the table holds the key, resolving with the
      cached entry dropped returns the same record and leaves the same table. */
  lemma ColdCacheAgrees(s: Stores, shortPath: string, now: int)
    requires Coherent(s) && shortPath in s.table
    ensures var cold := Stores(s.table, s.cache - {shortPath});
            && GetUrlRecord(cold, shortPath, now).0 == GetUrlRecord(s, shortPath, now).0
            && GetUrlRecord(cold, shortPath, now).1.table == GetUrlRecord(s, shortPath, now).1.table
  {
  }

  /** A record created at a non-negative time with an expiry option resolves exactly until
      its expiry instant inclusive; one created with `Forever` resolves at every time. */
  lemma ResolveRespectsLifetime(s: Stores, shortPath: string, option: ExpirationOption, createdAt: int, now: int)
    requires Coherent(s) && shortPath in s.table
    requires createdAt >= 0
    requires s.table[shortPath].createdAt == createdAt
    requires s.table[shortPath].expiresAt == ExpirationTime(option, createdAt)
    ensures GetUrlRecord(s, shortPath, now).0.Some? <==>
              match option
              case Forever => true
              case TwelveHours => now <= createdAt + 43_200_000
              case SevenDays => now <= createdAt + 604_800_000
  {
  }

  /** At the instant `now == expiresAt` a record still resolves, but the dedup query no longer
      finds it and the sweep deletes it. */
  lemma ExpiryInstant(s: Stores, shortPath: string, now: int)
    requires Coherent(s) && shortPath in s.table
    requires s.table[shortPath].expiresAt == Some(now)
    ensures GetUrlRecord(s, shortPath, now).0 == Some(RecordAt(s.table, shortPath))
    ensures !LiveFor(s.table, shortPath, s.table[shortPath].originalUrl, now)
    ensures shortPath !in CleanupExpiredUrls(s, now).table
  {
  }
}
