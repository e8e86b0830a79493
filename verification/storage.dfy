/**
 * `UrlStorage`, the synchronous SQLite variant of the lifecycle: one `urls` table and no
 * cache. Every operation takes the current time `now` instead of reading the clock, and
 * returns the table it leaves behind.
 */
module Storage {
  import opened Records
  import opened JsText

  /** Every key is four UTF-16 code units long, as `saveUrl`, the only writer, checks. */
  predicate PathsValid(t: Table) {
    forall p :: p in t ==> Utf16Length(p) == SHORT_PATH_LENGTH
  }

  datatype SaveError = InvalidLength(length: nat) | PrimaryKeyViolation

  /** What `saveUrl` returns, or the error it throws. */
  datatype SaveResult = Saved(shortPath: string) | SaveFailed(error: SaveError)

  /**
   * `saveUrl`: dedup first, so a live record for `originalUrl` is reused whatever path was
   * supplied; otherwise a path that is not four UTF-16 code units long is refused; otherwise the
   * row is inserted, which fails on any row holding the key, expired or not, because
   * nothing here frees expired paths. A failure leaves the table unchanged.
   */
  method SaveUrl(t: Table, originalUrl: string, shortPath: string, expiration: ExpirationOption, now: int)
    returns (r: SaveResult, t': Table)
    ensures PathsValid(t) && HasLiveRecordFor(t, originalUrl, now) ==>
              r.Saved? && LiveFor(t, r.shortPath, originalUrl, now) && t' == t
    ensures !HasLiveRecordFor(t, originalUrl, now) && Utf16Length(shortPath) != SHORT_PATH_LENGTH ==>
              r == SaveFailed(InvalidLength(Utf16Length(shortPath))) && t' == t
    ensures !HasLiveRecordFor(t, originalUrl, now) && Utf16Length(shortPath) == SHORT_PATH_LENGTH && shortPath in t ==>
              r == SaveFailed(PrimaryKeyViolation) && t' == t
    ensures !HasLiveRecordFor(t, originalUrl, now) && Utf16Length(shortPath) == SHORT_PATH_LENGTH && shortPath !in t ==>
              r == Saved(shortPath) && t' == t[shortPath := Row(originalUrl, now, ExpirationTime(expiration, now))]
    ensures r.SaveFailed? ==> t' == t
    ensures r.Saved? ==> LiveFor(t', r.shortPath, originalUrl, now)
    ensures PathsValid(t) ==> PathsValid(t')
  {
    var existing := FindLiveByUrl(t, originalUrl, now);
    // `if (existingPath)`: an empty path would be falsy and not reused.
    if existing.Some? && existing.value != "" {
      return Saved(existing.value), t;
    }
    if Utf16Length(shortPath) != SHORT_PATH_LENGTH {
      return SaveFailed(InvalidLength(Utf16Length(shortPath))), t;
    }
    var inserted := Insert(t, shortPath, Row(originalUrl, now, ExpirationTime(expiration, now)));
    if inserted.None? {
      return SaveFailed(PrimaryKeyViolation), t;
    }
    return Saved(shortPath), inserted.value;
  }

  /** `getUrl`: the row for the path unless the lazy check finds it expired, in which case
      it is deleted. */
  function GetUrl(t: Table, shortPath: string, now: int): (r: (Option<UrlRecord>, Table))
    ensures r.0.Some? <==> shortPath in t && !IsExpiredAt(t[shortPath].expiresAt, now)
    ensures r.0.Some? ==> r.0.value == RecordAt(t, shortPath) && r.1 == t
    ensures r.0.None? ==> r.1 == t - {shortPath}
  {
    if shortPath !in t then (None, t)
    else if IsExpiredAt(t[shortPath].expiresAt, now) then (None, DeleteUrl(t, shortPath))
    else (Some(RecordAt(t, shortPath)), t)
  }

  /** `urlExists`: whether `getUrl` returns a row, with the same deletion side effect. */
  function UrlExists(t: Table, shortPath: string, now: int): (r: (bool, Table))
    ensures r.0 <==> shortPath in t && !IsExpiredAt(t[shortPath].expiresAt, now)
    ensures r.0 <==> GetUrl(t, shortPath, now).0.Some?
    ensures r.1 == GetUrl(t, shortPath, now).1
  {
    var (record, t') := GetUrl(t, shortPath, now);
    (record.Some?, t')
  }

  /** `deleteUrl`: removes the key if present; nothing else changes. */
  function DeleteUrl(t: Table, shortPath: string): (r: Table)
    ensures shortPath !in r
    ensures forall p :: p != shortPath ==> (p in r <==> p in t)
    ensures forall p :: p in r ==> r[p] == t[p]
  {
    t - {shortPath}
  }

  /** Deleting is idempotent, and deleting an absent key is a no-op. */
  lemma DeleteIdempotent(t: Table, shortPath: string)
    ensures DeleteUrl(DeleteUrl(t, shortPath), shortPath) == DeleteUrl(t, shortPath)
    ensures shortPath !in t ==> DeleteUrl(t, shortPath) == t
  {
  }

  /** The row is kept by `DELETE FROM urls WHERE expiresAt IS NOT NULL AND expiresAt < now`. */
  predicate SurvivesSweep(row: Row, now: int) {
    !(row.expiresAt.Some? && row.expiresAt.value < now)
  }

  /** `cleanupExpiredUrls`: `DELETE FROM urls WHERE expiresAt IS NOT NULL AND expiresAt < now`.
      Exactly the rows with a non-null `expiresAt < now` go; all others stay as they were. */
  function CleanupExpiredUrls(t: Table, now: int): (r: Table)
    ensures forall p :: p in r <==> p in t && SurvivesSweep(t[p], now)
    ensures forall p :: p in r ==> r[p] == t[p]
    ensures PathsValid(t) ==> PathsValid(r)
  {
    map p | p in t && SurvivesSweep(t[p], now) :: t[p]
  }

  /** Apart from a zero `expiresAt`, which the lazy check ignores, the sweep deletes exactly
      the rows `getUrl` would find expired; in particular a row expiring at `now` survives. */
  lemma CleanupMatchesLazyExpiry(t: Table, shortPath: string, now: int)
    requires shortPath in t && t[shortPath].expiresAt != Some(0)
    ensures shortPath !in CleanupExpiredUrls(t, now) <==> GetUrl(t, shortPath, now).0.None?
  {
  }

  /** `purgeAllUrls`: after it nothing resolves. */
  function PurgeAllUrls(t: Table): (r: Table)
    ensures forall p, now :: GetUrl(r, p, now).0.None?
  {
    map[]
  }

  /** The constructor's effect on the table: an optional purge, then one sweep. Every row
      left is one the sweep keeps. */
  function Open(t: Table, purgeOnStart: bool, now: int): (r: Table)
    ensures purgeOnStart ==> r == map[]
    ensures forall p :: p in r ==> p in t && r[p] == t[p]
    ensures forall p :: p in r ==> SurvivesSweep(r[p], now)
    ensures !purgeOnStart ==> forall p :: p in t && SurvivesSweep(t[p], now) ==> p in r
  {
    CleanupExpiredUrls(if purgeOnStart then PurgeAllUrls(t) else t, now)
  }
}
