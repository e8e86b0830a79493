/**
 * The short-link record, its expiry options, and the durable `urls` table shared by the
 * Cloudflare worker (a D1 database) and the SQLite `UrlStorage` class. `UrlStorage` declares
 * `shortPath` the primary key; the worker does not create its table but relies on a
 * uniqueness constraint on `shortPath`, which the model takes to be that same primary key.
 * So the table is a map from short path to row.
 */
module Records {

  datatype Option<+T> = None | Some(value: T) {
    function GetOr(default: T): T {
      match this
      case Some(v) => v
      case None => default
    }
  }

  /** The expiry choices the worker accepts: `'12h'`, `'7d'` and `'forever'`. */
  datatype ExpirationOption = TwelveHours | SevenDays | Forever

  const SHORT_PATH_LENGTH: nat := 4
  const TWELVE_HOURS_MS: int := 12 * 60 * 60 * 1000
  const SEVEN_DAYS_MS: int := 7 * 24 * 60 * 60 * 1000

  /** A short link as it travels through the system; times are epoch milliseconds and a
      missing `expiresAt` (JSON `null`) means the link never expires. */
  datatype UrlRecord = UrlRecord(shortPath: string, originalUrl: string, createdAt: int, expiresAt: Option<int>)

  /** A row of the `urls` table without its key column. */
  datatype Row = Row(originalUrl: string, createdAt: int, expiresAt: Option<int>) {
    function WithPath(shortPath: string): UrlRecord {
      UrlRecord(shortPath, originalUrl, createdAt, expiresAt)
    }
  }

  type Table = map<string, Row>

  function RecordAt(t: Table, shortPath: string): UrlRecord
    requires shortPath in t
  {
    t[shortPath].WithPath(shortPath)
  }

  function RowOf(r: UrlRecord): Row {
    Row(r.originalUrl, r.createdAt, r.expiresAt)
  }

  /** `getExpirationTime`: the absolute expiry of a link created at `now`. */
  function ExpirationTime(option: ExpirationOption, now: int): (expiresAt: Option<int>)
    ensures expiresAt.None? <==> option == Forever
    ensures option == TwelveHours ==> expiresAt == Some(now + 43_200_000)
    ensures option == SevenDays ==> expiresAt == Some(now + 604_800_000)
    ensures expiresAt.Some? ==> expiresAt.value > now
  {
    match option
    case TwelveHours => Some(now + TWELVE_HOURS_MS)
    case SevenDays => Some(now + SEVEN_DAYS_MS)
    case Forever => None
  }

  /** Reads back which option produced a stored `(createdAt, expiresAt)` pair, if any. */
  function OptionOfLifetime(createdAt: int, expiresAt: Option<int>): Option<ExpirationOption> {
    match expiresAt
    case None => Some(Forever)
    case Some(e) =>
      if e - createdAt == TWELVE_HOURS_MS then Some(TwelveHours)
      else if e - createdAt == SEVEN_DAYS_MS then Some(SevenDays)
      else None
  }

  /** The expiry computed at creation determines the option it came from, and only
      the three option offsets are ever produced. */
  lemma ExpirationTimeRoundTrip(option: ExpirationOption, createdAt: int, expiresAt: Option<int>)
    ensures OptionOfLifetime(createdAt, ExpirationTime(option, createdAt)) == Some(option)
    ensures OptionOfLifetime(createdAt, expiresAt) == Some(option) <==> expiresAt == ExpirationTime(option, createdAt)
  {
  }

  /** The lazy check `expiresAt && now > expiresAt` of both servers. JavaScript treats
      `null` and `0` as false, so a record whose `expiresAt` is 0 never expires lazily. */
  predicate IsExpiredAt(expiresAt: Option<int>, now: int) {
    expiresAt.Some? && expiresAt.value != 0 && now > expiresAt.value
  }

  /** The SQL filter `expiresAt IS NULL OR expiresAt > now` used by the dedup query; the
      worker's sweep deletes exactly the rows that fail it. */
  predicate IsLiveInQuery(expiresAt: Option<int>, now: int) {
    expiresAt.None? || expiresAt.value > now
  }

  /** The two notions of liveness differ only at the boundary `now == expiresAt` and for a
      zero `expiresAt`: such a record still resolves but is excluded by dedup and swept. */
  lemma ExpiryBoundary(expiresAt: Option<int>, now: int)
    ensures IsLiveInQuery(expiresAt, now) ==> !IsExpiredAt(expiresAt, now)
    ensures (!IsExpiredAt(expiresAt, now) && !IsLiveInQuery(expiresAt, now))
            <==> (expiresAt == Some(now) || (expiresAt == Some(0) && now >= 0))
  {
  }

  /** `INSERT INTO urls ...`: fails (`None`) with a primary-key violation when the key is taken. */
  function Insert(t: Table, shortPath: string, row: Row): (r: Option<Table>)
    ensures r.Some? <==> shortPath !in t
    ensures r.Some? ==> shortPath in r.value && r.value[shortPath] == row
    ensures r.Some? ==> r.value.Keys == t.Keys + {shortPath}
    ensures r.Some? ==> forall p :: p in t ==> r.value[p] == t[p]
  {
    if shortPath in t then None else Some(t[shortPath := row])
  }

  /** Deleting the key an insert added gives back the table it was inserted into. */
  lemma InsertThenDelete(t: Table, shortPath: string, row: Row)
    requires shortPath !in t
    ensures Insert(t, shortPath, row).Some?
    ensures Insert(t, shortPath, row).value - {shortPath} == t
  {
  }

  /** Row `shortPath` would be returned by the dedup query for `url` at `now`. */
  predicate LiveFor(t: Table, shortPath: string, url: string, now: int) {
    shortPath in t && t[shortPath].originalUrl == url && IsLiveInQuery(t[shortPath].expiresAt, now)
  }

  predicate HasLiveRecordFor(t: Table, url: string, now: int) {
    exists p :: p in t && LiveFor(t, p, url, now)
  }

  /**
   * `SELECT ... WHERE originalUrl = ? AND (expiresAt IS NULL OR expiresAt > ?) LIMIT 1`.
   * Without an ORDER BY the database may return any matching row, so the row scanned
   * first is an arbitrary choice.
   */
  method FindLiveByUrl(t: Table, url: string, now: int) returns (found: Option<string>)
    ensures found.None? <==> !HasLiveRecordFor(t, url, now)
    ensures found.Some? ==> LiveFor(t, found.value, url, now)
  {
    var remaining := t.Keys;
    while remaining != {}
      invariant remaining <= t.Keys
      invariant forall p :: p in t.Keys - remaining ==> !LiveFor(t, p, url, now)
      decreases remaining
    {
      var p :| p in remaining;
      if LiveFor(t, p, url, now) {
        return Some(p);
      }
      remaining := remaining - {p};
    }
    return None;
  }
}
