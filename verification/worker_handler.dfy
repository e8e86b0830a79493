/**
 * The decisions the worker's request handler makes on top of the store lifecycle: the two
 * ways to create a link (`POST /api/share-links` with a random path, `POST /api/urls` with a
 * caller-supplied path), the existence check, the JSON lookup and the redirect. Only the
 * outcome of each branch is modelled, not the HTTP framing; `now` is the request time,
 * `parseUrl` stands for the `URL` constructor and `draws` for the random words
 * `crypto.getRandomValues` fills in, one sequence per attempt.
 */
module WorkerHandler {
  import opened Records
  import opened JsText
  import opened WorkerStore

  const CHARSET_SIZE: nat := 36
  const MAX_SHARE_ATTEMPTS: nat := 6

  predicate IsCharsetChar(c: char) {
    ('a' <= c <= 'z') || ('0' <= c <= '9')
  }

  /** The position of `c` in `'abcdefghijklmnopqrstuvwxyz0123456789'`. */
  function CharsetIndex(c: char): (d: nat)
    requires IsCharsetChar(c)
    ensures d < CHARSET_SIZE
  {
    if 'a' <= c <= 'z' then c as int - 'a' as int else c as int - '0' as int + 26
  }

  /** `SHORT_PATH_CHARSET[d]`. */
  function CharsetChar(d: nat): (c: char)
    requires d < CHARSET_SIZE
    ensures IsCharsetChar(c) && CharsetIndex(c) == d
  {
    if d < 26 then ('a' as int + d) as char else ('0' as int + (d - 26)) as char
  }

  /** `generateRandomShortPath`: one character per random word, the word modulo 36
      selecting it from the lowercase-and-digits alphabet. */
  function GenerateRandomShortPath(randomValues: seq<nat>): (candidate: string)
    ensures |candidate| == |randomValues|
    ensures forall k :: 0 <= k < |candidate| ==>
              IsCharsetChar(candidate[k]) && CharsetIndex(candidate[k]) == randomValues[k] % CHARSET_SIZE
  {
    seq(|randomValues|, k requires 0 <= k < |randomValues| => CharsetChar(randomValues[k] % CHARSET_SIZE))
  }

  function ExpirationName(option: ExpirationOption): string {
    match option
    case TwelveHours => "12h"
    case SevenDays => "7d"
    case Forever => "forever"
  }

  /** `isExpirationOption` on the request's `expiration` field (`None` when it is missing or
      not a string): the option whose name it is, if any. */
  function ParseExpiration(raw: Option<string>): (option: Option<ExpirationOption>)
    ensures option.Some? <==> raw.Some? && raw.value in {"12h", "7d", "forever"}
    ensures option.Some? ==> raw.value == ExpirationName(option.value)
  {
    if raw == Some("12h") then Some(TwelveHours)
    else if raw == Some("7d") then Some(SevenDays)
    else if raw == Some("forever") then Some(Forever)
    else None
  }

  lemma ExpirationNameRoundTrip(option: ExpirationOption)
    ensures ParseExpiration(Some(ExpirationName(option))) == Some(option)
  {
  }

  /** A trimmed string field of the request body, or `""` when the field is absent. */
  function TrimmedField(field: Option<string>): string {
    if field.Some? then Trim(field.value) else ""
  }

  /** The path is held by a record the lazy check does not consider expired. */
  predicate Occupied(s: Stores, shortPath: string, now: int) {
    shortPath in s.table && !IsExpiredAt(s.table[shortPath].expiresAt, now)
  }

  /** What the write step of both create handlers does with a path. */
  datatype Claim = PathTaken | InsertRejected | Claimed

  /**
   * The write step of both create handlers: `ensureShortPathAvailable`, then the `INSERT`,
   * then `putInCache`. A path held by a live record is taken and nothing changes; otherwise
   * an expired occupant is deleted from both stores and the record is inserted and cached.
   * The insert's uniqueness error cannot follow a successful availability check here.
   */
  function ClaimPath(s: Stores, record: UrlRecord, now: int): (r: (Claim, Stores))
    ensures r.0 == PathTaken <==> Occupied(s, record.shortPath, now)
    ensures r.0 == PathTaken ==> r.1 == s
    ensures r.0 != InsertRejected
    ensures r.0 == Claimed ==>
              && r.1.table == s.table[record.shortPath := RowOf(record)]
              && r.1.cache == PutInCache(s.cache, record, now)
    ensures Coherent(s) ==> Coherent(r.1)
  {
    var (availability, s2) := EnsureShortPathAvailable(s, record.shortPath, now);
    var inserted := Insert(s2.table, record.shortPath, RowOf(record));
    if availability == Taken || inserted.None? then
      (if availability == Taken then PathTaken else InsertRejected, s2)
    else
      assert PutInCache(s2.cache, record, now) == PutInCache(s.cache, record, now);
      (Claimed, Stores(inserted.value, PutInCache(s2.cache, record, now)))
  }

  // ---------------------------------------------------------------------------------------
  // POST /api/share-links

  datatype ShareRequest = ShareRequest(url: Option<string>, expiration: Option<string>)

  datatype ShareError =
    | MissingUrl
    | UnsupportedProtocol
    | InvalidUrlFormat
    | ExpirationRequired
    | ExpirationNotComputed
    | GenerationFailed

  datatype ShareResponse = ShareCreated(record: UrlRecord) | ShareRejected(error: ShareError) {
    function Status(): int {
      match this
      case ShareCreated(_) => 201
      case ShareRejected(e) =>
        if e == ExpirationNotComputed || e == GenerationFailed then 500 else 400
    }
  }

  /** The outcome of checking a share request before any store is touched. */
  datatype ShareCheck = ShareInvalid(error: ShareError) | ShareValid(url: string, expiresAt: int)

  /** An unknown or missing `expiration` means seven days. */
  function ShareExpiration(raw: Option<string>): (option: ExpirationOption)
    ensures ParseExpiration(raw).None? ==> option == SevenDays
    ensures ParseExpiration(raw).Some? ==> option == ParseExpiration(raw).value
  {
    ParseExpiration(raw).GetOr(SevenDays)
  }

  /**
   * The checks of `/api/share-links` in source order: a non-empty trimmed url, a parseable
   * URL, an `http:` or `https:` protocol, and an expiry other than `forever`. A valid request
   * yields the URL's serialisation and an expiry strictly after `now`.
   */
  function CheckShareRequest(req: ShareRequest, now: int, parseUrl: string -> ParsedUrl): (r: ShareCheck)
    ensures TrimmedField(req.url) == "" ==> r == ShareInvalid(MissingUrl)
    ensures TrimmedField(req.url) != "" && parseUrl(TrimmedField(req.url)).Unparseable? ==>
              r == ShareInvalid(InvalidUrlFormat)
    ensures r.ShareValid? <==>
              && TrimmedField(req.url) != ""
              && parseUrl(TrimmedField(req.url)).Parsed?
              && parseUrl(TrimmedField(req.url)).protocol in {"http:", "https:"}
              && ShareExpiration(req.expiration) != Forever
              && ExpirationTime(ShareExpiration(req.expiration), now).value != 0
    ensures r.ShareValid? ==>
              && r.url == parseUrl(TrimmedField(req.url)).href
              && Some(r.expiresAt) == ExpirationTime(ShareExpiration(req.expiration), now)
              && r.expiresAt > now
    ensures TrimmedField(req.url) != "" && parseUrl(TrimmedField(req.url)).Parsed?
            && parseUrl(TrimmedField(req.url)).protocol !in {"http:", "https:"} ==>
              r == ShareInvalid(UnsupportedProtocol)
    ensures TrimmedField(req.url) != "" && parseUrl(TrimmedField(req.url)).Parsed?
            && parseUrl(TrimmedField(req.url)).protocol in {"http:", "https:"}
            && ShareExpiration(req.expiration) == Forever ==>
              r == ShareInvalid(ExpirationRequired)
    ensures TrimmedField(req.url) != "" && parseUrl(TrimmedField(req.url)).Parsed?
            && parseUrl(TrimmedField(req.url)).protocol in {"http:", "https:"}
            && ShareExpiration(req.expiration) != Forever
            && ExpirationTime(ShareExpiration(req.expiration), now).value == 0 ==>
              r == ShareInvalid(ExpirationNotComputed)
    ensures r.ShareInvalid? && ShareExpiration(req.expiration) == Forever ==>
              r.error in {MissingUrl, InvalidUrlFormat, UnsupportedProtocol, ExpirationRequired}
    ensures r.ShareInvalid? ==> r.error != GenerationFailed
  {
    var input := TrimmedField(req.url);
    if input == "" then ShareInvalid(MissingUrl)
    else
      match parseUrl(input)
      case Unparseable => ShareInvalid(InvalidUrlFormat)
      case Parsed(protocol, href) =>
        if protocol != "http:" && protocol != "https:" then ShareInvalid(UnsupportedProtocol)
        else
          var option := ShareExpiration(req.expiration);
          if option == Forever then ShareInvalid(ExpirationRequired)
          else
            var expiresAt := ExpirationTime(option, now);
            if expiresAt.None? || expiresAt.value == 0 then ShareInvalid(ExpirationNotComputed)
            else ShareValid(href, expiresAt.value)
  }

  /**
   * The retry loop of `/api/share-links` from attempt `attempt` on. A candidate whose path
   * is taken by a live record, or whose insert violates the primary key, is skipped; the
   * first candidate that is free (possibly after deleting an expired occupant) is inserted
   * and cached. When every remaining candidate is taken nothing changes.
   */
  function TryCandidates(s: Stores, url: string, expiresAt: int, now: int, draws: seq<seq<nat>>, attempt: nat)
    : (r: (ShareResponse, Stores))
    requires attempt <= |draws|
    ensures r.0.ShareCreated? || r.0 == ShareRejected(GenerationFailed)
    ensures r.0.ShareRejected? ==>
              && r.1 == s
              && forall i :: attempt <= i < |draws| ==> Occupied(s, GenerateRandomShortPath(draws[i]), now)
    ensures r.0.ShareCreated? ==>
              exists i :: attempt <= i < |draws|
                && r.0.record == UrlRecord(GenerateRandomShortPath(draws[i]), url, now, Some(expiresAt))
                && !Occupied(s, GenerateRandomShortPath(draws[i]), now)
                && forall j :: attempt <= j < i ==> Occupied(s, GenerateRandomShortPath(draws[j]), now)
    ensures r.0.ShareCreated? ==>
              && r.1.table == s.table[r.0.record.shortPath := RowOf(r.0.record)]
              && r.1.cache == PutInCache(s.cache, r.0.record, now)
    ensures Coherent(s) ==> Coherent(r.1)
    decreases |draws| - attempt
  {
    if attempt == |draws| then
      (ShareRejected(GenerationFailed), s)
    else
      var record := UrlRecord(GenerateRandomShortPath(draws[attempt]), url, now, Some(expiresAt));
      var (claim, s1) := ClaimPath(s, record, now);
      if claim != Claimed then
        // A taken path and a uniqueness error both move on to the next candidate.
        TryCandidates(s1, url, expiresAt, now, draws, attempt + 1)
      else
        (ShareCreated(record), s1)
  }

  /**
   * `POST /api/share-links`: validate, then try at most six random four-character
   * candidates. A created link always expires, strictly after `now`; a rejected request
   * changes neither store.
   */
  function ShareLinks(s: Stores, req: ShareRequest, now: int, parseUrl: string -> ParsedUrl, draws: seq<seq<nat>>)
    : (r: (ShareResponse, Stores))
    requires |draws| == MAX_SHARE_ATTEMPTS
    requires forall i :: 0 <= i < |draws| ==> |draws[i]| == SHORT_PATH_LENGTH
    ensures CheckShareRequest(req, now, parseUrl).ShareInvalid? ==>
              r == (ShareRejected(CheckShareRequest(req, now, parseUrl).error), s)
    ensures CheckShareRequest(req, now, parseUrl).ShareValid? ==>
              r.0.ShareCreated? || r.0 == ShareRejected(GenerationFailed)
    ensures CheckShareRequest(req, now, parseUrl).ShareValid?
            && (exists i :: 0 <= i < |draws| && !Occupied(s, GenerateRandomShortPath(draws[i]), now)) ==>
              r.0.ShareCreated?
    ensures r.0.ShareRejected? ==> r.1 == s
    ensures r.0.ShareCreated? ==>
              && |r.0.record.shortPath| == SHORT_PATH_LENGTH
              && (forall k :: 0 <= k < SHORT_PATH_LENGTH ==> IsCharsetChar(r.0.record.shortPath[k]))
              && r.0.record.createdAt == now
              && r.0.record.expiresAt == ExpirationTime(ShareExpiration(req.expiration), now)
              && r.0.record.expiresAt.Some? && r.0.record.expiresAt.value > now
              && r.1.table == s.table[r.0.record.shortPath := RowOf(r.0.record)]
    ensures r.0.ShareCreated? ==>
              && parseUrl(TrimmedField(req.url)).Parsed?
              && r.0.record.originalUrl == parseUrl(TrimmedField(req.url)).href
              && Utf16Length(r.0.record.shortPath) == SHORT_PATH_LENGTH
              && r.1.cache == PutInCache(s.cache, r.0.record, now)
    ensures r.0.ShareCreated? ==>
              exists i :: 0 <= i < |draws|
                && r.0.record.shortPath == GenerateRandomShortPath(draws[i])
                && !Occupied(s, GenerateRandomShortPath(draws[i]), now)
                && forall j :: 0 <= j < i ==> Occupied(s, GenerateRandomShortPath(draws[j]), now)
    ensures r.0 == ShareRejected(GenerationFailed) <==>
              && CheckShareRequest(req, now, parseUrl).ShareValid?
              && forall i :: 0 <= i < |draws| ==> Occupied(s, GenerateRandomShortPath(draws[i]), now)
    ensures Coherent(s) ==> Coherent(r.1)
  {
    match CheckShareRequest(req, now, parseUrl)
    case ShareInvalid(e) => (ShareRejected(e), s)
    case ShareValid(url, expiresAt) => TryCandidates(s, url, expiresAt, now, draws, 0)
  }

  // ---------------------------------------------------------------------------------------
  // POST /api/urls

  /** The body of `/api/urls`; a missing `expiration` means `forever`. */
  datatype CreateRequest = CreateRequest(url: Option<string>, shortPath: Option<string>, expiration: Option<ExpirationOption>)

  datatype CreateError = MissingField | BadPathLength | MalformedUrl | PathInUse | SaveFailed

  datatype CreateResponse = Existing(record: UrlRecord) | Created(record: UrlRecord) | CreateRejected(error: CreateError) {
    /** The `isExisting` flag of a successful response. */
    predicate IsExisting() {
      Existing?
    }

    function Status(): int {
      match this
      case Existing(_) => 200
      case Created(_) => 200
      case CreateRejected(e) =>
        match e
        case PathInUse => 409
        case SaveFailed => 500
        case _ => 400
    }
  }

  /** The request passes every check `/api/urls` makes before touching a store. */
  predicate CreateAccepted(req: CreateRequest, parseUrl: string -> ParsedUrl) {
    && TrimmedField(req.url) != ""
    && Utf16Length(TrimmedField(req.shortPath)) == SHORT_PATH_LENGTH
    && parseUrl(TrimmedField(req.url)).Parsed?
  }

  /**
   * `POST /api/urls`. Input errors are answered before any store access. Then a live record
   * for the same URL is reused (`isExisting`); otherwise a path held by a live record is a
   * conflict; otherwise exactly one record is inserted, after deleting an expired occupant.
   * The URL is stored as trimmed, not normalised, and its protocol is not checked.
   */
  method CreateUrl(s: Stores, req: CreateRequest, now: int, parseUrl: string -> ParsedUrl)
    returns (resp: CreateResponse, s': Stores)
    ensures TrimmedField(req.url) == "" || TrimmedField(req.shortPath) == "" ==>
              resp == CreateRejected(MissingField) && s' == s
    ensures TrimmedField(req.url) != "" && TrimmedField(req.shortPath) != ""
            && Utf16Length(TrimmedField(req.shortPath)) != SHORT_PATH_LENGTH ==>
              resp == CreateRejected(BadPathLength) && s' == s
    ensures TrimmedField(req.url) != "" && Utf16Length(TrimmedField(req.shortPath)) == SHORT_PATH_LENGTH
            && parseUrl(TrimmedField(req.url)).Unparseable? ==>
              resp == CreateRejected(MalformedUrl) && s' == s
    ensures CreateAccepted(req, parseUrl) && HasLiveRecordFor(s.table, TrimmedField(req.url), now) ==>
              && resp.Existing?
              && LiveFor(s.table, resp.record.shortPath, TrimmedField(req.url), now)
              && resp.record == RecordAt(s.table, resp.record.shortPath)
              && s' == Stores(s.table, PutInCache(s.cache, resp.record, now))
    ensures CreateAccepted(req, parseUrl) && !HasLiveRecordFor(s.table, TrimmedField(req.url), now)
            && Occupied(s, TrimmedField(req.shortPath), now) ==>
              resp == CreateRejected(PathInUse) && s' == s
    ensures CreateAccepted(req, parseUrl) && !HasLiveRecordFor(s.table, TrimmedField(req.url), now)
            && !Occupied(s, TrimmedField(req.shortPath), now) ==>
              var record := UrlRecord(TrimmedField(req.shortPath), TrimmedField(req.url), now,
                                      ExpirationTime(req.expiration.GetOr(Forever), now));
              && resp == Created(record)
              && s'.table == s.table[record.shortPath := RowOf(record)]
              && s'.cache == PutInCache(s.cache, record, now)
    ensures Coherent(s) ==> Coherent(s')
  {
    var originalUrl := TrimmedField(req.url);
    var shortPath := TrimmedField(req.shortPath);
    var expiration := req.expiration.GetOr(Forever);
    if originalUrl == "" || shortPath == "" {
      return CreateRejected(MissingField), s;
    }
    if Utf16Length(shortPath) != SHORT_PATH_LENGTH {
      return CreateRejected(BadPathLength), s;
    }
    if parseUrl(originalUrl).Unparseable? {
      return CreateRejected(MalformedUrl), s;
    }
    var existing, s1 := FindExistingUrl(s, originalUrl, now);
    if existing.Some? {
      return Existing(existing.value), s1;
    }
    var record := UrlRecord(shortPath, originalUrl, now, ExpirationTime(expiration, now));
    var r := ClaimAndInsert(s1, record, now);
    resp, s' := r.0, r.1;
  }

  /**
   * The write half of `/api/urls`: a taken path is a conflict; otherwise the record replaces
   * only its path and is cached. The insert's uniqueness error would be caught by the
   * handler's generic error branch.
   */
  function ClaimAndInsert(s: Stores, record: UrlRecord, now: int): (r: (CreateResponse, Stores))
    ensures Occupied(s, record.shortPath, now) ==> r == (CreateRejected(PathInUse), s)
    ensures !Occupied(s, record.shortPath, now) ==>
              && r.0 == Created(record)
              && r.1.table == s.table[record.shortPath := RowOf(record)]
              && r.1.cache == PutInCache(s.cache, record, now)
    ensures Coherent(s) ==> Coherent(r.1)
  {
    var (claim, s') := ClaimPath(s, record, now);
    if claim != Claimed then
      (CreateRejected(if claim == PathTaken then PathInUse else SaveFailed), s')
    else
      (Created(record), s')
  }

  /** Rows the dedup query rejects at one instant stay rejected later, so right after an
      insert that found no live record for `url`, the inserted row is the only live one. */
  lemma OnlyInsertedRowIsLive(t: Table, t': Table, shortPath: string, row: Row, url: string, before: int, now: int)
    requires !HasLiveRecordFor(t, url, before) && before <= now
    requires t' == t[shortPath := row]
    ensures forall p :: LiveFor(t', p, url, now) ==> p == shortPath
  {
    forall p | LiveFor(t', p, url, now)
      ensures p == shortPath
    {
      if p != shortPath {
        assert LiveFor(t, p, url, before);
      }
    }
  }

  /**
   * Creation is idempotent for a live URL: when a first `/api/urls` request creates a record
   * and a later request for the same URL passes the input checks while that record is still
   * live, the second one returns the very same record flagged `isExisting`, whatever path
   * it asked for.
   */
  method CreateTwice(s: Stores, first: CreateRequest, second: CreateRequest, now: int, later: int,
                     parseUrl: string -> ParsedUrl)
    returns (r1: CreateResponse, r2: CreateResponse, s': Stores)
    requires TrimmedField(first.url) == TrimmedField(second.url)
    requires now <= later
    ensures r1.Created? && CreateAccepted(second, parseUrl) && IsLiveInQuery(r1.record.expiresAt, later) ==>
              r2 == Existing(r1.record) && r2.IsExisting() && !r1.IsExisting()
  {
    var s1;
    r1, s1 := CreateUrl(s, first, now, parseUrl);
    r2, s' := CreateUrl(s1, second, later, parseUrl);
    if r1.Created? && CreateAccepted(second, parseUrl) && IsLiveInQuery(r1.record.expiresAt, later) {
      var url := TrimmedField(first.url);
      OnlyInsertedRowIsLive(s.table, s1.table, r1.record.shortPath, RowOf(r1.record), url, now, later);
      assert LiveFor(s1.table, r1.record.shortPath, url, later);
    }
  }

  // ---------------------------------------------------------------------------------------
  // Reads

  /** `GET /api/urls/exists/<shortPath>`: false without touching a store when the path does
      not have four UTF-16 code units; otherwise whether `getUrlRecord` finds a record. */
  function ExistsCheck(s: Stores, shortPath: string, now: int): (r: (bool, Stores))
    ensures Utf16Length(shortPath) != SHORT_PATH_LENGTH ==> r == (false, s)
    ensures Utf16Length(shortPath) == SHORT_PATH_LENGTH ==>
              r.1 == GetUrlRecord(s, shortPath, now).1
              && (r.0 <==>
                    || (shortPath in s.cache && !IsExpiredAt(s.cache[shortPath].record.expiresAt, now))
                    || (shortPath !in s.cache && Occupied(s, shortPath, now)))
  {
    if Utf16Length(shortPath) != SHORT_PATH_LENGTH then (false, s)
    else
      var (record, s') := GetUrlRecord(s, shortPath, now);
      (record.Some?, s')
  }

  datatype LookupResponse = Found(record: UrlRecord) | NotFound {
    function Status(): int {
      if Found? then 200 else 404
    }
  }

  /** `GET /api/urls/<shortPath>`: the record `getUrlRecord` resolves, or 404. */
  function LookupUrl(s: Stores, shortPath: string, now: int): (r: (LookupResponse, Stores))
    ensures Utf16Length(shortPath) != SHORT_PATH_LENGTH ==> r == (NotFound, s)
    ensures Utf16Length(shortPath) == SHORT_PATH_LENGTH ==>
              r.1 == GetUrlRecord(s, shortPath, now).1
              && (r.0.Found? <==> GetUrlRecord(s, shortPath, now).0.Some?)
              && (r.0.Found? ==> r.0.record == GetUrlRecord(s, shortPath, now).0.value)
  {
    if Utf16Length(shortPath) != SHORT_PATH_LENGTH then (NotFound, s)
    else
      var (record, s') := GetUrlRecord(s, shortPath, now);
      if record.Some? then (Found(record.value), s') else (NotFound, s')
  }

  /** The existence check is the lookup with the body discarded. */
  lemma ExistsIsLookup(s: Stores, shortPath: string, now: int)
    ensures ExistsCheck(s, shortPath, now).0 <==> LookupUrl(s, shortPath, now).0.Found?
    ensures ExistsCheck(s, shortPath, now).1 == LookupUrl(s, shortPath, now).1
  {
  }

  datatype RedirectResponse = RedirectTo(location: string) | LinkNotFound | NotARedirect {
    function Status(): int {
      match this
      case RedirectTo(_) => 302
      case LinkNotFound => 404
      case NotARedirect => 200
    }
  }

  /**
   * A non-API `GET` of `pathname` (trailing slashes already removed): a pathname of exactly
   * five UTF-16 code units other than `/` names the short path after its leading slash, which
   * redirects to its original URL when it resolves; any other pathname is not a redirect.
   */
  function RedirectLink(s: Stores, pathname: string, now: int): (r: (RedirectResponse, Stores))
    ensures Utf16Length(pathname) != SHORT_PATH_LENGTH + 1 ==> r == (NotARedirect, s)
    ensures Utf16Length(pathname) == SHORT_PATH_LENGTH + 1 ==>
              var resolved := GetUrlRecord(s, pathname[1..], now);
              && r.1 == resolved.1
              && (r.0.RedirectTo? <==> resolved.0.Some?)
              && (r.0 == LinkNotFound <==> resolved.0.None?)
              && (r.0.RedirectTo? ==> r.0.location == resolved.0.value.originalUrl)
    ensures Coherent(s) ==> Coherent(r.1)
  {
    if pathname != "/" && Utf16Length(pathname) == SHORT_PATH_LENGTH + 1 then
      var (record, s') := GetUrlRecord(s, pathname[1..], now);
      if record.Some? then (RedirectTo(record.value.originalUrl), s') else (LinkNotFound, s')
    else
      (NotARedirect, s)
  }
}
