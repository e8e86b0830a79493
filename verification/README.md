# Tiny-Urls short-link lifecycle in Dafny

This project models the core of the Tiny-Urls link shortener: the lifecycle of a short-link
record (`shortPath` → `originalUrl`, `createdAt`, optional `expiresAt`) over two stores.

- **Durable table.** The `urls` table is keyed by the four-character short path. It is
  `Records.Table`, a map from path to row, so the primary key is the map key.
- **TTL cache.** The KV cache in front of the table (Cloudflare worker only) is
  `WorkerStore.Cache`, a map from path to the cached record and the TTL it was written with.

Every operation is a state transition. It takes the stores and the request time `now` and
returns its outcome with the new stores. Three things the code gets from its environment
are inputs instead:

- Random values come in as `draws` (the words `crypto.getRandomValues` fills) and
  `randomDigits` (the values of `Math.floor(Math.random() * 62)`).
- The `URL` constructor is a parameter `parseUrl: string -> ParsedUrl`.
- A cache entry that KV has dropped is a missing key.

Modules:

- `Records`: the record and row types, the expiry options and `getExpirationTime`, the two
  liveness tests, the insert with its primary-key check, and the dedup query.
  - The lazy test, `IsExpiredAt`, is the code's `expiresAt && now > expiresAt`, so an
    `expiresAt` of 0 counts as "never".
  - The SQL test, `IsLiveInQuery`, is `expiresAt IS NULL OR expiresAt > now`.
- `JsText`: the JavaScript string built-ins used (`trim`, `startsWith`, ASCII `toLowerCase`,
  `.replace(/\/+$/, '')`) and the outcome type of `new URL`.
- `Utils`: `ensureHttps`, `normalizeUrl` and the base-62 `generateShortPath` of
  `src/lib/utils.ts`.
- `WorkerStore`: the lifecycle functions of `server/worker.ts` over table and cache:
  `putInCache` TTL, `removeUrl`, the sweep, `ensureShortPathAvailable`, `findExistingUrl` and
  `getUrlRecord`. Also the invariant `Coherent`: a cached record sits under its own path and
  equals the table's row while the table has that key.
- `WorkerHandler`: the decisions of the worker's request handler.
  - `POST /api/share-links`: a random path, at most six attempts.
  - `POST /api/urls`: a caller-supplied path, with dedup and a 409 on conflict.
  - The existence check, the JSON lookup and the redirect.
- `Storage`: the SQLite `UrlStorage` class of `server/db.ts` (table only, no cache).

Behaviours of the code that the model follows:

- The SQLite sweep deletes `expiresAt < now`, while the worker's deletes `expiresAt <= now`.
- `/api/urls` checks the path length before dedup. `saveUrl` checks it after dedup.
- `/api/urls` only checks that the URL parses, not its protocol. It stores the trimmed
  input, not the normalised URL.
- On `/api/urls`, a failed insert is reported as a generic 500 (`SaveFailed`), not as a
  conflict.
- The share-link retry bound is 6.
- A record whose `expiresAt` is 0 never expires lazily, because 0 is falsy. It is still
  excluded by the dedup query and removed by the sweeps.

## Model

| member | source | states |
|---|---|---|
| Records.ExpirationTime | server/worker.ts:88-97 | `12h` gives `now + 43_200_000`, `7d` gives `now + 604_800_000`, `forever` gives null; a non-null expiry is strictly after the creation time |
| Records.ExpirationTimeRoundTrip | server/db.ts:43-53 | the stored `(createdAt, expiresAt)` pair identifies the option that produced it, and a pair identifies an option only if that option's expiry computation yields it |
| Records.ExpiryBoundary | server/worker.ts:145-198 | a record the SQL filter finds live is never lazily expired; the two tests disagree exactly when `expiresAt == now`, or when `expiresAt` is 0 and `now >= 0` |
| Records.Insert | server/db.ts:89-98 | the insert succeeds exactly when no row holds the key, and then adds exactly that row and keeps every other row |
| Records.InsertThenDelete | server/db.ts:89-98 | deleting the key an insert added gives back the table it was inserted into |
| Records.FindLiveByUrl | server/db.ts:55-69 | the dedup query finds a path exactly when some row for the URL has a null `expiresAt` or one after `now`, and the path it returns is such a row |
| JsText.Utf16Length | server/worker.ts:346 | `.length` counts UTF-16 code units: one or two per code point, equal to the code-point count exactly when no code point lies above U+FFFF |
| JsText.Utf16LengthAppend | server/worker.ts:346 | the code-unit length of a concatenation is the sum of the lengths |
| JsText.Trim | server/worker.ts:338-339 | the trimmed field is the slice of the input between its leading and trailing whitespace; it is empty exactly when the input is all whitespace, which the handlers treat as a missing field |
| Utils.EnsureHttps | src/lib/utils.ts:1-6 | the result always starts with `http://` or `https://`; an input that already does is returned unchanged, any other input gets `https://` in front |
| Utils.EnsureHttpsIdempotent | src/lib/utils.ts:1-6 | applying `ensureHttps` twice equals applying it once |
| Utils.LowerAndStrip | src/lib/utils.ts:13 | the fallback normalisation holds no upper-case ASCII letter and never ends in `/`; it is the lowercased input with only `/` characters removed from its end |
| Utils.LowerAndStripIdempotent | src/lib/utils.ts:13 | normalising an already normalised string changes nothing |
| Utils.NormalizeUrl | src/lib/utils.ts:8-15 | the result is the lowercased, slash-stripped serialisation of the parsed `ensureHttps(url)`, or of `url` itself when parsing fails; it never ends in `/` |
| Utils.Base62RoundTrip | src/lib/utils.ts:25-29 | decoding the base-62 numeral of a non-negative number gives the number back |
| Utils.DecodeAppend | src/lib/utils.ts:27 | prepending digits multiplies their value by a power of 62: `decode(a + b) == decode(a) * 62^|b| + decode(b)` |
| Utils.LastFourDigits | src/lib/utils.ts:37 | the last four digits of a numeral encode its value modulo `62^4` |
| Utils.EncodeBase62 | src/lib/utils.ts:25-29 | the conversion loop yields a numeral over the 62-symbol alphabet that decodes to the timestamp, empty exactly when the timestamp is not positive |
| Utils.PadWithRandomDigits | src/lib/utils.ts:31-34 | random digits are prepended only while the numeral is shorter than four characters. A longer numeral is left as it is. A short one becomes exactly four characters ending with it, and the characters in front are the alphabet symbols of the draws, the first draw nearest the numeral |
| Utils.LongTimestampSuffix | src/lib/utils.ts:37 | a timestamp of at least `62^3` has a numeral of four or more digits, whose last four spell the timestamp modulo `62^4` |
| Utils.LastFourOfNumeral | src/lib/utils.ts:37 | when no padding happened, the last four characters of the numeral are the four-digit numeral of `timestamp mod 62^4` for a timestamp of at least `62^3`, and the numeral itself when it has exactly four digits |
| Utils.ShortNumeral | src/lib/utils.ts:31-34 | a numeral short enough to need padding belongs to a timestamp below `62^3` |
| Utils.GenerateShortPath | src/lib/utils.ts:17-38 | the result has exactly four characters from the 62-symbol alphabet; for a timestamp of at least `62^3` it is the four-digit numeral of `timestamp mod 62^4` (no random padding); otherwise it ends with the timestamp's numeral, and the characters in front are the alphabet symbols of the random draws, the first draw nearest the numeral |
| WorkerStore.CacheTtl | server/worker.ts:114-117 | no TTL when `expiresAt` is null (or the falsy 0); otherwise the TTL is at least 1 s, it is the whole seconds left (at least one), the entry never outlives a record with a second or more left, and it outlives an unexpired record by at most 1 s |
| WorkerStore.PutInCache | server/worker.ts:114-117 | the record's snapshot and its TTL are written under its own short path, and every other cache entry stays as it was |
| WorkerStore.PutInCacheKeepsCoherent | server/worker.ts:114-117 | caching a record that agrees with the table's row for its path keeps the cache coherent with the table |
| WorkerStore.RemoveUrl | server/worker.ts:138-143 | the path is gone from both the table and the cache, every other entry of both stays, and coherence is kept |
| WorkerStore.CleanupExpiredUrls | server/worker.ts:145-149 | the sweep deletes exactly the rows whose non-null `expiresAt <= now`, leaves every other row as it was and does not touch the cache |
| WorkerStore.CleanupIdempotent | server/worker.ts:145-149 | a second sweep at the same instant deletes nothing more |
| WorkerStore.EnsureShortPathAvailable | server/worker.ts:151-163 | three outcomes: absent path, available and nothing changes; lazily expired occupant, deleted from table and cache, then available; live occupant, taken and nothing changes. After "available" the path is free in the table |
| WorkerStore.FindExistingUrl | server/worker.ts:165-178 | finds a record exactly when the dedup query has a live row for the URL; a found record is that row, and it is written into the cache; nothing changes when none is found |
| WorkerStore.GetUrlRecord | server/worker.ts:180-202 | the result is never lazily expired. A cache hit decides by itself, and an expired hit is deleted from both stores. On a miss the table decides: an expired row is deleted from both stores, a live row is written back into the cache. Under coherence the result is the table's record whenever the table has the path |
| WorkerStore.ColdCacheAgrees | server/worker.ts:180-202 | with the cached entry dropped, resolving a path the table holds gives the same record and leaves the same table as the warm cache |
| WorkerStore.ResolveRespectsLifetime | server/worker.ts:195-201 | a record created at a non-negative time resolves exactly up to its expiry instant inclusive (12 h or 7 d after creation), and a `forever` record resolves at every time |
| WorkerStore.ExpiryInstant | server/worker.ts:146-183 | at `now == expiresAt` the record still resolves, but the dedup query rejects it and the sweep deletes it |
| WorkerHandler.GenerateRandomShortPath | server/worker.ts:67-81 | one character per random word, each from the 36 lowercase letters and digits, at alphabet position `word mod 36`; four words give four characters |
| WorkerHandler.ParseExpiration | server/worker.ts:83-84 | a raw `expiration` is recognised exactly when it is `"12h"`, `"7d"` or `"forever"`, and then it names the option returned |
| WorkerHandler.ExpirationNameRoundTrip | server/worker.ts:83-84 | every option's name is recognised as that option |
| WorkerHandler.ShareExpiration | server/worker.ts:251-252 | an unrecognised or missing option falls back to `7d` |
| WorkerHandler.CheckShareRequest | server/worker.ts:235-261 | the checks run in source order, each with its own error: a blank url gives "missing url" (400), an unparseable one "invalid URL format" (400), a protocol other than `http:`/`https:` "unsupported protocol" (400), an effective option of `forever` "expiration required" (400), and an expiry of 0 "not computed" (500). A share request is valid exactly when the url is non-blank and parses with protocol `http:`/`https:`, and the effective option is not `forever` (whose rejection is a 400). A valid request carries the URL's serialisation and an expiry strictly after `now` |
| WorkerHandler.TryCandidates | server/worker.ts:263-309 | failure happens only when every remaining candidate is held by a live record, and then nothing changes. Success inserts the first free candidate (with the request's URL, `now` and the expiry) into the table, replacing only that path, and caches it |
| WorkerHandler.ShareLinks | server/worker.ts:228-323 | an invalid request is rejected with the validation error and changes no store. A valid request is either created or fails with "generation failed", and it is created whenever some candidate is not held by a live record. A created share link points to the parsed URL's serialisation. Its path is the first of the six candidates not held by a live record, four characters (and four UTF-16 units) from the 36-symbol alphabet. It was created at `now` and has a non-null expiry after `now` from the effective option. Exactly one row is added or replaced, and the record is cached. The request fails with "generation failed" exactly when it is valid and all six candidates are held by live records |
| WorkerHandler.CreateUrl | server/worker.ts:330-399 | a missing url or shortPath, a path that is not four UTF-16 code units long, or an unparseable URL is a 400, before any store access. A live record for the URL is returned as existing and only the cache changes. Otherwise a live occupant of the path gives 409 and nothing changes. Otherwise exactly one record `{shortPath, url, now, expiresAt}` is inserted, replacing an expired occupant, and cached |
| WorkerHandler.ClaimPath | server/worker.ts:266-294 | the write step of both create handlers: the path is taken exactly when a live record holds it, and then nothing changes; otherwise the record replaces only its path in the table and is cached, and the insert's uniqueness error cannot occur after the availability check; coherence is kept |
| WorkerHandler.ClaimAndInsert | server/worker.ts:367-391 | a path held by a live record is a 409 conflict and nothing changes; otherwise the record replaces only that path in the table and is cached |
| WorkerHandler.OnlyInsertedRowIsLive | server/worker.ts:356-382 | after an insert that found no live record for its URL, the inserted row is the only row the dedup query can return for that URL at that time or later |
| WorkerHandler.CreateTwice | server/worker.ts:356-399 | creating a URL and then posting it again while the record is live returns the same record with `isExisting` true, whatever path the second request asked for |
| WorkerHandler.ExistsCheck | server/worker.ts:406-414 | a path that is not four UTF-16 code units long is reported absent without store access; otherwise the answer is whether the cache or table holds an unexpired record, with `getUrlRecord`'s side effects |
| WorkerHandler.LookupUrl | server/worker.ts:416-428 | a path that is not four UTF-16 code units long is a 404 without store access; otherwise the response is the record `getUrlRecord` resolves, or 404 |
| WorkerHandler.ExistsIsLookup | server/worker.ts:406-428 | the existence check answers true exactly when the lookup finds the record, and both leave the same stores |
| WorkerHandler.RedirectLink | server/worker.ts:433-446 | only a pathname five UTF-16 code units long is a redirect candidate; it redirects to the original URL of the record the rest of the pathname after its first character resolves to, and otherwise gives "link not found" (404), never the non-redirect outcome |
| Storage.SaveUrl | server/db.ts:71-105 | dedup first: a live record for the URL is reused without inserting, even for a path that is not four UTF-16 code units long. Otherwise a wrong-length path throws. Otherwise the insert throws when any row, even an expired one, holds the path. Otherwise exactly that row is added. A failure leaves the table unchanged, and the table keeps keys four UTF-16 code units long |
| Storage.GetUrl | server/db.ts:107-135 | returns the row exactly when it is present and not lazily expired; an expired row is deleted, and nothing else changes |
| Storage.UrlExists | server/db.ts:137-140 | true exactly when `getUrl` returns a row, with the same effect on the table |
| Storage.DeleteUrl | server/db.ts:142-149 | the path is gone and every other row stays |
| Storage.DeleteIdempotent | server/db.ts:142-149 | deleting twice equals deleting once, and deleting an absent path changes nothing |
| Storage.CleanupExpiredUrls | server/db.ts:151-163 | the sweep deletes exactly the rows whose non-null `expiresAt < now` (strict) and leaves all others untouched |
| Storage.CleanupMatchesLazyExpiry | server/db.ts:151-156 | except for an `expiresAt` of 0, the sweep deletes a row exactly when `getUrl` would find it expired, so a row expiring at `now` survives it |
| Storage.PurgeAllUrls | server/db.ts:165-173 | after a purge no path resolves |
| Storage.Open | server/db.ts:15-29 | construction optionally purges, then sweeps: the table left holds only original rows that the sweep keeps, and without a purge it holds all of them |

## Left out

- HTTP plumbing is not modelled: CORS, response assembly and method/route dispatch
  (`server/worker.ts:14-65, 99-112, 204-227`). The branch functions receive the short path
  or the slash-stripped pathname. Response bodies are not built, including the share URL
  (`server/worker.ts:311-312`); only the outcome and its status code are.
- The Express server and Supabase variants, the `server/src` tree, `api/urls.ts`, the
  frontend and `src/lib/db.ts` are not part of this model.
  - In `server/index.ts:38` the flag `isExisting` is `savedPath !== shortPath`. A reused
    record whose path equals the requested one is therefore reported as new.
- Store and cache failures are not modelled; the stores never fail. This covers exceptions
  that become 500 responses, the `try`/`catch` blocks in `server/db.ts` that turn errors
  into `null`/`undefined` or ignore them, and the catch-all 500s of both create handlers.
- Concurrency is not modelled: the per-request background sweep (`ctx.waitUntil`,
  `server/worker.ts:219`), the five-minute timer (`server/db.ts:27`) and insert races.
  - A uniqueness violation is an insert on a present key.
  - In this sequential model, such an insert cannot follow a successful availability check.
    So the share-link retry on a constraint error and the 500 after a failed `/api/urls`
    insert are modelled but never taken.
- KV's own TTL expiry and eviction are not simulated. A dropped entry is a state without
  the key; `ColdCacheAgrees` covers that case. The `short:` key prefix and JSON
  serialisation are not modelled.
- The clock is the input `now`. `saveUrl` reads `Date.now()` up to three times
  (`server/db.ts:44, 62, 96`); the model uses one instant for all of them.
- Randomness is supplied by the caller.
  - Random words are any natural numbers. The 32-bit bound of `Uint32Array` does not affect
    `word % 36`.
  - Random base-62 digits are assumed below 62 and at least four are supplied, as
    `Math.floor(Math.random() * 62)` guarantees.
- `new URL` is the parameter `parseUrl`. The protocol and serialisation it returns are
  whatever that function says.
- The `expiration` field of `/api/urls` takes only the three worker options.
  - The code does not validate it (`server/worker.ts:340`). Another string would make
    `getExpirationTime` return `undefined`.
  - The shared type's `'180d'` (`shared/urlTypes.ts:1`) is not an option of the worker.
- Strings are sequences of Unicode code points. Every `.length` test on a path counts
  UTF-16 code units through `JsText.Utf16Length`, as JavaScript does, so `"ab😀"` has
  length 4. This covers `/api/urls`, `saveUrl`, the existence check, the lookup and the
  redirect.
- WorkerHandler.RedirectLink: drops the first code point of the pathname, where
  `slice(1)` drops the first UTF-16 code unit. The two differ only for a pathname that
  starts with a code point above U+FFFF, and the worker's pathname always starts with `/`.
  A string holding half of a surrogate pair cannot be represented.
- JavaScript numbers are doubles; the model uses unbounded integers. Epoch milliseconds are
  far below 2^53, so the arithmetic is exact.
- Logging is not modelled.
- Utils.NormalizeUrl: lowercases only the ASCII letters A-Z, whereas `toLowerCase` maps all
  of Unicode.
- Utils.LowerAndStrip: lowercases only the ASCII letters A-Z, for the same reason.
