/**
 * The pure string helpers of the front end: scheme prefixing, URL normalisation and the
 * timestamp-based short-path generator.
 */
module Utils {
  import opened JsText

  predicate HasHttpScheme(s: string) {
    StartsWith(s, "http://") || StartsWith(s, "https://")
  }

  /** `ensureHttps`: the result always carries an `http://` or `https://` scheme; a URL that
      already has one is left alone and any other string gets `https://` in front. */
  function EnsureHttps(url: string): (r: string)
    ensures HasHttpScheme(r)
    ensures HasHttpScheme(url) ==> r == url
    ensures !HasHttpScheme(url) ==> r == "https://" + url
  {
    if !StartsWith(url, "http://") && !StartsWith(url, "https://") then "https://" + url else url
  }

  lemma EnsureHttpsIdempotent(url: string)
    ensures EnsureHttps(EnsureHttps(url)) == EnsureHttps(url)
  {
  }

  /** `s.toLowerCase().replace(/\/+$/, '')`. */
  function LowerAndStrip(s: string): (r: string)
    ensures r == [] || r[|r| - 1] != '/'
    ensures forall k :: 0 <= k < |r| ==> !('A' <= r[k] <= 'Z')
    ensures |r| <= |s| && r == LowerAscii(s)[..|r|]
    ensures forall k :: |r| <= k < |s| ==> s[k] == '/'
  {
    var r := StripTrailingSlashes(LowerAscii(s));
    LowerAsciiKeepsSlashes(s);
    r
  }

  lemma LowerAsciiKeepsSlashes(s: string)
    ensures forall k :: 0 <= k < |s| && LowerAscii(s)[k] == '/' ==> s[k] == '/'
  {
    forall k | 0 <= k < |s| && LowerAscii(s)[k] == '/'
      ensures s[k] == '/'
    {
      assert LowerAscii(s)[k] == LowerChar(s[k]);
    }
  }

  /** Lowercasing and stripping trailing slashes a second time changes nothing. */
  lemma LowerAndStripIdempotent(s: string)
    ensures LowerAndStrip(LowerAndStrip(s)) == LowerAndStrip(s)
  {
    var r := LowerAndStrip(s);
    assert LowerAscii(r) == r;
  }

  /** `normalizeUrl`: the serialisation of `new URL(ensureHttps(url))` when that parses,
      otherwise `url` itself, lowercased and without trailing slashes. */
  function NormalizeUrl(url: string, parseUrl: string -> ParsedUrl): (r: string)
    ensures r == [] || r[|r| - 1] != '/'
    ensures forall k :: 0 <= k < |r| ==> !('A' <= r[k] <= 'Z')
    ensures parseUrl(EnsureHttps(url)).Unparseable? ==> r == LowerAndStrip(url)
    ensures parseUrl(EnsureHttps(url)).Parsed? ==> r == LowerAndStrip(parseUrl(EnsureHttps(url)).href)
  {
    match parseUrl(EnsureHttps(url))
    case Parsed(_, href) => LowerAndStrip(href)
    case Unparseable => LowerAndStrip(url)
  }

  // ---------------------------------------------------------------------------------------
  // Base 62 over the alphabet '0123456789abcdefghijklmnopqrstuvwxyzABCDEFGHIJKLMNOPQRSTUVWXYZ'

  const BASE: nat := 62

  predicate IsBase62Char(c: char) {
    ('0' <= c <= '9') || ('a' <= c <= 'z') || ('A' <= c <= 'Z')
  }

  predicate IsBase62(s: string) {
    forall k :: 0 <= k < |s| ==> IsBase62Char(s[k])
  }

  /** `characters[d]`. */
  function Base62Char(d: nat): (c: char)
    requires d < BASE
    ensures IsBase62Char(c)
    ensures DigitValue(c) == d
  {
    if d < 10 then ('0' as int + d) as char
    else if d < 36 then ('a' as int + (d - 10)) as char
    else ('A' as int + (d - 36)) as char
  }

  /** The position of `c` in the alphabet. */
  function DigitValue(c: char): (d: nat)
    requires IsBase62Char(c)
    ensures d < BASE
  {
    if '0' <= c <= '9' then c as int - '0' as int
    else if 'a' <= c <= 'z' then c as int - 'a' as int + 10
    else c as int - 'A' as int + 36
  }

  function Pow62(k: nat): (p: nat)
    ensures p >= 1
  {
    if k == 0 then 1 else BASE * Pow62(k - 1)
  }

  /** The value of a base-62 numeral, most significant digit first. */
  function DecodeBase62(s: string): (n: nat)
    requires IsBase62(s)
    ensures n < Pow62(|s|)
  {
    if s == [] then 0
    else
      var n := DecodeBase62(s[..|s| - 1]) * BASE + DigitValue(s[|s| - 1]);
      assert DecodeBase62(s[..|s| - 1]) * BASE <= (Pow62(|s| - 1) - 1) * BASE;
      n
  }

  /** The numeral the conversion loop builds for `n`: empty when `n` is not positive,
      otherwise without leading zero digit. */
  function Base62Digits(n: int): (s: string)
    ensures IsBase62(s)
    ensures s == [] <==> n <= 0
    ensures s != [] ==> s[0] != '0'
    decreases n
  {
    if n <= 0 then [] else Base62Digits(n / BASE) + [Base62Char(n % BASE)]
  }

  /** Decoding the numeral of a non-negative number gives the number back. */
  lemma {:induction false} Base62RoundTrip(n: nat)
    ensures DecodeBase62(Base62Digits(n)) == n
    decreases n
  {
    if n > 0 {
      var s := Base62Digits(n);
      Base62RoundTrip(n / BASE);
      assert s[..|s| - 1] == Base62Digits(n / BASE);
    }
  }

  /** Decoding a concatenation: the left part counts `62^|b|` times its value. */
  lemma {:induction false} DecodeAppend(a: string, b: string)
    requires IsBase62(a) && IsBase62(b)
    ensures IsBase62(a + b)
    ensures DecodeBase62(a + b) == DecodeBase62(a) * Pow62(|b|) + DecodeBase62(b)
    decreases |b|
  {
    if b == [] {
      assert a + b == a;
    } else {
      var b', d := b[..|b| - 1], DigitValue(b[|b| - 1]);
      DecodeAppend(a, b');
      assert (a + b)[..|a + b| - 1] == a + b';
      assert (a + b)[|a + b| - 1] == b[|b| - 1];
      var x, p, y := DecodeBase62(a), Pow62(|b'|), DecodeBase62(b');
      assert DecodeBase62(a + b) == (x * p + y) * BASE + d;
      assert DecodeBase62(b) == y * BASE + d;
      assert Pow62(|b|) == p * BASE;
      Distribute(x, p, y, d);
    }
  }

  lemma Distribute(x: int, p: int, y: int, d: int)
    ensures (x * p + y) * BASE + d == x * (p * BASE) + (y * BASE + d)
  {
  }

  /** Euclidean division by a positive modulus is unique. */
  lemma ModOfDecomposition(x: int, q: int, m: int, r: int)
    requires m > 0 && 0 <= r < m && x == q * m + r
    ensures x % m == r
  {
    var q', r' := x / m, x % m;
    assert (q - q') * m == r' - r;
    MultipleBounds(q - q', m);
  }

  lemma MultipleBounds(d: int, m: int)
    requires m > 0
    ensures d >= 1 ==> d * m >= m
    ensures d <= -1 ==> d * m <= -m
  {
  }

  /** The last four digits of a numeral spell its value modulo `62^4`. */
  lemma LastFourDigits(s: string)
    requires IsBase62(s) && |s| >= 4
    ensures IsBase62(s[|s| - 4..])
    ensures DecodeBase62(s[|s| - 4..]) == DecodeBase62(s) % Pow62(4)
  {
    var a, b := s[..|s| - 4], s[|s| - 4..];
    assert s == a + b;
    DecodeAppend(a, b);
    ModOfDecomposition(DecodeBase62(s), DecodeBase62(a), Pow62(4), DecodeBase62(b));
  }

  /** A number of at least `62^k` needs more than `k` digits. */
  lemma Base62Length(n: nat, k: nat)
    requires n >= Pow62(k)
    ensures |Base62Digits(n)| > k
  {
    Base62RoundTrip(n);
    if |Base62Digits(n)| <= k {
      PowMonotone(|Base62Digits(n)|, k);
    }
  }

  lemma {:induction false} PowMonotone(i: nat, j: nat)
    requires i <= j
    ensures Pow62(i) <= Pow62(j)
    decreases j
  {
    if i < j {
      PowMonotone(i, j - 1);
    }
  }

  /** The conversion loop of `generateShortPath`, which prepends the least significant digit while
      the number is positive; it produces the numeral of the timestamp. */
  method EncodeBase62(timestamp: int) returns (digits: string)
    ensures IsBase62(digits)
    ensures timestamp >= 0 ==> DecodeBase62(digits) == timestamp
    ensures timestamp <= 0 <==> digits == []
    ensures digits == Base62Digits(timestamp)
  {
    var num := timestamp;
    digits := "";
    while num > 0
      invariant Base62Digits(num) + digits == Base62Digits(timestamp)
      decreases num
    {
      assert Base62Digits(num) == Base62Digits(num / BASE) + [Base62Char(num % BASE)];
      digits := [Base62Char(num % BASE)] + digits;
      num := num / BASE;
    }
    assert Base62Digits(num) == [];
    assert digits == Base62Digits(timestamp);
    if timestamp >= 0 {
      Base62RoundTrip(timestamp);
    }
  }

  /** The padding loop of `generateShortPath`: random digits are prepended, in draw order, while
      the numeral is shorter than four characters. A numeral of four or more digits is left as
      it is. */
  method PadWithRandomDigits(encoded: string, randomDigits: seq<nat>) returns (padded: string)
    requires IsBase62(encoded)
    requires |randomDigits| >= 4
    requires forall k :: 0 <= k < |randomDigits| ==> randomDigits[k] < BASE
    ensures IsBase62(padded) && |padded| >= 4
    ensures |encoded| >= 4 ==> padded == encoded
    ensures |encoded| < 4 ==> |padded| == 4 && padded[4 - |encoded|..] == encoded
    ensures |encoded| < 4 ==>
              forall k :: 0 <= k < 4 - |encoded| ==> padded[k] == Base62Char(randomDigits[3 - |encoded| - k])
  {
    padded := encoded;
    var used := 0;
    while |padded| < 4
      invariant |padded| == used + |encoded|
      invariant padded[used..] == encoded
      invariant IsBase62(padded)
      invariant used == 0 || |padded| <= 4
      invariant forall k :: 0 <= k < used ==> padded[k] == Base62Char(randomDigits[used - 1 - k])
      decreases 4 - |padded|
    {
      padded := [Base62Char(randomDigits[used])] + padded;
      used := used + 1;
    }
  }

  /**
   * `generateShortPath`: the base-62 numeral of the timestamp, padded on the left with
   * random digits up to four characters, then cut to its last four characters.
   * `randomDigits` supplies the values of `Math.floor(Math.random() * 62)` in draw order.
   */
  method GenerateShortPath(timestamp: int, randomDigits: seq<nat>) returns (shortPath: string)
    requires |randomDigits| >= 4
    requires forall k :: 0 <= k < |randomDigits| ==> randomDigits[k] < BASE
    ensures |shortPath| == 4
    ensures IsBase62(shortPath)
    ensures timestamp >= Pow62(3) ==> DecodeBase62(shortPath) == timestamp % Pow62(4)
    ensures |Base62Digits(timestamp)| <= 4 ==>
              shortPath[4 - |Base62Digits(timestamp)|..] == Base62Digits(timestamp)
    ensures |Base62Digits(timestamp)| < 4 ==>
              forall k :: 0 <= k < 4 - |Base62Digits(timestamp)| ==>
                shortPath[k] == Base62Char(randomDigits[3 - |Base62Digits(timestamp)| - k])
  {
    var encoded := EncodeBase62(timestamp);
    var padded := PadWithRandomDigits(encoded, randomDigits);
    // `slice(-4)`: with no padding it cuts the numeral; a padded numeral has exactly four
    // characters and is kept whole.
    if |encoded| >= 4 {
      shortPath := padded[|padded| - 4..];
      LastFourOfNumeral(timestamp, encoded, shortPath);
    } else {
      assert padded[|padded| - 4..] == padded;
      shortPath := padded;
      ShortNumeral(timestamp);
    }
  }

  /** Without padding, the short path is the last four digits of the numeral: the numeral of
      `timestamp mod 62^4` when the timestamp is at least `62^3`, the numeral itself when it
      has exactly four digits. */
  lemma LastFourOfNumeral(timestamp: int, encoded: string, shortPath: string)
    requires encoded == Base62Digits(timestamp) && |encoded| >= 4
    requires shortPath == encoded[|encoded| - 4..]
    ensures |shortPath| == 4 && IsBase62(shortPath)
    ensures timestamp >= Pow62(3) ==> DecodeBase62(shortPath) == timestamp % Pow62(4)
    ensures |encoded| == 4 ==> shortPath == encoded
  {
    if timestamp >= Pow62(3) {
      LongTimestampSuffix(timestamp);
    }
  }

  /** A numeral of fewer than four digits belongs to a timestamp below `62^3`. */
  lemma ShortNumeral(timestamp: int)
    requires |Base62Digits(timestamp)| < 4
    ensures timestamp < Pow62(3)
  {
    if timestamp >= Pow62(3) {
      Base62Length(timestamp, 3);
    }
  }

  /** A timestamp of at least `62^3` has a numeral of four or more digits, whose last four
      spell the timestamp modulo `62^4`. */
  lemma LongTimestampSuffix(timestamp: int)
    requires timestamp >= Pow62(3)
    ensures |Base62Digits(timestamp)| >= 4
    ensures DecodeBase62(Base62Digits(timestamp)[|Base62Digits(timestamp)| - 4..]) == timestamp % Pow62(4)
  {
    Base62Length(timestamp, 3);
    LastFourDigits(Base62Digits(timestamp));
    Base62RoundTrip(timestamp);
  }
}
