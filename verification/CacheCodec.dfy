/**
 The binary form of a cached response: magic, status, TTL, a 16-bit length and the ETag, a 32-bit length
 and the headers, and the body to the end. Numbers are big-endian and wrap at their width.
 */
module CacheCodec {
  import opened CacheEntry

  type bytes = seq<byte>

  const MAGIC: bytes := [0x0b, 0x1a, 0x0c, 0x01]

  // How headers become bytes and back, and how a whole entry is read that was stored as JSON; the text of JSON itself
  // is not part of this model.
  datatype JsonFormat =
    JsonFormat(encode: Headers -> bytes, decode: bytes -> DecodedHeaders, entry: bytes -> DecodedEntry)

  datatype DecodedHeaders = BadHeaders | GoodHeaders(headers: Headers)

  datatype DecodedEntry = BadEntry | GoodEntry(entry: UpstreamCacheEntry)

  ghost predicate RoundTrips(f: JsonFormat) {
    forall h {:trigger f.encode(h)} :: f.decode(f.encode(h)) == GoodHeaders(h)
  }

  // OutOfRange stands for the slice the decoder takes past the end of its input.
  datatype Decoded = Ok(entry: UpstreamCacheEntry) | TooShort | BadETagLength | BadHeadersLength | BadHeadersFormat
    | OutOfRange | BadJson

  // The lowest width bytes of a number, highest first.
  function PutUint(n: int, width: nat): (b: bytes)
    ensures |b| == width
    decreases width
  {
    if width == 0 then [] else PutUint(n / 256, width - 1) + [(n % 256) as byte]
  }

  function Uint(b: bytes): nat {
    if b == [] then 0 else Uint(b[..|b| - 1]) * 256 + b[|b| - 1] as int
  }

  function Limit(width: nat): nat {
    if width == 0 then 1 else 256 * Limit(width - 1)
  }

  /** A number comes back exactly when it fits its width. */
  lemma {:induction false} UintRoundTrip(n: int, width: nat)
    ensures Uint(PutUint(n, width)) == n <==> 0 <= n < Limit(width)
    ensures n >= 0 ==> Uint(PutUint(n, width)) <= n
    decreases width
  {
    if width > 0 {
      UintRoundTrip(n / 256, width - 1);
      var b := PutUint(n, width);
      assert b[..width - 1] == PutUint(n / 256, width - 1);
    }
  }

  function Encode(e: UpstreamCacheEntry, f: JsonFormat): bytes {
    var h := f.encode(e.headers);
    MAGIC + PutUint(e.statusCode, 4) + PutUint(e.ttlSec, 4) + PutUint(|e.etag|, 2) + e.etag + PutUint(|h|, 4) + h +
    e.body
  }

  function Decode(data: bytes, f: JsonFormat): Decoded {
    if |data| < 4 || data[..4] != MAGIC then
      match f.entry(data)
      case BadEntry => BadJson
      case GoodEntry(e) => Ok(e)
    else if |data| < 18 then TooShort
    else
      var etagEnd := 14 + Uint(data[12..14]);
      if etagEnd > |data| then BadETagLength
      else if etagEnd + 4 > |data| then OutOfRange
      else
        var headersEnd := etagEnd + 4 + Uint(data[etagEnd..etagEnd + 4]);
        if headersEnd > |data| then BadHeadersLength
        else
          match f.decode(data[etagEnd + 4..headersEnd])
          case BadHeaders => BadHeadersFormat
          case GoodHeaders(h) =>
            Ok(UpstreamCacheEntry(Uint(data[4..8]), h, data[headersEnd..], data[14..etagEnd], Uint(data[8..12])))
  }

  // The entry's fields fit the widths they are written with.
  predicate Representable(e: UpstreamCacheEntry, f: JsonFormat) {
    0 <= e.statusCode < 0x1_0000_0000 && 0 <= e.ttlSec < 0x1_0000_0000 &&
    |e.etag| < 0x1_0000 && |f.encode(e.headers)| < 0x1_0000_0000
  }

  // What the decoder reads back first from encoder output.
  lemma EncodedPrefix(e: UpstreamCacheEntry, f: JsonFormat)
    ensures
      var d, h := Encode(e, f), f.encode(e.headers);
      |d| == 18 + |e.etag| + |h| + |e.body| && d[..4] == MAGIC &&
      d[4..8] == PutUint(e.statusCode, 4) && d[8..12] == PutUint(e.ttlSec, 4) && d[12..14] == PutUint(|e.etag|, 2)
  {
    var h := f.encode(e.headers);
    var rest := e.etag + PutUint(|h|, 4) + h + e.body;
    FiveParts(MAGIC, PutUint(e.statusCode, 4), PutUint(e.ttlSec, 4), PutUint(|e.etag|, 2), rest);
    assert Encode(e, f) == MAGIC + PutUint(e.statusCode, 4) + PutUint(e.ttlSec, 4) + PutUint(|e.etag|, 2) + rest;
  }

  lemma EncodedRest(e: UpstreamCacheEntry, f: JsonFormat)
    ensures
      var d, h, end := Encode(e, f), f.encode(e.headers), 14 + |e.etag|;
      d[14..end] == e.etag && d[end..end + 4] == PutUint(|h|, 4) &&
      d[end + 4..end + 4 + |h|] == h && d[end + 4 + |h|..] == e.body
  {
    var start := MAGIC + PutUint(e.statusCode, 4) + PutUint(e.ttlSec, 4) + PutUint(|e.etag|, 2);
    assert |start| == 14;
    FiveParts(start, e.etag, PutUint(|f.encode(e.headers)|, 4), f.encode(e.headers), e.body);
  }

  lemma FiveParts(a: bytes, b: bytes, c: bytes, d: bytes, e: bytes)
    ensures
      var all, i, j, k := a + b + c + d + e, |a| + |b|, |a| + |b| + |c|, |a| + |b| + |c| + |d|;
      |all| == k + |e| && all[..|a|] == a && all[|a|..i] == b && all[i..j] == c && all[j..k] == d && all[k..] == e
  {
  }

  // What the decoder says when it succeeds on binary data: where the ETag and the body were cut.
  lemma DecodedParts(d: bytes, f: JsonFormat, e: UpstreamCacheEntry)
    requires |d| >= 18 && d[..4] == MAGIC && Decode(d, f) == Ok(e)
    ensures
      var end := 14 + Uint(d[12..14]);
      |e.etag| == Uint(d[12..14]) && end + 4 <= |d| && |e.body| == |d| - (end + 4 + Uint(d[end..end + 4]))
  {
  }

  // An entry too wide for a length field does not come back: something is cut short.
  lemma WideIsLost(e: UpstreamCacheEntry, f: JsonFormat)
    requires |e.etag| >= 0x1_0000 || |f.encode(e.headers)| >= 0x1_0000_0000
    ensures Decode(Encode(e, f), f) != Ok(e)
  {
    var d, h := Encode(e, f), f.encode(e.headers);
    EncodedPrefix(e, f);
    EncodedRest(e, f);
    UintRoundTrip(|e.etag|, 2);
    UintRoundTrip(|h|, 4);
    if Decode(d, f) == Ok(e) {
      DecodedParts(d, f, e);
    }
  }

  // With lengths that fit, only the two numbers can come back changed.
  lemma FittingDecodes(e: UpstreamCacheEntry, f: JsonFormat)
    requires RoundTrips(f) && |e.etag| < 0x1_0000 && |f.encode(e.headers)| < 0x1_0000_0000
    ensures Decode(Encode(e, f), f)
         == Ok(e.(statusCode := Uint(PutUint(e.statusCode, 4)), ttlSec := Uint(PutUint(e.ttlSec, 4))))
  {
    EncodedPrefix(e, f);
    EncodedRest(e, f);
    UintRoundTrip(|e.etag|, 2);
    UintRoundTrip(|f.encode(e.headers)|, 4);
  }

  /** Decoding undoes encoding exactly for the entries whose fields fit their widths. */
  lemma RoundTrip(e: UpstreamCacheEntry, f: JsonFormat)
    requires RoundTrips(f)
    ensures Decode(Encode(e, f), f) == Ok(e) <==> Representable(e, f)
  {
    if |e.etag| >= 0x1_0000 || |f.encode(e.headers)| >= 0x1_0000_0000 {
      WideIsLost(e, f);
    } else {
      FittingDecodes(e, f);
      UintRoundTrip(e.statusCode, 4);
      UintRoundTrip(e.ttlSec, 4);
    }
  }

  /** Whatever the entry, even one that does not fit its widths, the decoder stays inside what the encoder wrote. */
  lemma NeverOutOfRange(e: UpstreamCacheEntry, f: JsonFormat)
    ensures Decode(Encode(e, f), f) !in {OutOfRange, TooShort, BadETagLength, BadJson}
  {
    EncodedPrefix(e, f);
    UintRoundTrip(|e.etag|, 2);
  }

  // --- the buffers ---

  lemma SplitsAt(s: bytes, i: nat)
    requires i <= |s|
    ensures s == s[..i] + s[i..]
  {
  }

  // Writes at idx and moves past it; what was written before stays.
  method Put(buf: array<byte>, idx: nat, src: bytes) returns (next: nat)
    requires idx + |src| <= buf.Length
    modifies buf
    ensures next == idx + |src| && buf[..next] == old(buf[..idx]) + src
  {
    for i := 0 to |src|
      invariant buf[..idx] == old(buf[..idx])
      invariant buf[idx..idx + i] == src[..i]
    {
      buf[idx + i] := src[i];
    }
    next := idx + |src|;
    SplitsAt(buf[..next], idx);
    assert buf[..next][..idx] == buf[..idx] && buf[..next][idx..] == buf[idx..next] == src;
  }

  function Prologue(e: UpstreamCacheEntry): (p: bytes)
    ensures |p| == 14
  {
    MAGIC + PutUint(e.statusCode, 4) + PutUint(e.ttlSec, 4) + PutUint(|e.etag|, 2)
  }

  method PutPrologue(buf: array<byte>, e: UpstreamCacheEntry) returns (idx: nat)
    requires buf.Length >= 14
    modifies buf
    ensures idx == 14 && buf[..idx] == Prologue(e)
  {
    var status, ttl, etagLen := PutUint(e.statusCode, 4), PutUint(e.ttlSec, 4), PutUint(|e.etag|, 2);
    idx := Put(buf, 0, MAGIC);
    assert buf[..idx] == MAGIC;
    idx := Put(buf, idx, status);
    idx := Put(buf, idx, ttl);
    idx := Put(buf, idx, etagLen);
  }

  method MarshalBinary(e: UpstreamCacheEntry, f: JsonFormat) returns (buf: array<byte>)
    ensures fresh(buf) && buf[..] == Encode(e, f)
  {
    var headers := f.encode(e.headers);
    var headersLen := PutUint(|headers|, 4);
    var totalSize := 14 + |e.etag| + 4 + |headers| + |e.body|;
    buf := new byte[totalSize](_ => 0);
    var idx := PutPrologue(buf, e);
    idx := Put(buf, idx, e.etag);
    idx := Put(buf, idx, headersLen);
    idx := Put(buf, idx, headers);
    idx := Put(buf, idx, e.body);
    assert buf[..] == buf[..idx];
    assert Encode(e, f) == Prologue(e) + e.etag + headersLen + headers + e.body;
  }

  method UnmarshalBinary(data: bytes, f: JsonFormat) returns (r: Decoded)
    ensures r == Decode(data, f)
  {
    if |data| < |MAGIC| || data[0..|MAGIC|] != MAGIC {
      var entry := f.entry(data);
      return if entry.GoodEntry? then Ok(entry.entry) else BadJson;
    }
    if |data| < 18 {
      return TooShort;
    }
    var statusCode, ttlSec := Uint(data[4..8]), Uint(data[8..12]);
    var idx := 12;
    var etagLen := Uint(data[idx..idx + 2]);
    idx := idx + 2;
    if idx + etagLen > |data| {
      return BadETagLength;
    }
    var etag := data[idx..idx + etagLen];
    idx := idx + etagLen;
    if idx + 4 > |data| {
      return OutOfRange;
    }
    var headersLen := Uint(data[idx..idx + 4]);
    idx := idx + 4;
    if idx + headersLen > |data| {
      return BadHeadersLength;
    }
    var headers := f.decode(data[idx..idx + headersLen]);
    if headers == BadHeaders {
      return BadHeadersFormat;
    }
    idx := idx + headersLen;
    return Ok(UpstreamCacheEntry(statusCode, headers.headers, data[idx..], etag, ttlSec));
  }

  // --- the layout ---

  // Four bytes, the highest first.
  predicate BigEndian(b: bytes, n: int) {
    |b| == 4 && 0 <= n < 0x1_0000_0000 &&
    n == b[0] as int * 0x100_0000 + b[1] as int * 0x1_0000 + b[2] as int * 0x100 + b[3] as int
  }

  lemma FourBytes(n: int)
    requires 0 <= n < 0x1_0000_0000
    ensures BigEndian(PutUint(n, 4), n)
  {
    var a, b, c, d := n / 0x100_0000, n / 0x1_0000, n / 0x100, n;
    assert PutUint(a, 1) == PutUint(0, 0) + [(a % 256) as byte];
    assert b / 256 == a && c / 256 == b && d / 256 == c;
    assert PutUint(n, 4) == [(a % 256) as byte, (b % 256) as byte, (c % 256) as byte, (d % 256) as byte];
  }

  lemma TwoAt(b: bytes, i: nat)
    requires i + 2 <= |b|
    ensures b[i..i + 2] == [b[i], b[i + 1]]
  {
  }

  lemma TwoBytes(n: int)
    requires 0 <= n < 0x1_0000
    ensures PutUint(n, 2) == [(n / 0x100) as byte, (n % 0x100) as byte]
  {
    assert PutUint(n / 256, 1) == PutUint(n / 256 / 256, 0) + [(n / 256 % 256) as byte];
  }

  /**
   Where everything is in the bytes: the mark, the status and the TTL in four bytes each, the ETag after its length in
   two, the headers as JSON after theirs in four, and the body to the end.
   */
  lemma LayoutIs(e: UpstreamCacheEntry, f: JsonFormat)
    requires Representable(e, f)
    ensures
      var b, n, h := Encode(e, f), |e.etag|, f.encode(e.headers);
      |b| == 18 + n + |h| + |e.body| && b[..4] == MAGIC && BigEndian(b[4..8], e.statusCode) &&
      BigEndian(b[8..12], e.ttlSec) && b[12] as int * 0x100 + b[13] as int == n && b[14..14 + n] == e.etag &&
      BigEndian(b[14 + n..18 + n], |h|) && b[18 + n..18 + n + |h|] == h && b[18 + n + |h|..] == e.body
  {
    EncodedPrefix(e, f);
    EncodedRest(e, f);
    TwoAt(Encode(e, f), 12);
    FourBytes(e.statusCode);
    FourBytes(e.ttlSec);
    FourBytes(|f.encode(e.headers)|);
    TwoBytes(|e.etag|);
  }
}
