/** One cached upstream response. */
module CacheEntry {
  newtype byte = x: int | 0 <= x < 256

  type Headers = map<string, seq<string>>

  datatype UpstreamCacheEntry =
    UpstreamCacheEntry(statusCode: int, headers: Headers, body: seq<byte>, etag: seq<byte>, ttlSec: int)
}
