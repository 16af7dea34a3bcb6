/** One tier of a rate limit, as the control plane sends it and the gateway applies it. */
module RateLimitTier {
  datatype Tier = Tier(limit: int, windowSec: int)
}
