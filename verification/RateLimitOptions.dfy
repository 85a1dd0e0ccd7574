/** What the three limiters do with the numbers they are given. */
module RateLimitOptions {
  import opened Wrappers

  /** `normalizePositiveInteger`: rejects numbers that are not positive, and floors the rest (0.5 becomes 0). */
  function NormalizePositiveInteger(value: real): Result<int> {
    if value <= 0.0 then Err("must be a positive number") else Ok(value.Floor)
  }
}
