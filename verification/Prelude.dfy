/** What several modules share. */
module Prelude {
  datatype Option<+T> = None | Some(value: T)

  const SECOND := 1_000_000_000 // nanoseconds

  /** Half a duration, rounded towards zero as Go divides. */
  function Half(d: int): int { if d >= 0 then d / 2 else -(-d / 2) }
}
