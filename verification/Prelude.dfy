/** Types shared by every part of the model. */
module Prelude {

  datatype Option<+T> = None | Some(value: T)

  datatype Result<+T, +E> = Ok(value: T) | Err(error: E)

  const MAX_UINT: int := 0xFFFF_FFFF_FFFF_FFFF

  /** The source's 64-bit unsigned identifiers. */
  type Id = x: int | 0 <= x <= MAX_UINT

  /** An instant, in nanoseconds since the zero time of Go's `time` package. */
  type Time = int

  const ZERO_TIME: Time := 0
  const MINUTE: int := 60_000_000_000
  const MAX_DURATION: int := 0x7FFF_FFFF_FFFF_FFFF
  const MIN_DURATION: int := -0x8000_0000_0000_0000

  /** `a.Sub(b)`: a 64-bit count of nanoseconds that saturates instead of wrapping around. */
  function TimeSub(a: Time, b: Time): (d: int)
    ensures MIN_DURATION <= a - b <= MAX_DURATION ==> d == a - b
    ensures MIN_DURATION <= d <= MAX_DURATION && (d < a - b ==> d == MAX_DURATION) && (d > a - b ==> d == MIN_DURATION)
  {
    if a - b > MAX_DURATION then MAX_DURATION
    else if a - b < MIN_DURATION then MIN_DURATION
    else a - b
  }

  /** `d / 2` on a Go duration, which truncates toward zero. */
  function Half(d: int): (h: int)
    ensures if d >= 0 then 0 <= d - 2 * h <= 1 else 0 <= 2 * h - d <= 1
  {
    if d >= 0 then d / 2 else -((-d) / 2)
  }
}
