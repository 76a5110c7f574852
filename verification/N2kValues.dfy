/** What the bus handlers of `N2KHandler` have in common: the marks for missing values, and `updateWithTimeout`. */
module N2kValues {
  import opened Bytes
  import opened Clock

  const NA: real := -1000000000.0
  const NA32: u32 := 0xFFFF_FFFF
  const NA16: u16 := 0xFFFF

  const HOLD_MS := 10000 // how long a value is held through messages that lack it

  /** `updateWithTimeout`: the value and its stamp after a message carrying `input`. */
  function Update(value: real, input: real, stamp: u32, now: u32): (real, u32) {
    if input != NA then (input, now)
    else if Elapsed(now, stamp) > HOLD_MS then (NA, stamp)
    else (value, stamp)
  }

  /** The same on the two variables the source passes by reference. */
  method UpdateWithTimeout(value: real, input: real, lastUpdate: u32, now: u32) returns (value': real, lastUpdate': u32)
    ensures (value', lastUpdate') == Update(value, input, lastUpdate, now)
  {
    value', lastUpdate' := value, lastUpdate;
    if input == NA {
      if (now - lastUpdate) % 0x1_0000_0000 > HOLD_MS {
        value' := NA;
      }
    } else {
      lastUpdate' := now;
      value' := input;
    }
  }
}
