# Hoop LED firmware: a verified model of its core

The hoop firmware drives a ring of 60 LEDs on an ATtiny. Each tick it does three things:

- it reads a 2-axis accelerometer, smooths the readings and turns them into a "down" angle with a fixed-point `atan2`;
- it moves five simulated points around the ring, pulled toward that angle, pushing neighbouring points apart and bouncing them off each other;
- it is meant to light, for each point, the LED that the point's angle rounded to 10 bits names, within about 0.56 LED of the point (as written only LEDs 0..5 can light; see the `set_led_pt` row under Findings), through a bit-flag buffer whose counter caps how many LEDs one frame may light.

The model covers that core in Dafny. It has one module per source file:

- `Trig` (`atan2.dfy`) models the fixed-point arctangent.
- `Accel` (`accel.dfy`) models the averages, the tilt counter, the down angle and accel.cpp's copy of the arctangent.
- `LedDriver` (`led_driver.dfy`) models the flag buffer and its counter.
- `Physics` (`physics.dfy`) models the point simulator.
- `FixedWidth` (`fixed_width.dfy`) holds the AVR integer types and C operations that all four rely on. On AVR, `int` is 16 bits.

The model follows the firmware's own shapes:

- Pure computations are functions on values.
- Each file's globals become a class whose methods update them in place:
  - `Accel.Tracker`;
  - `LedDriver.Leds` (the flag buffer is an `array<bv8>`);
  - `Physics.Sim` (the `position` and `velocity` arrays).
- Each method is proved against a specification function of the old state. Properties of those functions are proved as lemmas:
  - with the corrected `scale_velocity` (see Findings), velocities stay within the clamp;
  - the index neighbours 0-1, 1-2, 2-3 and 3-4 end each tick at least one LED apart; the wrap-around pair (4, 0) is fixed first, so the later fix of pair (3, 4) can push point 4 back within one LED of point 0 (`Physics.LastFixUndoesWrap`; a collision pass over points at 0, 20000, 40000, 64400 and 65000 ends with point 4 at 65492, 44 units behind point 0);
  - after a clear, exactly the first `MAX_LEDS_ON` requested LEDs are lit;
  - the down angle always agrees with the averages;
  - `atan2` is total, scale-invariant and has its half-turn and reflection symmetries (though, as written, it does not approximate the arctangent; see Left out).

The model follows the code, not the prose, in these places:

- **Tilt handling.** The firmware has no multi-state tilt hysteresis. A tilted sample only moves a saturating counter: it counts 0..10, then jumps to 0xFF. Any untilted sample clears the counter and updates the averages at once. `Accel.Step` and its lemmas state exactly that.
- **Repeated LED requests.** Asking for an LED that is already lit does not set a second flag, but it does count toward the cap (`LedDriver.MarkRelit`).
- **Reference direction of the angle.** The comment in accel.cpp measures the angle from the positive x-axis. The code returns 0 for the negative x-axis and half a turn for the positive x-axis (`Trig.Atan2Axes`).
- **Diagonals.** Off the diagonals, the octant offsets make reflection in the diagonal map a to 3/4 turn - a. The special case for x == y, and the anti-diagonal's bare offsets, do not follow this rule.
- **Rest state.** "Points at rest with no pull stay put" holds point by point (`Physics.RestingPointStays`). It also holds for the collision pass over a ring whose neighbours are already spaced (`Physics.SpacedRingUnchanged`). It cannot hold for all five points at once with a single down angle: only points less than 256 units from the down angle, or exactly opposite it, feel no pull (`Physics.GravityDeadZone`), and spaced points cannot all lie there.

## Model

| member | source | states |
|---|---|---|
| FixedWidth.AsU16 | hoop_firmware/physics.cpp:79 | conversion to `uint16_t` yields the value congruent to the input mod 2^16, and the value itself when it is in range |
| FixedWidth.AsI16 | hoop_firmware/atan2.cpp:15 | reading the low half of a 32-bit value as `int16_t` yields the value congruent mod 2^16, and the value itself when it fits |
| FixedWidth.Quot | hoop_firmware/accel.cpp:82 | C division truncates toward zero: \|q\|·\|b\| ≤ \|a\| < (\|q\|+1)·\|b\|, and a nonzero q is negative exactly when the signs differ |
| FixedWidth.QuotScale | hoop_firmware/atan2.cpp:14 | scaling numerator and denominator by the same positive factor leaves the truncated quotient unchanged |
| Trig.SNabs | hoop_firmware/atan2.cpp:10-12 | the result is never positive and equals minus the magnitude, also for -32768 |
| Trig.Q15Div | hoop_firmware/atan2.cpp:13-16 | whenever the 32-bit division is defined, `(num << 16) / den` fits in 32 bits and the result is its low half |
| Trig.Q15Mul | hoop_firmware/atan2.cpp:17-20 | the 32-bit product cannot overflow, and the result is its low half |
| Trig.Unrotated | hoop_firmware/atan2.cpp:35-36 | since each `q15_mul` keeps the low half and `K2 + correction` wraps, the result is the integer polynomial (K2 + K1·(-\|t\|))·t reduced to 16 bits, with no Q15 rescaling; it is 0 at t = 0 |
| Trig.Atan2FarFromTrueAngle | hoop_firmware/atan2.cpp:33-38 | direction (-100, 10), about 1040 units from direction (-1, 0) at angle 0, comes out at 32552, about half a turn away |
| Trig.Atan2 | hoop_firmware/atan2.cpp:22-31 | on the diagonal x == y the result is 1/8 turn for y > 0, 5/8 turn for y < 0 and 0 at the origin |
| Trig.Atan2DivisionSafe | hoop_firmware/atan2.cpp:32-45 | each branch divides by the dominant, nonzero coordinate, and the quotient lies strictly between -2^16 and 2^16; it is exactly -2^16 only on the anti-diagonal |
| Trig.RatioBelowOne | hoop_firmware/atan2.cpp:33-34 | a numerator smaller in magnitude than the denominator gives a Q15 quotient below 2^16 in magnitude |
| Trig.Atan2XMajor | hoop_firmware/atan2.cpp:33-41 | when \|x\| > \|y\|, the angle is the polynomial of y/x, offset by half a turn when x > 0 |
| Trig.Atan2YMajor | hoop_firmware/atan2.cpp:42-50 | when \|x\| ≤ \|y\| off the diagonal, the divisor is valid and the angle is a quarter or three quarters of a turn minus the polynomial of x/y |
| Trig.Atan2AntiDiagonal | hoop_firmware/atan2.cpp:42-50 | on the anti-diagonal the quotient's low half is 0, so the angle is exactly 1/4 turn (y > 0) or 3/4 turn (y < 0) |
| Trig.Atan2Axes | hoop_firmware/atan2.cpp:32-50 | the four axis directions map to 0, 1/4, 1/2 and 3/4 turn |
| Trig.Atan2ScaleInvariant | hoop_firmware/accel.cpp:35-36 | the magnitude of the vector does not change its angle: scaling both coordinates by any positive factor that keeps them in range gives the same result |
| Trig.Atan2HalfTurn | hoop_firmware/atan2.cpp:37-50 | negating a nonzero vector with no coordinate at -32768 turns its angle by exactly half a turn |
| Trig.Q15DivNegateBoth | hoop_firmware/atan2.cpp:13-16 | negating both operands does not change the Q15 quotient |
| Trig.HalfTurnOffsets | hoop_firmware/atan2.cpp:37-49 | the offsets of opposite octants differ by half a turn mod 2^16 |
| Trig.Atan2Reflection | hoop_firmware/atan2.cpp:33-50 | off both diagonals, swapping the coordinates maps angle a to 3/4 turn - a |
| Accel.UpdateAvg | hoop_firmware/accel.cpp:81-85 | no step of `3 * (avg / 4) + reading * 64` overflows; the new average is 3/4 of the old plus 64·reading within the truncation error, and it is no farther from 256·reading than 3/4 of the old distance plus 9/4 |
| Accel.UpdateAvgSteady | hoop_firmware/accel.cpp:81-85 | 256·reading is in range and is a fixed point of the average |
| Accel.Step | hoop_firmware/accel.cpp:97-109 | a tilted sample only advances the saturating counter (to 0xFF after 10); an untilted one clears it, updates both averages and sets the down angle to atan2 of the new averages |
| Accel.StatusOtherBitsIgnored | hoop_firmware/accel.cpp:97-98 | only bit 4 of the status byte affects the update |
| Accel.TiltCountRange | hoop_firmware/accel.cpp:98-103 | from power-on, the counter only ever holds 0..10 or 0xFF |
| Accel.DownAngleConsistent | hoop_firmware/accel.cpp:104-108 | after any sequence of samples, the down angle is atan2 of the current averages |
| Accel.Run | hoop_firmware/accel.cpp:88-110 | over a run of samples, the averages and the angle stay frozen while every sample is tilted, and the counter is 0 after an untilted last sample |
| Accel.ConsecutiveTilts | hoop_firmware/accel.cpp:98-103 | from any reachable counter value, including a saturated 0xFF, n consecutive tilted samples add n to the counter up to 10 and then pin it at 0xFF; the averages and the angle stay frozen |
| Accel.UntiltedSampleResets | hoop_firmware/accel.cpp:104-108 | one untilted sample clears the counter and refreshes the angle, however long the tilt lasted |
| Accel.AccelAtan2 | hoop_firmware/accel.cpp:42-72 | accel.cpp's copy of atan2 agrees with atan2.cpp's on every input |
| Accel.Tracker.constructor | hoop_firmware/accel.cpp:74-77 | the globals start zeroed |
| Accel.Tracker.UpdateAccel | hoop_firmware/accel.cpp:88-110 | updating the globals in place yields `Step` of the old globals and the sample |
| LedDriver.Zeros | hoop_firmware/led_driver.cpp:48 | an all-zero buffer has the full flag length and no LED lit |
| LedDriver.Cleared | hoop_firmware/led_driver.cpp:47-50 | after a clear, no LED is lit and the count is 0 |
| LedDriver.PowerOn | hoop_firmware/led_driver.cpp:44 | before the first clear, no flag is set and the count is 0xFF |
| LedDriver.Mark | hoop_firmware/led_driver.cpp:53-60 | at or above the cap a request changes nothing; below it the count rises by one and the buffer keeps its size |
| LedDriver.MarkLights | hoop_firmware/led_driver.cpp:56-59 | below the cap, exactly LED n is added to the lit set |
| LedDriver.MarkRelit | hoop_firmware/led_driver.cpp:55-59 | requesting a lit LED leaves every flag unchanged but still counts below the cap |
| LedDriver.SetBitSpec | hoop_firmware/led_driver.cpp:58-59 | or-ing in `1 << j` sets bit j and leaves every other bit |
| LedDriver.SetBitIdempotent | hoop_firmware/led_driver.cpp:58-59 | or-ing in a bit that is already set changes nothing |
| LedDriver.SetBitLit | hoop_firmware/led_driver.cpp:57-59 | setting the flag at byte n/8, bit n%8, adds exactly n to the lit set |
| LedDriver.MarkKeepsSafe | hoop_firmware/led_driver.cpp:53-60 | a request keeps the invariant "lit ≤ count, and count ≤ cap unless never cleared" |
| LedDriver.MarkAll | hoop_firmware/physics.cpp:109-111 | a frame of requests keeps the buffer's size |
| LedDriver.MarkAllStep | hoop_firmware/physics.cpp:109-111 | each further request of a frame is one more `set_led_active` |
| LedDriver.FirstRequestsSnoc | hoop_firmware/led_driver.cpp:54-55 | one more request is among the first cap-many exactly when fewer than the cap came before it |
| LedDriver.MarksAfterClearLit | hoop_firmware/led_driver.cpp:53-60 | after a clear, the count is min(requests, cap) and the lit LEDs are exactly the first cap-many requested |
| LedDriver.MarksKeepSafe | hoop_firmware/led_driver.cpp:53-60 | any sequence of requests keeps the safety invariant |
| LedDriver.MarksAfterClear | hoop_firmware/led_driver.cpp:47-65 | after a clear and a frame of requests, at most the cap's worth of LEDs are lit, the invariant holds and `update_leds` transmits |
| LedDriver.InertBeforeClear | hoop_firmware/led_driver.cpp:44-65 | before the first clear every request is dropped and `update_leds` does not transmit |
| LedDriver.DeclaredBufferTooShort | hoop_firmware/led_driver.h:7 | LED 59 exists, but its byte index falls outside the declared `N_LEDS/8` bytes; of the 60 LEDs exactly 0..55 have a flag byte there |
| LedDriver.FlagBytesCoverStrip | hoop_firmware/led_driver.cpp:12-14 | with (N_LEDS+7)/8 = 8 bytes, every LED's flag byte exists |
| LedDriver.Transmits | hoop_firmware/led_driver.cpp:63-65 | when the guard lets a frame through from a safe state, at most the cap's worth of LEDs are lit, and a never-cleared buffer (count 0xFF) never passes |
| LedDriver.Leds.constructor | hoop_firmware/led_driver.cpp:41-44 | the driver starts in the power-on state, satisfying its invariant |
| LedDriver.Leds.ClearLedData | hoop_firmware/led_driver.cpp:47-50 | zeroing the buffer in place gives the cleared state |
| LedDriver.Leds.SetLedActive | hoop_firmware/led_driver.cpp:53-60 | the in-place update is `Mark` of the old state and keeps the invariant |
| LedDriver.Leds.UpdateLeds | hoop_firmware/led_driver.cpp:63-65 | it transmits exactly when the count is within the cap, and then at most the cap's worth of LEDs are lit |
| Physics.Initial | hoop_firmware/physics.cpp:12-17 | the points start at 0, 13107, 26214, 39321 and 52428 at rest, each pair of neighbours (and the wrap-around pair) spaced |
| Physics.ShorterArc | hoop_firmware/physics.cpp:79-82 | the signed displacement lies in (-2^15, 2^15] and is congruent to the difference |
| Physics.Gravity | hoop_firmware/physics.cpp:79-85 | the pull is the shorter arc to down divided by 256, truncated toward zero; it is at most 127 in magnitude and zero at down or at exactly half a turn; it points forward when down is less than half a turn ahead and backward when it is more |
| Physics.GravityDeadZone | hoop_firmware/physics.cpp:79-85 | the pull is zero exactly for points less than 256 units from down along the shorter arc and for the point exactly half a turn away |
| Physics.NextVelocity | hoop_firmware/physics.cpp:87-89 | the new velocity is the sum clamped to ±10000 |
| Physics.Advance | hoop_firmware/physics.cpp:90-94 | a velocity v ≥ 0 moves the point forward around the ring by v/16; a negative one moves it back by \|v\|/16 |
| Physics.AdvanceMoves | hoop_firmware/physics.cpp:90-94 | the point moves around the ring by the velocity over 16, truncated toward zero |
| Physics.UpdatePoint | hoop_firmware/physics.cpp:78-95 | both arrays keep five entries |
| Physics.UpdatePointEffect | hoop_firmware/physics.cpp:78-95 | only point i changes; its velocity is within the clamp, and it moves by velocity/16, at most 625 units |
| Physics.WrapCancel | hoop_firmware/physics.cpp:38-39 | subtracting b from the wrapped sum a + b gives back a |
| Physics.Flip | hoop_firmware/physics.cpp:36-41 | the three wrapping additions exchange two distinct words, even when their sum overflows |
| Physics.Swapped | hoop_firmware/physics.cpp:36-41 | `flip_words` on two distinct indices exchanges their velocities; on one index it zeroes it; every other velocity is unchanged |
| Physics.ScaledAsWritten | hoop_firmware/physics.cpp:43-47 | the result is congruent to the 32-bit product v·26214 mod 2^16: its low half, read as signed |
| Physics.ScaledAsWrittenCounterexample | hoop_firmware/physics.cpp:45-46 | 5000 → -2000, -5000 → 2000, 1 → 26214 |
| Physics.Scaled | hoop_firmware/physics.cpp:44-46 | the 0.8 scale never grows the magnitude, never flips the sign (1 becomes 0), and is within 2 units of 0.8·v |
| Physics.ScaledMonotonic | hoop_firmware/physics.cpp:44-46 | scaling preserves order |
| Physics.FixOrdBy | hoop_firmware/physics.cpp:49-64 | whatever the scaling, positions are untouched; for two distinct points the step returns early, changing nothing, when the left velocity is below the right one, and otherwise the two velocities are exchanged and each is scaled; for one point named twice, its velocity becomes the scaling applied twice to 0 |
| Physics.FixOrd | hoop_firmware/physics.cpp:49-64 | with the corrected scaling, positions are untouched |
| Physics.FixOrdAsWritten | hoop_firmware/physics.cpp:49-64 | the step as written: positions untouched; for two distinct points it returns early, changing nothing, when the left velocity is below the right one, otherwise the velocities are exchanged and each keeps only the low half of its product with 26214 |
| Physics.FixOrdAsWrittenFails | hoop_firmware/physics.cpp:45-46 | as written, a head-on pair at 5000 and -5000 leaves with 2000 and -2000, still approaching, and a pair at 1 and 1 leaves the left point at 26214, outside the clamp |
| Physics.FixOrdEffect | hoop_firmware/physics.cpp:49-64 | with the corrected scaling, it returns early exactly when the left point is slower; otherwise the velocities are exchanged and scaled, after which left ≤ right, and the clamp is kept |
| Physics.Fix | hoop_firmware/physics.cpp:66-76 | both arrays keep five entries |
| Physics.FixEffect | hoop_firmware/physics.cpp:66-76 | only j moves; the pair ends at least one LED apart both ways, with j exactly one LED ahead of (or behind) i if it was too close; a spaced pair is unchanged; other velocities are untouched and, with the corrected scaling, the clamp is kept |
| Physics.MoveAhead | hoop_firmware/physics.cpp:69 | a point put one LED ahead is one LED ahead, and a full turn less one LED behind |
| Physics.MoveBehind | hoop_firmware/physics.cpp:73 | a point put one LED behind is one LED behind, and a full turn less one LED ahead |
| Physics.FixPushesAhead | hoop_firmware/physics.cpp:67-70 | a later point less than one LED ahead is put exactly one LED past the earlier one, and no other position changes |
| Physics.PushedBackBehind | hoop_firmware/physics.cpp:69 | a point one LED behind p0 that is pushed to one LED past p3 ends behind p0 by the same gap it had ahead of p3 |
| Physics.LastFixUndoesWrap | hoop_firmware/physics.cpp:103-106 | if the last point is exactly one LED behind point 0 and too close ahead of its predecessor, the fix of pair (3, 4) leaves it less than one LED behind point 0, so the wrap-around pair ends unspaced |
| Physics.FixMovesLater | hoop_firmware/physics.cpp:66-76 | only the later point of the pair moves, and the pair ends spaced |
| Physics.HeadOnCollision | hoop_firmware/physics.cpp:66-70 | with the corrected scaling, points 10 units apart at ±5000 end exactly one LED apart with velocities -4000 and 3999 |
| Physics.CollisionPairsAsWritten | hoop_firmware/physics.cpp:103-107 | the wrap-around pair, then (i, i + 1) for each of the N_PTS values of i: six pairs |
| Physics.PairLoopOutOfBounds | hoop_firmware/physics.cpp:105-106 | the loop's sixth pair is (4, 5), naming a point that does not exist, so the schedule is not in bounds; its first five pairs are the intended schedule |
| Physics.CollisionPairs | hoop_firmware/physics.cpp:102-107 | the wrap-around pair, then each pair of neighbours, all five in bounds and distinct |
| Physics.ResolvePairs | hoop_firmware/physics.cpp:103-107 | both arrays keep five entries |
| Physics.SchedulePrefix | hoop_firmware/physics.cpp:103-107 | every prefix of the intended schedule is in bounds |
| Physics.ResolveStep | hoop_firmware/physics.cpp:103-107 | each further pair is one more `fix_collisions` |
| Physics.UpdateFirst | hoop_firmware/physics.cpp:98-100 | both arrays keep five entries |
| Physics.UpdateFirstOne | hoop_firmware/physics.cpp:98-99 | the first pass of the loop is one `update_pt` |
| Physics.UpdateFirstNext | hoop_firmware/physics.cpp:98-99 | each further pass of the loop is one more `update_pt` |
| Physics.UpdateFirstBounds | hoop_firmware/physics.cpp:87-89 | every updated velocity is within the clamp |
| Physics.Tick | hoop_firmware/physics.cpp:97-107 | one tick (the point updates, then the intended collision schedule) keeps both arrays at five entries |
| Physics.ResolveKeepsBounds | hoop_firmware/physics.cpp:103-107 | with the corrected scaling, the collision pass keeps velocities within the clamp |
| Physics.TickKeepsVelocitiesBounded | hoop_firmware/physics.cpp:97-107 | with the corrected scaling, whatever the state before it, every velocity is within ±10000 after a tick |
| Physics.PrefixSpaced | hoop_firmware/physics.cpp:103-107 | after the first m pairs, the neighbours fixed so far are spaced and point 0 has not moved |
| Physics.SpacedAfterMove | hoop_firmware/physics.cpp:104-107 | moving the point after a spaced prefix keeps the prefix spaced once that point is spaced from its predecessor |
| Physics.TickSpacesNeighbours | hoop_firmware/physics.cpp:97-107 | after a tick the index neighbours 0-1, 1-2, 2-3 and 3-4 are at least one LED apart both ways, and point 0 is where `update_pt` left it; the wrap-around pair (4, 0) is not covered |
| Physics.RestingPointStays | hoop_firmware/physics.cpp:78-95 | a point at rest with no pull on it stays put |
| Physics.SpacedPrefixUnchanged | hoop_firmware/physics.cpp:103-107 | on an already spaced ring, every prefix of the collision pass changes nothing |
| Physics.SpacedRingUnchanged | hoop_firmware/physics.cpp:102-107 | on an already spaced ring, the collision pass changes nothing |
| Physics.PullFromAhead | hoop_firmware/physics.cpp:79-85 | with down at 0, a point in the first half turn is pulled back by its angle over 256 |
| Physics.PullFromBehind | hoop_firmware/physics.cpp:79-85 | with down at 0, a point in the second half turn is pulled forward by its distance to 0 over 256 |
| Physics.PulledFromRest | hoop_firmware/physics.cpp:87-94 | a point at rest takes the pull as its velocity and moves a sixteenth of it |
| Physics.FirstUpdatesFromRest | hoop_firmware/physics.cpp:98-100 | from the initial positions with down at 0, the update loop gives velocities 0, -51, -102, 102, 51 |
| Physics.FirstTickFromRest | hoop_firmware/physics.cpp:97-107 | one full tick from `init_physics` with down at 0 leaves point 0 still and pulls the others toward 0 along the shorter arc, without a collision |
| Physics.Segment | hoop_firmware/physics.cpp:20-23 | the rounded segment is at most the multiplier; with the multiplier 60, LED r's angle r·65536/60 is at most half an LED above the point's angle, and at most half an LED plus the 6 dropped bits below it |
| Physics.SegmentAsWrittenMisplaced | hoop_firmware/physics.cpp:21 | with the multiplier 5, no index exceeds 5, and half a turn lights LED 3 instead of LED 30 |
| Physics.LedIndex | hoop_firmware/physics.cpp:20-24 | the subtraction loop leaves the rounded segment mod 60, a valid LED |
| Physics.SetLedPt | hoop_firmware/physics.cpp:19-26 | with the corrected multiplier 60, the LED that the rounded 10-bit angle names, within about 0.56 LED of the angle, is requested |
| Physics.LedsOf | hoop_firmware/physics.cpp:109-111 | with the corrected multiplier 60, one valid LED per point |
| Physics.Sim.constructor | hoop_firmware/physics.cpp:9-10 | both arrays start zeroed |
| Physics.Sim.InitPhysics | hoop_firmware/physics.cpp:12-17 | the arrays hold the initial state |
| Physics.Sim.FlipWords | hoop_firmware/physics.cpp:36-41 | the two velocities are exchanged, or zeroed when both pointers name the same element |
| Physics.Sim.ScaleVelocity | hoop_firmware/physics.cpp:43-47 | only velocity i changes, to its 0.8 scale |
| Physics.Sim.FixCollisionsOrd | hoop_firmware/physics.cpp:49-64 | the arrays end as `FixOrd` of their old contents |
| Physics.Sim.FixCollisions | hoop_firmware/physics.cpp:66-76 | the arrays end as `Fix` of their old contents |
| Physics.Sim.UpdatePt | hoop_firmware/physics.cpp:78-95 | the arrays end as `UpdatePoint` of their old contents |
| Physics.Sim.UpdatePoints | hoop_firmware/physics.cpp:98-100 | the loop applies `update_pt` to every point in order |
| Physics.Sim.ResolveCollisions | hoop_firmware/physics.cpp:102-107 | the arrays end as the collision pass over the in-bounds schedule |
| Physics.Sim.LightPoints | hoop_firmware/physics.cpp:109-111 | the LED driver ends with every point's LED requested in point order |
| Physics.Sim.UpdatePhysics | hoop_firmware/physics.cpp:97-112 | the arrays end as `Tick` of their old contents, and the driver has each new position's LED requested |

## Left out

- The sensor transaction (hoop_firmware/accel.cpp:89-96) and `init_accel` are left out because they are I/O. `Accel.Tracker.UpdateAccel` takes the three bytes the sensor returned as parameters.
- `init_leds`, the port and pin lookup, and the bit-banged transmission in `update_leds` (hoop_firmware/led_driver.cpp:34-39 and 67-160) are left out because they are GPIO and cycle-timed assembly. `LedDriver.Leds.UpdateLeds` models only the guard that decides whether to transmit.
- `MAX_LEDS_ON` is defined in a header that is not part of this model. It is the constructor parameter `maxLedsOn`, assumed below 0xFF so that the power-on count 0xFF always exceeds it.
- pins.h, the main loop that calls these modules, and geometry.py are not part of this model.
- `down_angle` is a global that `update_pt` reads. In the model it is the `down` parameter of `Physics.Sim.UpdatePt` and `Physics.Sim.UpdatePhysics`.
- `abs` and `STICKY_COLL_THRESHOLD` (hoop_firmware/physics.cpp:32-34) are defined but used nowhere, so they are left out.
- Trig.Atan2: no accuracy bound is stated because, as written, the routine is no approximation of the arctangent. `q15_div` shifts by 16 rather than 15, and `q15_mul` keeps the low half of its product rather than shifting it, so small changes of direction can move the result by half a turn (`Trig.Atan2FarFromTrueAngle`). The model proves totality, the special cases and the symmetries, which hold anyway.
- Accel.UpdateAvg: modelled as a function returning the new average rather than a write through a pointer. The caller assigns it.
- Physics.NextVelocity, Physics.Flip, Trig.Unrotated: signed 16-bit overflow, which C leaves undefined, is modelled as the two's-complement wrap-around avr-gcc produces. This covers `K2 + correction` in `Trig.Unrotated`. (`Accel.UpdateAvg` needs no such assumption: it proves that no step overflows.)
- Trig.Atan2: on AVR `int` is 16 bits, so `32768 + unrotated` and `49152 - unrotated` are computed as `long` and cannot overflow; their conversion to the `uint16_t` result is reduction modulo 2^16, which the model computes with `AsU16`. `16384 - unrotated` is `int` arithmetic and overflows when `unrotated` is below -16383; it is modelled as wrap-around, which gives the same `uint16_t` result.
- Trig.Q15Div: `num << 16` shifts a negative numerator left, which is undefined before C++20. It is modelled as multiplication by 2^16, which is what avr-gcc does.
- Physics.Sim.UpdatePt: computes the gravity term through `Physics.Gravity`, the same steps as lines 79-85. It writes the array elements once, at the end, rather than updating `velocity[i]` and `position[i]` in several statements.
- Physics.Sim.UpdatePhysics: its three loops are the helper methods `UpdatePoints`, `ResolveCollisions` and `LightPoints`. It uses the corrected pair schedule and the corrected LED multiplier (see Findings).
- Physics.Sim.ScaleVelocity: uses the corrected scaling (see Findings).
- Physics.FixOrd: uses the corrected scaling (see Findings). `Physics.FixOrdAsWritten` is the same step with the scaling as written.
- Physics.FixOrdEffect: states left ≤ right and the kept clamp for the corrected scaling only; as written both fail (`Physics.FixOrdAsWrittenFails`).
- Physics.FixEffect: its clamp clause holds for the corrected scaling only.
- Physics.HeadOnCollision: computed with the corrected scaling; as written the pair leaves at 2000 and -2000, still approaching.
- Physics.ResolveKeepsBounds: holds for the corrected scaling only; as written a pair at 1 and 1 leaves the clamp.
- Physics.TickKeepsVelocitiesBounded: holds for the corrected scaling only, for the same reason.
- Physics.Tick: uses the corrected scaling and the corrected pair schedule (see Findings).
- Physics.Fix, Physics.ResolvePairs, Physics.Sim.FixCollisionsOrd, Physics.Sim.FixCollisions, Physics.Sim.ResolveCollisions: compute velocities with the corrected scaling, through `Physics.FixOrd`. As written, a head-on pair at 5000 and -5000 leaves at 2000 and -2000 (`Physics.FixOrdAsWrittenFails`).
- Physics.TickSpacesNeighbours: covers the index neighbours only. The wrap-around pair (4, 0) is fixed first, so the later fix of pair (3, 4) can leave point 4 within one LED of point 0 (`Physics.LastFixUndoesWrap`), and the firmware does not prevent that.
- Physics.SetLedPt: uses the corrected multiplier 60 (see Findings).
- Physics.LedsOf: uses the corrected multiplier 60 (see Findings).
- Physics.Sim.LightPoints: uses the corrected multiplier 60, through `Physics.SetLedPt`.
- Physics.FixEffect, Physics.FixOrdEffect: assume the two indices differ, as every pair of the schedule does. With equal indices, only the aliasing behaviour of `Physics.Fix` follows the code: `flip_words` zeroes the aliased word (`Physics.Swapped`), after which the corrected scaling applies.
- LedDriver.Zeros, LedDriver.Cleared, LedDriver.PowerOn, LedDriver.Mark, LedDriver.MarkAll, LedDriver.Leds.constructor, LedDriver.Leds.ClearLedData: use the corrected 8-byte flag buffer (see Findings). As written, `active_flags` and the memset of `clear_led_data` cover 7 bytes, so a request for LED 56..59 writes one byte past the array, which no clear ever zeroes.
- LedDriver.Leds.SetLedActive: requires n < 64 so that the byte written is inside the corrected 8-byte buffer. The firmware does not check n, and `set_led_pt` only passes indices below 60.

## Findings

| source | as written | input that shows it | evidently intended | confidence | as-written member | corrected member |
|---|---|---|---|---|---|---|
| hoop_firmware/physics.cpp:105-106 | the neighbour loop runs i from 0 to N_PTS - 1 and calls `fix_collisions(i, i + 1)` | i = 4 calls `fix_collisions(4, 5)`, which reads and writes `position[5]` and `velocity[5]`, one past both arrays | stop at i < N_PTS - 1, so the five pairs are the wrap-around pair and the four neighbour pairs | high; not executed | Physics.PairLoopOutOfBounds | Physics.CollisionPairs |
| hoop_firmware/physics.cpp:21 | the scaled angle is multiplied by `N_PTS` (5); its comment says 60 | angle 0x8000 (half a turn) lights LED 3; only LEDs 0..5 can ever light | multiply by `N_LEDS` (60), giving LED 30 at half a turn | high; not executed | Physics.SegmentAsWrittenMisplaced | Physics.Segment |
| hoop_firmware/led_driver.h:7 | `N_LED_BYTES` is `N_LEDS/8` = 7 | `set_led_active(59)` writes `active_flags[7]`, past the 7-byte array; LEDs 56..59 have no flag byte | round up to 8 bytes, as led_driver.cpp:12-14 describes | high; not executed | LedDriver.DeclaredBufferTooShort | LedDriver.FlagBytesCoverStrip |
| hoop_firmware/physics.cpp:45-46 | `scale_velocity` keeps the low 16 bits of v·26214 | v = 5000 becomes -2000 and v = 1 becomes 26214; after a head-on collision at ±5000 the points still approach | keep the Q15 product (v·26214) >> 15, that is 0.8·v | high; not executed | Physics.FixOrdAsWrittenFails | Physics.FixOrdEffect |
