/** Orientation tracking (hoop_firmware/accel.cpp): two exponentially
    smoothed acceleration averages, a saturating tilt counter and the
    "down" angle derived from the averages.

    The sensor transaction is not modelled: each update takes the sample
    (x reading, y reading, status byte) the sensor returned. */
module Accel {
  import opened FixedWidth
  import Trig

  const MAX_TILT_COUNT := 10
  /** Status bit 4 is the sensor's tilt indicator. */
  const TILT_BIT: bv8 := 0x10

  datatype Sample = Sample(x: i8, y: i8, status: bv8)

  /** The module's state: `accel_x`, `accel_y`, `down_angle`, `tilt_count`. */
  datatype Estimate = Estimate(accelX: i16, accelY: i16, downAngle: u16, tiltCount: u8)

  /** Static storage starts zeroed. */
  const Initial := Estimate(0, 0, 0, 0)

  predicate Tilted(status: bv8) {
    status & TILT_BIT != 0
  }

  /** `update_avg`: avg := 3 * (avg / 4) + 64 * reading in 16-bit `int`
      arithmetic. No step overflows, and the new average is, within the
      error of the truncating division, 3/4 of the old one plus the reading
      scaled by 64; its fixed point is 256 * reading. */
  function UpdateAvg(reading: i8, avg: i16): (r: i16)
    ensures -0x8000 <= 3 * Quot(avg, 4) + 64 * reading <= 32701
    ensures r == 3 * Quot(avg, 4) + 64 * reading
    ensures 3 * avg - 9 <= 4 * (r - 64 * reading) <= 3 * avg + 9
    ensures avg >= 0 ==> 4 * (r - 64 * reading) <= 3 * avg
    ensures avg <= 0 ==> 4 * (r - 64 * reading) >= 3 * avg
    ensures Abs(4 * (r - 256 * reading)) <= 3 * Abs(avg - 256 * reading) + 9
  {
    var scaled := AsI16(3 * Quot(avg, 4));
    var addl := AsI16(reading * 64);
    AsI16(scaled + addl)
  }

  /** A steady reading is a fixed point of the average. */
  lemma UpdateAvgSteady(reading: i8)
    ensures -0x8000 <= 256 * reading < 0x8000
    ensures UpdateAvg(reading, 256 * reading) == 256 * reading
  {
    assert Quot(256 * reading, 4) == 64 * reading;
  }

  /** `update_accel` after the sensor read: a tilted sample only moves the
      saturating counter; any other sample clears the counter, updates both
      averages and recomputes the down angle from them with accel.cpp's
      own copy of `atan2`, which `AccelAtan2` shows equal to atan2.cpp's. */
  function Step(e: Estimate, s: Sample): (r: Estimate)
    ensures Tilted(s.status) ==>
      r.accelX == e.accelX && r.accelY == e.accelY && r.downAngle == e.downAngle
    ensures Tilted(s.status) ==>
      r.tiltCount == if e.tiltCount < MAX_TILT_COUNT then e.tiltCount + 1 else 0xFF
    ensures !Tilted(s.status) ==>
      r.tiltCount == 0 && r.accelX == UpdateAvg(s.x, e.accelX) && r.accelY == UpdateAvg(s.y, e.accelY)
    ensures !Tilted(s.status) ==> r.downAngle == Trig.Atan2(r.accelX, r.accelY)
  {
    if Tilted(s.status) then
      e.(tiltCount := if e.tiltCount < MAX_TILT_COUNT then e.tiltCount + 1 else 0xFF)
    else
      var x := UpdateAvg(s.x, e.accelX);
      var y := UpdateAvg(s.y, e.accelY);
      Estimate(x, y, AccelAtan2(x, y), 0)
  }

  /** The state after a sequence of samples, oldest first. */
  function Run(e: Estimate, samples: seq<Sample>): (r: Estimate)
    ensures (forall k :: 0 <= k < |samples| ==> Tilted(samples[k].status)) ==>
      r.accelX == e.accelX && r.accelY == e.accelY && r.downAngle == e.downAngle
    ensures samples != [] && !Tilted(samples[|samples| - 1].status) ==> r.tiltCount == 0
    decreases |samples|
  {
    if samples == [] then e
    else Step(Run(e, samples[..|samples| - 1]), samples[|samples| - 1])
  }

  /** Only the tilt bit of the status byte matters. */
  lemma StatusOtherBitsIgnored(e: Estimate, s: Sample, noise: bv8)
    requires noise & TILT_BIT == 0
    ensures Step(e, s.(status := s.status ^ noise)) == Step(e, s)
  {
    assert Tilted(s.status ^ noise) == Tilted(s.status);
  }

  /** The values the tilt counter can hold: a count of 0 to 10, or 0xFF once saturated. */
  predicate TiltCountReachable(c: u8) {
    c <= MAX_TILT_COUNT || c == 0xFF
  }

  /** Starting from the initial state, the counter only ever holds 0..10 or 0xFF. */
  lemma {:induction false} TiltCountRange(samples: seq<Sample>)
    ensures TiltCountReachable(Run(Initial, samples).tiltCount)
  {
    if samples != [] {
      TiltCountRange(samples[..|samples| - 1]);
    }
  }

  /** The down angle always agrees with the averages it was computed from:
      true initially (atan2(0, 0) == 0) and kept by every step, since a
      tilted sample changes neither. */
  lemma {:induction false} DownAngleConsistent(samples: seq<Sample>)
    ensures var e := Run(Initial, samples); e.downAngle == Trig.Atan2(e.accelX, e.accelY)
  {
    if samples != [] {
      DownAngleConsistent(samples[..|samples| - 1]);
    }
  }

  /** A run of n consecutive tilted samples counts up to 10 and then
      saturates at 0xFF (where a saturated counter stays), leaving the
      averages and the down angle frozen. */
  lemma {:induction false} ConsecutiveTilts(e: Estimate, samples: seq<Sample>)
    requires TiltCountReachable(e.tiltCount)
    requires forall k :: 0 <= k < |samples| ==> Tilted(samples[k].status)
    ensures Run(e, samples) ==
      e.(tiltCount := if e.tiltCount + |samples| <= MAX_TILT_COUNT then e.tiltCount + |samples| else 0xFF)
  {
    if samples != [] {
      ConsecutiveTilts(e, samples[..|samples| - 1]);
    }
  }

  /** One sample without the tilt bit is enough to clear the counter and
      refresh the down angle, however long the preceding tilt lasted. */
  lemma UntiltedSampleResets(e: Estimate, samples: seq<Sample>, s: Sample)
    requires !Tilted(s.status)
    ensures var r := Run(e, samples + [s]);
      r.tiltCount == 0 && r.downAngle == Trig.Atan2(r.accelX, r.accelY)
  {
    assert (samples + [s])[..|samples|] == samples;
  }

  /** The copy of `atan2` (with its helpers) that accel.cpp carries, as
      written there; it agrees with atan2.cpp's on every input. */
  function AccelAtan2(x: i16, y: i16): (r: u16)
    ensures r == Trig.Atan2(x, y)
  {
    if x == y then
      if y > 0 then 8192 else if y < 0 then 40960 else 0
    else
      var nabsY, nabsX := Trig.SNabs(y), Trig.SNabs(x);
      if nabsX < nabsY then
        var yOverX := Trig.Q15Div(y, x);
        var correction := Trig.Q15Mul(Trig.K1, Trig.SNabs(yOverX));
        var unrotated := Trig.Q15Mul(AsI16(Trig.K2 + correction), yOverX);
        assert unrotated == Trig.Unrotated(yOverX);
        if x < 0 then AsU16(unrotated) else AsU16(32768 + unrotated)
      else
        var xOverY := Trig.Q15Div(x, y);
        var correction := Trig.Q15Mul(Trig.K1, Trig.SNabs(xOverY));
        var unrotated := Trig.Q15Mul(AsI16(Trig.K2 + correction), xOverY);
        assert unrotated == Trig.Unrotated(xOverY);
        if y > 0 then AsU16(16384 - unrotated) else AsU16(49152 - unrotated)
  }

  /** The module's globals, updated in place once per tick. */
  class Tracker {
    var accelX: i16
    var accelY: i16
    var downAngle: u16
    var tiltCount: u8

    function Snapshot(): Estimate
      reads this
    {
      Estimate(accelX, accelY, downAngle, tiltCount)
    }

    constructor ()
      ensures Snapshot() == Initial
    {
      accelX, accelY, downAngle, tiltCount := 0, 0, 0, 0;
    }

    /** `update_accel`, given the three bytes the sensor returned. */
    method UpdateAccel(readingX: i8, readingY: i8, status: bv8)
      modifies this
      ensures Snapshot() == Step(old(Snapshot()), Sample(readingX, readingY, status))
    {
      if status & TILT_BIT != 0 {
        if tiltCount < MAX_TILT_COUNT {
          tiltCount := tiltCount + 1;
        } else {
          tiltCount := 0xFF;
        }
      } else {
        tiltCount := 0;
        accelX := UpdateAvg(readingX, accelX);
        accelY := UpdateAvg(readingY, accelY);
        downAngle := AccelAtan2(accelX, accelY);
      }
    }
  }
}
