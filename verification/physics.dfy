/** The particle simulator (hoop_firmware/physics.cpp): five points on a
    ring of 65536 angle units, each pulled along the shorter arc toward the
    "down" angle, with clamped velocities, a minimum spacing of one LED
    between neighbours, and a lossy exchange of velocities when two points
    collide. After each tick every point lights the LED that its angle,
    rounded to 10 bits, names: within about 0.56 LED of the point. */
module Physics {
  import opened FixedWidth
  import LedDriver

  const N_PTS := 5
  /** 65536 / 5: the initial spacing of the points. */
  const INIT_POS := 0x1_0000 / N_PTS
  const MAX_VELOCITY := 10000
  /** 65536 / 60: the angle one LED spans, and the minimum spacing. */
  const REV_PER_LED := 0x1_0000 / LedDriver.N_LEDS
  /** 0.8 in Q15. */
  const V_SCALE := 26214

  /** The contents of the global arrays `position` and `velocity`. */
  datatype World = World(pos: seq<u16>, vel: seq<i16>)

  predicate WellFormed(w: World) {
    |w.pos| == N_PTS && |w.vel| == N_PTS
  }

  predicate VelocitiesBounded(vel: seq<i16>) {
    forall k :: 0 <= k < |vel| ==> -MAX_VELOCITY <= vel[k] <= MAX_VELOCITY
  }

  /** How far b lies ahead of a around the ring, as the firmware's unsigned
      16-bit difference `b - a`. */
  function Gap(a: u16, b: u16): u16 {
    AsU16(b - a)
  }

  /** Two positions at least one LED apart in both directions. */
  predicate Spaced(a: u16, b: u16) {
    Gap(a, b) >= REV_PER_LED && Gap(b, a) >= REV_PER_LED
  }

  /** `init_physics`: points evenly spaced from 0, all at rest. */
  function Initial(): (w: World)
    ensures WellFormed(w) && w.vel == [0, 0, 0, 0, 0]
    ensures w.pos == [0, 13107, 26214, 39321, 52428]
    ensures forall k :: 0 <= k < N_PTS - 1 ==> Spaced(w.pos[k], w.pos[k + 1])
    ensures Spaced(w.pos[0], w.pos[N_PTS - 1])
  {
    World(seq(N_PTS, i requires 0 <= i < N_PTS => (i * INIT_POS) as u16), seq(N_PTS, _ => 0))
  }

  /** The signed displacement from a to b along the shorter arc; exactly
      half a turn counts as forward. */
  function ShorterArc(a: u16, b: u16): (d: int)
    ensures -0x8000 < d <= 0x8000 && (d - (b - a)) % 0x1_0000 == 0
  {
    var g := Gap(a, b);
    if g <= 0x8000 then g else g - 0x1_0000
  }

  /** The gravity term of `update_pt`: the shorter arc from the point to
      down, divided by 256 (truncating toward zero), except that exactly
      half a turn pulls neither way. */
  function Gravity(down: u16, p: u16): (g: i16)
    ensures -127 <= g <= 127
    ensures g == if ShorterArc(p, down) == 0x8000 then 0 else Quot(ShorterArc(p, down), 256)
    ensures down == p || Gap(p, down) == 0x8000 ==> g == 0
    ensures Gap(p, down) < 0x8000 ==> g >= 0
    ensures Gap(p, down) > 0x8000 ==> g <= 0
  {
    var raw := Gap(p, down);
    var flip := raw > 0x8000;
    var raw := if raw == 0x8000 then 0 else raw;
    var raw := if flip then AsU16((0xFFFF - raw) + 1) else raw;
    var gravity := AsI16(raw / 256);
    if flip then -gravity else gravity
  }

  /** The points that feel no pull are exactly those less than 256 units
      from the down angle along the shorter arc, and the one exactly
      opposite it. */
  lemma GravityDeadZone(down: u16, p: u16)
    ensures Gravity(down, p) == 0 <==> Abs(ShorterArc(p, down)) < 256 || ShorterArc(p, down) == 0x8000
  {
    var d := ShorterArc(p, down);
    if d != 0x8000 {
      var q := Quot(d, 256);
      assert Abs(q) * 256 <= Abs(d) < (Abs(q) + 1) * 256;
      if Abs(q) >= 1 {
        MulLeMono(1, Abs(q), 256);
      }
    }
  }

  /** `velocity[i] += gravity` in 16-bit arithmetic, then clamped to
      [-MAX_VELOCITY, MAX_VELOCITY]. */
  function NextVelocity(v: i16, g: i16): (r: i16)
    ensures -MAX_VELOCITY <= r <= MAX_VELOCITY
    ensures -0x8000 <= v + g < 0x8000 ==>
      r == if v + g > MAX_VELOCITY then MAX_VELOCITY
           else if v + g < -MAX_VELOCITY then -MAX_VELOCITY
           else v + g
  {
    var s := AsI16(v + g);
    if s > MAX_VELOCITY then MAX_VELOCITY
    else if s < -MAX_VELOCITY then -MAX_VELOCITY
    else s
  }

  /** The position step of `update_pt`: a positive velocity moves the
      point forward around the ring by v / 16, any other moves it back by
      |v| / 16. */
  function Advance(p: u16, v: i16): (r: u16)
    ensures v >= 0 ==> Gap(p, r) == v / 16
    ensures v < 0 ==> Gap(r, p) == -(v as int) / 16
  {
    if v > 0 then AsU16(p + AsU16(v) / 16) else AsU16(p - AsU16(-(v as int)) / 16)
  }

  /** The point moves around the ring by exactly v / 16, truncated toward
      zero, in the direction of v. */
  lemma AdvanceMoves(p: u16, v: i16)
    ensures (Advance(p, v) - p - Quot(v, 16)) % 0x1_0000 == 0
    ensures Abs(Quot(v, 16)) == Abs(v) / 16
  {
  }

  /** `update_pt(i)`: the gravity term joins point i's velocity, which is
      clamped, and the point advances by the clamped velocity. */
  function UpdatePoint(w: World, down: u16, i: nat): (r: World)
    requires WellFormed(w) && i < N_PTS
    ensures WellFormed(r)
  {
    var v := NextVelocity(w.vel[i], Gravity(down, w.pos[i]));
    World(w.pos[i := Advance(w.pos[i], v)], w.vel[i := v])
  }

  /** Only point i changes; its velocity ends within the clamp, and its
      position moves by that velocity over 16 (at most 625 units) around
      the ring. */
  lemma UpdatePointEffect(w: World, down: u16, i: nat)
    requires WellFormed(w) && i < N_PTS
    ensures var r := UpdatePoint(w, down, i);
      && r.vel == w.vel[i := r.vel[i]] && r.pos == w.pos[i := r.pos[i]]
      && -MAX_VELOCITY <= r.vel[i] <= MAX_VELOCITY
      && (r.pos[i] - w.pos[i] - Quot(r.vel[i], 16)) % 0x1_0000 == 0
      && Abs(Quot(r.vel[i], 16)) <= 625
  {
    AdvanceMoves(w.pos[i], NextVelocity(w.vel[i], Gravity(down, w.pos[i])));
  }

  lemma WrapCancel(a: i16, b: i16)
    ensures AsI16(AsI16(a + b) - b) == a
  {
    AsI16Congruent(AsI16(a + b) - b, a);
  }

  /** `flip_words` on two distinct words: the three wrapping additions
      exchange them, even when the intermediate sum overflows. */
  function Flip(w1: i16, w2: i16): (r: (i16, i16))
    ensures r == (w2, w1)
  {
    var s := AsI16(w1 + w2);
    var second := AsI16(s - w2);
    var first := AsI16(s - second);
    WrapCancel(w1, w2);
    WrapCancel(w2, w1);
    (first, second)
  }

  /** The velocities after `flip_words(&vel[l], &vel[r])`: exchanged, or
      zeroed when both pointers name the same word. */
  function Swapped(vel: seq<i16>, l: nat, r: nat): (s: seq<i16>)
    requires l < |vel| && r < |vel|
    ensures |s| == |vel|
    ensures l != r ==> s[l] == vel[r] && s[r] == vel[l]
    ensures l == r ==> s[l] == 0
    ensures forall k :: 0 <= k < |vel| && k != l && k != r ==> s[k] == vel[k]
  {
    if l == r then vel[l := 0] else vel[l := vel[r]][r := vel[l]]
  }

  /** `scale_velocity` as written: the low 16 bits of the 32-bit product
      v * 26214, read as signed. */
  function ScaledAsWritten(v: i16): (r: i16)
    ensures (r - v * V_SCALE) % 0x1_0000 == 0
  {
    AsI16(v * V_SCALE)
  }

  /** Keeping the low half neither shrinks nor keeps the sign: 5000 becomes
      -2000, and 1 becomes 26214, beyond the velocity clamp. A head-on
      collision at 5000 and -5000 therefore leaves the points approaching. */
  lemma ScaledAsWrittenCounterexample()
    ensures ScaledAsWritten(5000) == -2000 && ScaledAsWritten(-5000) == 2000
    ensures ScaledAsWritten(1) == 26214 > MAX_VELOCITY
    ensures ScaledAsWritten(-5000) > ScaledAsWritten(5000)
  {
    assert 5000 * V_SCALE == 2000 * 0x1_0000 - 2000;
    assert -5000 * V_SCALE == -2000 * 0x1_0000 + 2000;
  }

  /** `scale_velocity` as intended: v * 0.8, the 32-bit product shifted
      right by 15 (rounding toward minus infinity). The result is never
      larger in magnitude, never flips the sign (1 becomes 0), and is 0.8 v
      to within 2 units. */
  function Scaled(v: i16): (r: i16)
    ensures Abs(r) <= Abs(v)
    ensures (v > 0 ==> r >= 0) && (v < 0 ==> r < 0) && (v == 0 ==> r == 0)
    ensures 4 * v - 6 <= 5 * r <= 4 * v + 2
  {
    (v * V_SCALE) / 0x8000
  }

  lemma ScaledMonotonic(a: i16, b: i16)
    requires a <= b
    ensures Scaled(a) <= Scaled(b)
  {
  }

  /** `fix_collisions_ord(l, r)` with a given `scale_velocity`: the
      velocities are flipped and each is scaled, unless the left point is
      slower than the right one. */
  function FixOrdBy(w: World, l: nat, r: nat, scale: i16 -> i16): (res: World)
    requires WellFormed(w) && l < N_PTS && r < N_PTS
    ensures WellFormed(res) && res.pos == w.pos
    ensures l != r && w.vel[l] < w.vel[r] ==> res == w
    ensures l != r && w.vel[l] >= w.vel[r] ==>
      res.vel == w.vel[l := scale(w.vel[r])][r := scale(w.vel[l])]
    ensures l == r ==> res.vel == w.vel[l := scale(scale(0))]
  {
    if w.vel[l] < w.vel[r] then w
    else
      var flipped := Swapped(w.vel, l, r);
      var vel := flipped[l := scale(flipped[l])];
      w.(vel := vel[r := scale(vel[r])])
  }

  /** `fix_collisions_ord` with the corrected scaling. */
  function FixOrd(w: World, l: nat, r: nat): (res: World)
    requires WellFormed(w) && l < N_PTS && r < N_PTS
    ensures WellFormed(res) && res.pos == w.pos
  {
    FixOrdBy(w, l, r, Scaled)
  }

  /** `fix_collisions_ord` as written, keeping the low half of each product. */
  function FixOrdAsWritten(w: World, l: nat, r: nat): (res: World)
    requires WellFormed(w) && l < N_PTS && r < N_PTS
    ensures WellFormed(res) && res.pos == w.pos
    ensures l != r && w.vel[l] < w.vel[r] ==> res == w
    ensures l != r && w.vel[l] >= w.vel[r] ==>
      res.vel == w.vel[l := ScaledAsWritten(w.vel[r])][r := ScaledAsWritten(w.vel[l])]
  {
    FixOrdBy(w, l, r, ScaledAsWritten)
  }

  /** As written, a head-on collision at 5000 and -5000 leaves the points
      approaching each other (the left one still faster), and two equal
      velocities of 1 leave the clamp. */
  lemma FixOrdAsWrittenFails(w: World, l: nat, r: nat)
    requires WellFormed(w) && l < N_PTS && r < N_PTS && l != r
    ensures w.vel[l] == 5000 && w.vel[r] == -5000 ==>
      FixOrdAsWritten(w, l, r).vel[l] == 2000 && FixOrdAsWritten(w, l, r).vel[r] == -2000
    ensures w.vel[l] == 1 && w.vel[r] == 1 ==>
      FixOrdAsWritten(w, l, r).vel[l] == 26214 > MAX_VELOCITY
  {
    ScaledAsWrittenCounterexample();
  }

  /** The step returns early when the two points are separating; a true
      collision exchanges the velocities, scaled down, so that afterwards
      the left point is no faster than the right one and no velocity leaves
      the clamp. */
  lemma FixOrdEffect(w: World, l: nat, r: nat)
    requires WellFormed(w) && l < N_PTS && r < N_PTS && l != r
    ensures var res := FixOrd(w, l, r);
      && (w.vel[l] < w.vel[r] ==> res == w)
      && (w.vel[l] >= w.vel[r] ==> res.vel == w.vel[l := Scaled(w.vel[r])][r := Scaled(w.vel[l])])
      && res.vel[l] <= res.vel[r]
      && (VelocitiesBounded(w.vel) ==> VelocitiesBounded(res.vel))
  {
    if w.vel[l] >= w.vel[r] {
      ScaledMonotonic(w.vel[r], w.vel[l]);
    }
  }

  /** `fix_collisions(i, j)`: a point j less than one LED ahead of i is put
      exactly one LED ahead, one less than one LED behind exactly one LED
      behind, and then the pair's velocities are resolved. */
  function Fix(w: World, i: nat, j: nat): (r: World)
    requires WellFormed(w) && i < N_PTS && j < N_PTS
    ensures WellFormed(r)
  {
    var pi := w.pos[i];
    if Gap(pi, w.pos[j]) < REV_PER_LED then
      FixOrd(w.(pos := w.pos[j := AsU16(pi + REV_PER_LED)]), i, j)
    else if Gap(w.pos[j], pi) < REV_PER_LED then
      FixOrd(w.(pos := w.pos[j := AsU16(pi - REV_PER_LED)]), j, i)
    else
      w
  }

  /** Point i never moves and only j's position changes; afterwards the two
      are at least one LED apart both ways, j sitting exactly one LED from i
      if it was closer; an already spaced pair is left alone; velocities
      other than the pair's are untouched and all stay within the clamp. */
  lemma FixEffect(w: World, i: nat, j: nat)
    requires WellFormed(w) && i < N_PTS && j < N_PTS && i != j
    ensures var r := Fix(w, i, j);
      && r.pos == w.pos[j := r.pos[j]] && Spaced(r.pos[i], r.pos[j])
      && (Gap(w.pos[i], w.pos[j]) < REV_PER_LED ==> r.pos[j] == AsU16(w.pos[i] + REV_PER_LED))
      && (Gap(w.pos[i], w.pos[j]) >= REV_PER_LED && Gap(w.pos[j], w.pos[i]) < REV_PER_LED ==>
            r.pos[j] == AsU16(w.pos[i] - REV_PER_LED))
      && (Spaced(w.pos[i], w.pos[j]) ==> r == w)
      && (forall k :: 0 <= k < N_PTS && k != i && k != j ==> r.vel[k] == w.vel[k])
      && (VelocitiesBounded(w.vel) ==> VelocitiesBounded(r.vel))
  {
    var pi := w.pos[i];
    if Gap(pi, w.pos[j]) < REV_PER_LED {
      MoveAhead(pi);
      FixOrdEffect(w.(pos := w.pos[j := AsU16(pi + REV_PER_LED)]), i, j);
    } else if Gap(w.pos[j], pi) < REV_PER_LED {
      MoveBehind(pi);
      FixOrdEffect(w.(pos := w.pos[j := AsU16(pi - REV_PER_LED)]), j, i);
    }
  }

  /** The positional part of FixEffect: only the later point moves, and
      the pair ends spaced. */
  lemma FixMovesLater(w: World, i: nat, j: nat)
    requires WellFormed(w) && i < N_PTS && j < N_PTS && i != j
    ensures var r := Fix(w, i, j);
      r.pos == w.pos[j := r.pos[j]] && Spaced(r.pos[i], r.pos[j])
  {
    FixEffect(w, i, j);
  }

  /** A point put one LED ahead of p is spaced from it. */
  lemma MoveAhead(p: u16)
    ensures Gap(p, AsU16(p + REV_PER_LED)) == REV_PER_LED
    ensures Gap(AsU16(p + REV_PER_LED), p) == 0x1_0000 - REV_PER_LED
  {
    var moved := AsU16(p + REV_PER_LED);
    AsU16Congruent(moved - p, REV_PER_LED);
    AsU16Congruent(p - moved, 0x1_0000 - REV_PER_LED);
  }

  /** A point put one LED behind p is spaced from it. */
  lemma MoveBehind(p: u16)
    ensures Gap(AsU16(p - REV_PER_LED), p) == REV_PER_LED
    ensures Gap(p, AsU16(p - REV_PER_LED)) == 0x1_0000 - REV_PER_LED
  {
    var moved := AsU16(p - REV_PER_LED);
    AsU16Congruent(p - moved, REV_PER_LED);
    AsU16Congruent(moved - p, 0x1_0000 - REV_PER_LED);
  }

  /** The pairs `update_physics` passes to `fix_collisions`, as written:
      the wrap-around pair (0, N_PTS - 1), then (i, i + 1) for every
      i < N_PTS, the last of which names a sixth point. */
  function CollisionPairsAsWritten(): (ps: seq<(nat, nat)>)
    ensures |ps| == N_PTS + 1
    ensures ps[0] == (0, N_PTS - 1) && forall k :: 1 <= k < |ps| ==> ps[k] == (k - 1, k)
  {
    [(0, N_PTS - 1)] + seq(N_PTS, i => (i, i + 1))
  }

  /** The final iteration of the pair loop indexes `position[5]` and
      `velocity[5]`, one past the end of both arrays; without it the
      schedule is the intended one. */
  lemma PairLoopOutOfBounds()
    ensures CollisionPairsAsWritten()[N_PTS] == (N_PTS - 1, N_PTS)
    ensures !PairsInBounds(CollisionPairsAsWritten())
    ensures CollisionPairsAsWritten()[..N_PTS] == CollisionPairs()
  {
    var ps := CollisionPairsAsWritten();
    assert ps[N_PTS].1 >= N_PTS;
    assert ps[..N_PTS] == CollisionPairs() by {
      forall k | 0 <= k < N_PTS ensures ps[..N_PTS][k] == CollisionPairs()[k] { }
    }
  }

  /** The intended schedule: the wrap-around pair and then the N_PTS - 1
      neighbouring pairs, every index in bounds. */
  function CollisionPairs(): (ps: seq<(nat, nat)>)
    ensures |ps| == N_PTS
    ensures forall k :: 0 <= k < |ps| ==> ps[k].0 < N_PTS && ps[k].1 < N_PTS && ps[k].0 != ps[k].1
    ensures ps[0] == (0, N_PTS - 1) && forall k :: 1 <= k < |ps| ==> ps[k] == (k - 1, k)
  {
    [(0, N_PTS - 1)] + seq(N_PTS - 1, i => (i, i + 1))
  }

  /** Pairs of distinct points, every index in bounds. */
  predicate PairsInBounds(ps: seq<(nat, nat)>) {
    forall k :: 0 <= k < |ps| ==> ps[k].0 < N_PTS && ps[k].1 < N_PTS && ps[k].0 != ps[k].1
  }

  /** `fix_collisions` applied to each pair in order. */
  function ResolvePairs(w: World, ps: seq<(nat, nat)>): (r: World)
    requires WellFormed(w) && PairsInBounds(ps)
    ensures WellFormed(r)
    decreases |ps|
  {
    if ps == [] then w
    else
      var last := ps[|ps| - 1];
      Fix(ResolvePairs(w, ps[..|ps| - 1]), last.0, last.1)
  }

  /** Resolving one more pair of a schedule is one more `fix_collisions`. */
  lemma ResolveStep(w: World, ps: seq<(nat, nat)>, n: nat)
    requires WellFormed(w) && PairsInBounds(ps) && n < |ps|
    ensures ResolvePairs(w, ps[..n + 1]) == Fix(ResolvePairs(w, ps[..n]), ps[n].0, ps[n].1)
  {
    assert ps[..n + 1][..n] == ps[..n];
  }

  /** `update_pt` applied to points 0 .. n - 1 in order. */
  function UpdateFirst(w: World, down: u16, n: nat): (r: World)
    requires WellFormed(w) && n <= N_PTS
    ensures WellFormed(r)
  {
    if n == 0 then w else UpdatePoint(UpdateFirst(w, down, n - 1), down, n - 1)
  }

  /** One call of `update_physics`, with the intended pair schedule. */
  function Tick(w: World, down: u16): (r: World)
    requires WellFormed(w)
    ensures WellFormed(r)
  {
    ResolvePairs(UpdateFirst(w, down, N_PTS), CollisionPairs())
  }

  /** The first computation of `set_led_pt`: the angle's top ten bits times
      mult, rounded to a multiple of 1024 and divided by it. The product is
      at most 1023 * 60, so no 16-bit step wraps. With mult == 60 the LED
      index r marks the angle r * 65536 / 60, which is within half an LED
      above the angle and within half an LED plus the 6 dropped bits below. */
  function Segment(angle: u16, mult: nat): (r: nat)
    requires mult <= LedDriver.N_LEDS
    ensures r <= mult
    ensures mult == LedDriver.N_LEDS ==> -36548 < r * 0x1_0000 - LedDriver.N_LEDS * angle <= 0x8000
  {
    var scaled := angle / 64;
    MulLeMono(scaled, 1023, mult);
    var segment := scaled * mult;
    (segment + 512) / 1024
  }

  /** As written, `set_led_pt` multiplies by N_PTS: only LEDs 0 to 5 can be
      lit, and the point at half a turn lights LED 3 instead of LED 30,
      half an LED plus the dropped bits being the most the intended index
      may be off. */
  lemma SegmentAsWrittenMisplaced()
    ensures forall angle: u16 :: Segment(angle, N_PTS) <= 5
    ensures Segment(0x8000, N_PTS) == 3 && Segment(0x8000, LedDriver.N_LEDS) == 30
    ensures Segment(0x8000, N_PTS) * 0x1_0000 - LedDriver.N_LEDS * 0x8000 < -36548
  {
  }

  /** `set_led_pt`'s index: the rounded segment, wrapped into the strip by
      the subtraction loop. */
  method LedIndex(angle: u16, mult: nat) returns (idx: u8)
    requires mult <= LedDriver.N_LEDS
    ensures idx < LedDriver.N_LEDS && idx == Segment(angle, mult) % LedDriver.N_LEDS
  {
    var scaled := angle / 64;
    MulLeMono(scaled, 1023, mult);
    var segment := scaled * mult;
    var rounded := (segment + 512) / 1024;
    while rounded >= LedDriver.N_LEDS
      invariant 0 <= rounded && rounded % LedDriver.N_LEDS == Segment(angle, mult) % LedDriver.N_LEDS
      decreases rounded
    {
      rounded := rounded - LedDriver.N_LEDS;
    }
    idx := rounded;
  }

  /** `set_led_pt(angle)`, with the multiplier the firmware intends: lights
      the LED that the rounded 10-bit angle names, within about 0.56 LED of
      the angle. */
  method SetLedPt(angle: u16, leds: LedDriver.Leds)
    requires leds.Valid()
    modifies leds, leds.flags
    ensures leds.Valid()
    ensures leds.State() == LedDriver.Mark(old(leds.State()), Segment(angle, LedDriver.N_LEDS) % LedDriver.N_LEDS, leds.maxLedsOn)
  {
    var rounded := LedIndex(angle, LedDriver.N_LEDS);
    leds.SetLedActive(rounded);
  }

  /** The LEDs the points request, in point order. */
  function LedsOf(pos: seq<u16>): (ns: seq<nat>)
    requires |pos| == N_PTS
    ensures |ns| == N_PTS && forall k :: 0 <= k < N_PTS ==> ns[k] < LedDriver.N_LEDS
  {
    seq(N_PTS, k requires 0 <= k < N_PTS => Segment(pos[k], LedDriver.N_LEDS) % LedDriver.N_LEDS)
  }

  lemma {:induction false} UpdateFirstBounds(w: World, down: u16, n: nat)
    requires WellFormed(w) && n <= N_PTS
    ensures forall k :: 0 <= k < n ==> -MAX_VELOCITY <= UpdateFirst(w, down, n).vel[k] <= MAX_VELOCITY
  {
    if n > 0 {
      UpdateFirstBounds(w, down, n - 1);
      UpdatePointEffect(UpdateFirst(w, down, n - 1), down, n - 1);
    }
  }

  lemma {:induction false} ResolveKeepsBounds(w: World, ps: seq<(nat, nat)>)
    requires WellFormed(w) && PairsInBounds(ps) && VelocitiesBounded(w.vel)
    ensures VelocitiesBounded(ResolvePairs(w, ps).vel)
    decreases |ps|
  {
    if ps != [] {
      var prev := ps[..|ps| - 1];
      ResolveKeepsBounds(w, prev);
      var last := ps[|ps| - 1];
      FixEffect(ResolvePairs(w, prev), last.0, last.1);
    }
  }

  /** Whatever the state before it, every velocity is within the clamp after
      a tick: `update_pt` clamps each one and the collision fix only swaps
      and shrinks them. */
  lemma TickKeepsVelocitiesBounded(w: World, down: u16)
    requires WellFormed(w)
    ensures VelocitiesBounded(Tick(w, down).vel)
  {
    var u := UpdateFirst(w, down, N_PTS);
    UpdateFirstBounds(w, down, N_PTS);
    ResolveKeepsBounds(u, CollisionPairs());
  }

  /** Every prefix of the schedule is itself in bounds. */
  lemma SchedulePrefix(m: nat)
    requires m <= N_PTS
    ensures PairsInBounds(CollisionPairs()[..m])
  {
    var ps := CollisionPairs();
    forall k | 0 <= k < m
      ensures ps[..m][k].0 < N_PTS && ps[..m][k].1 < N_PTS && ps[..m][k].0 != ps[..m][k].1
    {
      assert ps[..m][k] == ps[k];
    }
  }

  /** After the first m pairs of the schedule, the neighbours they fixed
      are spaced and point 0 has not moved: each fix moves only the later
      point of its pair, which no earlier pair names as its later point's
      successor. */
  lemma {:induction false} PrefixSpaced(u: World, m: nat)
    requires WellFormed(u) && 1 <= m <= N_PTS
    ensures var r := ResolvePairs(u, CollisionPairs()[..m]);
      r.pos[0] == u.pos[0] && forall k :: 0 <= k < m - 1 ==> Spaced(r.pos[k], r.pos[k + 1])
  {
    var ps := CollisionPairs();
    SchedulePrefix(m - 1);
    SchedulePrefix(m);
    var q := ResolvePairs(u, ps[..m - 1]);
    var r := ResolvePairs(u, ps[..m]);
    ResolveStep(u, ps, m - 1);
    if m > 1 {
      PrefixSpaced(u, m - 1);
      FixMovesLater(q, m - 2, m - 1);
      SpacedAfterMove(q.pos, r.pos, m - 1);
    } else {
      assert ps[..0] == [];
      FixMovesLater(u, 0, N_PTS - 1);
    }
  }

  /** Moving point j away from a spaced prefix of j points keeps the
      prefix spaced, once j is spaced from its predecessor. */
  lemma SpacedAfterMove(before: seq<u16>, after: seq<u16>, j: nat)
    requires |before| == |after| == N_PTS && 1 <= j < N_PTS && after == before[j := after[j]]
    requires forall k :: 0 <= k < j - 1 ==> Spaced(before[k], before[k + 1])
    requires Spaced(after[j - 1], after[j])
    ensures forall k :: 0 <= k < j ==> Spaced(after[k], after[k + 1])
  {
    forall k | 0 <= k < j ensures Spaced(after[k], after[k + 1]) {
      if k < j - 1 {
        assert after[k] == before[k] && after[k + 1] == before[k + 1];
      }
    }
  }

  /** After a tick, each point is at least one LED from its successor in
      both directions, and point 0 is where `update_pt` left it. */
  lemma TickSpacesNeighbours(w: World, down: u16)
    requires WellFormed(w)
    ensures var t := Tick(w, down);
      forall k :: 0 <= k < N_PTS - 1 ==> Spaced(t.pos[k], t.pos[k + 1])
    ensures Tick(w, down).pos[0] == UpdateFirst(w, down, N_PTS).pos[0]
  {
    var u := UpdateFirst(w, down, N_PTS);
    PrefixSpaced(u, N_PTS);
    assert CollisionPairs()[..N_PTS] == CollisionPairs();
  }

  /** The wrap-around pair (N_PTS - 1, 0) is fixed first, so the later fix
      of pair (N_PTS - 2, N_PTS - 1) can undo it: if the last point sits
      exactly one LED behind point 0 and less than one LED ahead of its
      predecessor, pushing it one LED past the predecessor leaves it that
      same short distance behind point 0. */
  lemma LastFixUndoesWrap(w: World)
    requires WellFormed(w)
    requires Gap(w.pos[N_PTS - 1], w.pos[0]) == REV_PER_LED
    requires Gap(w.pos[N_PTS - 2], w.pos[N_PTS - 1]) < REV_PER_LED
    ensures var r := Fix(w, N_PTS - 2, N_PTS - 1);
      && r.pos[0] == w.pos[0]
      && Gap(r.pos[N_PTS - 1], r.pos[0]) == Gap(w.pos[N_PTS - 2], w.pos[N_PTS - 1])
      && !Spaced(r.pos[N_PTS - 1], r.pos[0])
  {
    var r := Fix(w, N_PTS - 2, N_PTS - 1);
    FixPushesAhead(w, N_PTS - 2, N_PTS - 1);
    assert r.pos[0] == w.pos[0];
    PushedBackBehind(w.pos[0], w.pos[N_PTS - 2], w.pos[N_PTS - 1]);
  }

  /** Too close ahead: the later point is put exactly one LED past the
      earlier one and nothing else moves. */
  lemma FixPushesAhead(w: World, i: nat, j: nat)
    requires WellFormed(w) && i < N_PTS && j < N_PTS && i != j
    requires Gap(w.pos[i], w.pos[j]) < REV_PER_LED
    ensures Fix(w, i, j).pos == w.pos[j := AsU16(w.pos[i] + REV_PER_LED)]
  {
    FixEffect(w, i, j);
  }

  /** With p4 one LED behind p0 and g < one LED ahead of p3, the point one
      LED past p3 is g behind p0. */
  lemma PushedBackBehind(p0: u16, p3: u16, p4: u16)
    requires Gap(p4, p0) == REV_PER_LED
    ensures Gap(AsU16(p3 + REV_PER_LED), p0) == Gap(p3, p4)
  {
    var moved := AsU16(p3 + REV_PER_LED);
    AddCongruent(Gap(p4, p0) - (p0 - p4), 0, moved - (p3 + REV_PER_LED), 0);
    AsU16Congruent(p0 - moved, p4 - p3);
  }

  /** Every pair of the schedule at least one LED apart. */
  predicate RingSpaced(pos: seq<u16>)
    requires |pos| == N_PTS
  {
    Spaced(pos[0], pos[N_PTS - 1]) && forall k :: 0 <= k < N_PTS - 1 ==> Spaced(pos[k], pos[k + 1])
  }

  /** A point at rest with no pull on it (for instance at the down angle)
      stays where it is. */
  lemma RestingPointStays(w: World, down: u16, i: nat)
    requires WellFormed(w) && i < N_PTS && w.vel[i] == 0 && Gravity(down, w.pos[i]) == 0
    ensures UpdatePoint(w, down, i) == w
  {
    assert NextVelocity(0, 0) == 0;
    assert Advance(w.pos[i], 0) == w.pos[i];
    assert w.vel[i := 0] == w.vel && w.pos[i := w.pos[i]] == w.pos;
  }

  lemma {:induction false} SpacedPrefixUnchanged(w: World, m: nat)
    requires WellFormed(w) && m <= N_PTS && RingSpaced(w.pos)
    ensures ResolvePairs(w, CollisionPairs()[..m]) == w
  {
    var ps := CollisionPairs();
    if m == 0 {
      assert ps[..0] == [];
    } else {
      SpacedPrefixUnchanged(w, m - 1);
      ResolveStep(w, ps, m - 1);
      FixEffect(w, ps[m - 1].0, ps[m - 1].1);
    }
  }

  /** When every scheduled pair is already spaced, the collision pass
      changes nothing. */
  lemma SpacedRingUnchanged(w: World)
    requires WellFormed(w) && RingSpaced(w.pos)
    ensures ResolvePairs(w, CollisionPairs()) == w
  {
    SpacedPrefixUnchanged(w, N_PTS);
    assert CollisionPairs()[..N_PTS] == CollisionPairs();
  }

  /** A point in the first half turn is pulled back toward angle 0 by its
      distance from it over 256, truncated. */
  lemma PullFromAhead(p: u16)
    requires 0 < p < 0x8000
    ensures Gravity(0, p) == -(p / 256)
  {
    assert Gap(p, 0) == 0x1_0000 - p;
    assert AsU16((0xFFFF - (0x1_0000 - p)) + 1) == p;
  }

  /** A point in the second half turn is pulled forward toward angle 0 by
      its distance from it over 256, truncated. */
  lemma PullFromBehind(p: u16)
    requires 0x8000 < p
    ensures Gravity(0, p) == (0x1_0000 - p) / 256
  {
    assert Gap(p, 0) == 0x1_0000 - p;
  }

  /** A point at rest takes the pull on it as its new velocity, and moves
      by a sixteenth of it. */
  lemma PulledFromRest(w: World, down: u16, i: nat)
    requires WellFormed(w) && i < N_PTS && w.vel[i] == 0
    ensures var g := Gravity(down, w.pos[i]);
      UpdatePoint(w, down, i) == World(w.pos[i := Advance(w.pos[i], g)], w.vel[i := g])
  {
  }

  /** The states the first loop of a tick passes through from the initial
      state with down at angle 0: RestStates()[k] holds once points 0 .. k
      were updated (point 0, at the down angle, does not move). */
  function RestStates(): seq<World> {
    [World([0, 13107, 26214, 39321, 52428], [0, 0, 0, 0, 0]),
     World([0, 13104, 26214, 39321, 52428], [0, -51, 0, 0, 0]),
     World([0, 13104, 26208, 39321, 52428], [0, -51, -102, 0, 0]),
     World([0, 13104, 26208, 39327, 52428], [0, -51, -102, 102, 0]),
     World([0, 13104, 26208, 39327, 52431], [0, -51, -102, 102, 51])]
  }

  /** The first loop over a single point is one `update_pt`. */
  lemma UpdateFirstOne(w: World, down: u16)
    requires WellFormed(w)
    ensures UpdateFirst(w, down, 1) == UpdatePoint(w, down, 0)
  {
  }

  /** The steps of that loop: point 0 sits at the down angle and stays;
      each other point picks up the pull on it and moves a sixteenth of it. */
  lemma RestStep0()
    ensures UpdateFirst(RestStates()[0], 0, 1) == RestStates()[0]
  {
    var w0 := RestStates()[0];
    assert WellFormed(w0) && w0.vel[0] == 0 && w0.pos[0] == 0;
    assert UpdatePoint(w0, 0, 0) == w0 by {
      assert Gravity(0, w0.pos[0]) == 0;
      RestingPointStays(w0, 0, 0);
    }
    UpdateFirstOne(w0, 0);
  }

  lemma RestStep1()
    ensures UpdatePoint(RestStates()[0], 0, 1) == RestStates()[1]
  {
    PullFromAhead(13107);
    PulledFromRest(RestStates()[0], 0, 1);
    assert Advance(13107, -51) == 13104;
  }

  lemma RestStep2()
    ensures UpdatePoint(RestStates()[1], 0, 2) == RestStates()[2]
  {
    PullFromAhead(26214);
    PulledFromRest(RestStates()[1], 0, 2);
    assert Advance(26214, -102) == 26208;
  }

  lemma RestStep3()
    ensures UpdatePoint(RestStates()[2], 0, 3) == RestStates()[3]
  {
    PullFromBehind(39321);
    PulledFromRest(RestStates()[2], 0, 3);
    assert Advance(39321, 102) == 39327;
  }

  lemma RestStep4()
    ensures UpdatePoint(RestStates()[3], 0, 4) == RestStates()[4]
  {
    PullFromBehind(52428);
    PulledFromRest(RestStates()[3], 0, 4);
    assert Advance(52428, 51) == 52431;
  }

  /** Updating one more point extends the first loop by one step. */
  lemma UpdateFirstNext(w: World, down: u16, n: nat, u: World, u': World)
    requires WellFormed(w) && n < N_PTS
    requires UpdateFirst(w, down, n) == u && UpdatePoint(u, down, n) == u'
    ensures UpdateFirst(w, down, n + 1) == u'
  {
  }

  /** The first loop of a tick from the initial state with down at angle 0. */
  lemma FirstUpdatesFromRest()
    ensures UpdateFirst(RestStates()[0], 0, N_PTS) == RestStates()[N_PTS - 1]
  {
    var ws := RestStates();
    var w0 := ws[0];
    assert UpdateFirst(w0, 0, 2) == ws[1] by {
      RestStep0();
      RestStep1();
      UpdateFirstNext(w0, 0, 1, ws[0], ws[1]);
    }
    assert UpdateFirst(w0, 0, 3) == ws[2] by {
      RestStep2();
      UpdateFirstNext(w0, 0, 2, ws[1], ws[2]);
    }
    assert UpdateFirst(w0, 0, 4) == ws[3] by {
      RestStep3();
      UpdateFirstNext(w0, 0, 3, ws[2], ws[3]);
    }
    RestStep4();
    UpdateFirstNext(w0, 0, 4, ws[3], ws[4]);
  }

  lemma FirstUpdatesSpaced()
    ensures RingSpaced([0, 13104, 26208, 39327, 52431])
  {
    var pos: seq<u16> := [0, 13104, 26208, 39327, 52431];
    assert Gap(pos[0], pos[1]) == 13104 && Gap(pos[1], pos[2]) == 13104;
    assert Gap(pos[2], pos[3]) == 13119 && Gap(pos[3], pos[4]) == 13104;
    assert Gap(pos[4], pos[0]) == 13105 && Gap(pos[0], pos[4]) == 52431;
  }

  /** From the initial spacing with down at angle 0, one tick leaves point 0
      at rest where it is, pulls the others toward angle 0 along the
      shorter arc, and fires no collision. */
  lemma FirstTickFromRest()
    ensures Tick(Initial(), 0) == World([0, 13104, 26208, 39327, 52431], [0, -51, -102, 102, 51])
  {
    var u := World([0, 13104, 26208, 39327, 52431], [0, -51, -102, 102, 51]);
    assert Initial() == RestStates()[0];
    FirstUpdatesFromRest();
    FirstUpdatesSpaced();
    SpacedRingUnchanged(u);
  }

  /** Two points 10 units apart meeting head on at 5000 and -5000: the
      later one is put exactly one LED ahead, and the velocities are
      exchanged and scaled by 0.8. */
  lemma HeadOnCollision(w: World, i: nat, j: nat)
    requires WellFormed(w) && i < N_PTS && j < N_PTS && i != j
    requires Gap(w.pos[i], w.pos[j]) == 10 && w.vel[i] == 5000 && w.vel[j] == -5000
    ensures var r := Fix(w, i, j);
      && Gap(r.pos[i], r.pos[j]) == REV_PER_LED
      && r.vel[i] == -4000 && r.vel[j] == 3999
  {
    var moved := w.(pos := w.pos[j := AsU16(w.pos[i] + REV_PER_LED)]);
    MoveAhead(w.pos[i]);
    FixOrdEffect(moved, i, j);
  }

  /** The simulator's globals, updated in place. */
  class Sim {
    const position: array<u16>
    const velocity: array<i16>

    ghost predicate Valid()
      reads this
    {
      position.Length == N_PTS && velocity.Length == N_PTS
    }

    function State(): World
      reads this, position, velocity
    {
      World(position[..], velocity[..])
    }

    /** Static storage: both arrays start zeroed. */
    constructor ()
      ensures Valid() && fresh(position) && fresh(velocity)
      ensures State() == World([0, 0, 0, 0, 0], [0, 0, 0, 0, 0])
    {
      position := new u16[N_PTS](_ => 0);
      velocity := new i16[N_PTS](_ => 0);
      new;
      assert position[..] == [0, 0, 0, 0, 0] && velocity[..] == [0, 0, 0, 0, 0];
    }

    /** `init_physics`. */
    method InitPhysics()
      requires Valid()
      modifies position, velocity
      ensures State() == Initial()
    {
      forall k | 0 <= k < velocity.Length {
        velocity[k] := 0;
      }
      for i := 0 to N_PTS
        invariant forall k :: 0 <= k < i ==> position[k] == k * INIT_POS
        invariant forall k :: 0 <= k < N_PTS ==> velocity[k] == 0
      {
        position[i] := i * INIT_POS;
      }
    }

    /** `flip_words(&velocity[l], &velocity[r])`, including the case where
        both name the same element. */
    method FlipWords(l: nat, r: nat)
      requires Valid() && l < N_PTS && r < N_PTS
      modifies velocity
      ensures position[..] == old(position[..])
      ensures velocity[..] == Swapped(old(velocity[..]), l, r)
    {
      ghost var a, b := velocity[l], velocity[r];
      velocity[l] := AsI16(velocity[l] as int + velocity[r]);
      velocity[r] := AsI16(velocity[l] as int - velocity[r]);
      velocity[l] := AsI16(velocity[l] as int - velocity[r]);
      if l != r {
        assert (velocity[l], velocity[r]) == Flip(a, b);
      }
    }

    /** `scale_velocity(i)`, corrected to keep the high half of the product. */
    method ScaleVelocity(i: nat)
      requires Valid() && i < N_PTS
      modifies velocity
      ensures State() == old(State()).(vel := old(velocity[..])[i := Scaled(old(velocity[i]))])
    {
      velocity[i] := Scaled(velocity[i]);
    }

    /** `fix_collisions_ord(left, right)`. */
    method FixCollisionsOrd(left: nat, right: nat)
      requires Valid() && left < N_PTS && right < N_PTS
      modifies velocity
      ensures State() == FixOrd(old(State()), left, right)
    {
      if velocity[left] <= 0 && velocity[right] > velocity[left] {
        return;
      }
      if velocity[right] >= 0 && velocity[left] < velocity[right] {
        return;
      }
      FlipWords(left, right);
      ScaleVelocity(left);
      ScaleVelocity(right);
    }

    /** `fix_collisions(i, j)`. */
    method FixCollisions(i: nat, j: nat)
      requires Valid() && i < N_PTS && j < N_PTS
      modifies position, velocity
      ensures State() == Fix(old(State()), i, j)
    {
      ghost var w := State();
      var pi := position[i];
      if AsU16(position[j] as int - pi) < REV_PER_LED {
        position[j] := AsU16(pi + REV_PER_LED);
        assert State() == w.(pos := w.pos[j := AsU16(pi + REV_PER_LED)]);
        FixCollisionsOrd(i, j);
      } else if AsU16(pi as int - position[j]) < REV_PER_LED {
        position[j] := AsU16(pi - REV_PER_LED);
        assert State() == w.(pos := w.pos[j := AsU16(pi - REV_PER_LED)]);
        FixCollisionsOrd(j, i);
      }
    }

    /** `update_pt(i)`, reading `down_angle` as a parameter. */
    method UpdatePt(i: nat, down: u16)
      requires Valid() && i < N_PTS
      modifies position, velocity
      ensures State() == UpdatePoint(old(State()), down, i)
    {
      var gravity := Gravity(down, position[i]);
      var v := AsI16(velocity[i] as int + gravity);
      if v > MAX_VELOCITY {
        v := MAX_VELOCITY;
      }
      if v < -MAX_VELOCITY {
        v := -MAX_VELOCITY;
      }
      var p: u16;
      if v > 0 {
        p := AsU16(position[i] as int + AsU16(v) / 16);
      } else {
        p := AsU16(position[i] as int - AsU16(-(v as int)) / 16);
      }
      assert v == NextVelocity(velocity[i], gravity);
      assert p == Advance(position[i], v);
      velocity[i] := v;
      position[i] := p;
    }

    /** The first loop of `update_physics`: `update_pt` for every point. */
    method UpdatePoints(down: u16)
      requires Valid()
      modifies position, velocity
      ensures State() == UpdateFirst(old(State()), down, N_PTS)
    {
      ghost var w0 := State();
      for i := 0 to N_PTS
        invariant State() == UpdateFirst(w0, down, i)
      {
        UpdatePt(i, down);
      }
    }

    /** The collision fixes of `update_physics`, over the in-bounds pairs. */
    method ResolveCollisions()
      requires Valid()
      modifies position, velocity
      ensures State() == ResolvePairs(old(State()), CollisionPairs())
    {
      ghost var u := State();
      ghost var ps := CollisionPairs();
      ResolveStep(u, ps, 0);
      FixCollisions(0, N_PTS - 1);
      for i := 0 to N_PTS - 1
        invariant State() == ResolvePairs(u, ps[..i + 1])
      {
        ResolveStep(u, ps, i + 1);
        FixCollisions(i, i + 1);
      }
      assert ps[..N_PTS] == ps;
    }

    /** The last loop of `update_physics`: every point lights its LED. */
    method LightPoints(leds: LedDriver.Leds)
      requires Valid() && leds.Valid()
      modifies leds, leds.flags
      ensures leds.Valid()
      ensures leds.State() == LedDriver.MarkAll(old(leds.State()), LedsOf(State().pos), leds.maxLedsOn)
    {
      ghost var leds0 := leds.State();
      ghost var ns := LedsOf(position[..]);
      for i := 0 to N_PTS
        invariant leds.Valid()
        invariant leds.State() == LedDriver.MarkAll(leds0, ns[..i], leds.maxLedsOn)
      {
        LedDriver.MarkAllStep(leds0, ns, i, leds.maxLedsOn);
        SetLedPt(position[i], leds);
      }
      assert ns[..N_PTS] == ns;
    }

    /** `update_physics`, with the in-bounds pair schedule and the LED
        multiplier the firmware intends. */
    method UpdatePhysics(down: u16, leds: LedDriver.Leds)
      requires Valid() && leds.Valid()
      modifies position, velocity, leds, leds.flags
      ensures State() == Tick(old(State()), down)
      ensures leds.Valid()
      ensures leds.State() == LedDriver.MarkAll(old(leds.State()), LedsOf(State().pos), leds.maxLedsOn)
    {
      UpdatePoints(down);
      ResolveCollisions();
      LightPoints(leds);
    }
  }
}
