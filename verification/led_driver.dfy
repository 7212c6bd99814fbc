/** The LED flag buffer (hoop_firmware/led_driver.cpp): one on/off bit per
    LED, packed eight to a byte, and a counter that caps how many LEDs may
    be requested per frame (the regulator's current budget).

    The bit-serial transmission in `update_leds` is not modelled; only its
    guard is. */
module LedDriver {
  import opened FixedWidth

  const N_LEDS := 60
  /** The buffer size as led_driver.h declares it: 60 / 8 == 7 bytes. */
  const N_LED_BYTES := N_LEDS / 8
  /** One flag per LED needs the quotient rounded up: 8 bytes. */
  const FLAG_BYTES := (N_LEDS + 7) / 8

  /** `active_flags` and `active_led_count`. */
  datatype LedState = LedState(flags: seq<bv8>, count: u8)

  /** `1 << (n & 0x07)`. */
  function BitMask(k: nat): bv8
    requires k < 8
  {
    1 << k
  }

  predicate IsLit(flags: seq<bv8>, n: nat)
    requires n / 8 < |flags|
  {
    (flags[n / 8] >> (n % 8)) & 1 == 1
  }

  /** The LEDs whose flag is set. */
  function Lit(flags: seq<bv8>): set<nat>
  {
    set n | 0 <= n < 8 * |flags| && IsLit(flags, n)
  }

  function Zeros(): (z: seq<bv8>)
    ensures |z| == FLAG_BYTES && Lit(z) == {}
  {
    var z := seq(FLAG_BYTES, _ => 0 as bv8);
    assert forall n :: 0 <= n < 8 * FLAG_BYTES ==> !IsLit(z, n);
    z
  }

  /** The state after `clear_led_data`: no LED lit and nothing counted. */
  function Cleared(): (r: LedState)
    ensures |r.flags| == FLAG_BYTES && Lit(r.flags) == {} && r.count == 0
  {
    LedState(Zeros(), 0)
  }

  /** The state before the first clear: static zeroed flags and the count at 0xFF. */
  function PowerOn(): (r: LedState)
    ensures |r.flags| == FLAG_BYTES && Lit(r.flags) == {} && r.count == 0xFF
  {
    LedState(Zeros(), 0xFF)
  }

  /** `set_led_active(n)` with cap maxOn. Once the cap is reached the request
      is dropped; otherwise the request is counted, even when n was already
      lit. */
  function Mark(s: LedState, n: nat, maxOn: u8): (r: LedState)
    requires |s.flags| == FLAG_BYTES && n < 8 * FLAG_BYTES && maxOn < 0xFF
    ensures |r.flags| == FLAG_BYTES
    ensures s.count >= maxOn ==> r == s
    ensures s.count < maxOn ==> r.count == s.count + 1
  {
    if s.count >= maxOn then s
    else
      var byte := n / 8;
      LedState(s.flags[byte := s.flags[byte] | BitMask(n % 8)], s.count + 1)
  }

  /** Below the cap, LED n becomes lit and no other flag changes. */
  lemma MarkLights(s: LedState, n: nat, maxOn: u8)
    requires |s.flags| == FLAG_BYTES && n < 8 * FLAG_BYTES && maxOn < 0xFF
    requires s.count < maxOn
    ensures Lit(Mark(s, n, maxOn).flags) == Lit(s.flags) + {n}
  {
    assert Mark(s, n, maxOn).flags == s.flags[n / 8 := s.flags[n / 8] | BitMask(n % 8)];
    SetBitLit(s.flags, n);
  }

  /** Marking a lit LED leaves every flag as it was, but still counts. */
  lemma MarkRelit(s: LedState, n: nat, maxOn: u8)
    requires |s.flags| == FLAG_BYTES && n < 8 * FLAG_BYTES && maxOn < 0xFF
    requires n in Lit(s.flags)
    ensures Mark(s, n, maxOn).flags == s.flags
    ensures s.count < maxOn ==> Mark(s, n, maxOn).count == s.count + 1
  {
    assert IsLit(s.flags, n);
    SetBitIdempotent(s.flags[n / 8], n % 8);
  }

  /** Or-ing in bit j changes bit j to 1 and no other bit. */
  lemma SetBitSpec(b: bv8, j: nat, k: nat)
    requires j < 8 && k < 8
    ensures ((b | BitMask(j)) >> k) & 1 == if k == j then 1 else (b >> k) & 1
  {
  }

  lemma SetBitIdempotent(b: bv8, j: nat)
    requires j < 8
    ensures (b >> j) & 1 == 1 ==> b | BitMask(j) == b
  {
  }

  lemma {:induction false} SetBitLit(flags: seq<bv8>, n: nat)
    requires n / 8 < |flags|
    ensures Lit(flags[n / 8 := flags[n / 8] | BitMask(n % 8)]) == Lit(flags) + {n}
  {
    var flags' := flags[n / 8 := flags[n / 8] | BitMask(n % 8)];
    forall m | 0 <= m < 8 * |flags|
      ensures IsLit(flags', m) <==> IsLit(flags, m) || m == n
    {
      if m / 8 == n / 8 {
        SetBitSpec(flags[n / 8], n % 8, m % 8);
      }
    }
  }

  /** What `update_leds` checks before transmitting: in a safe state a
      transmitted frame lights at most maxOn LEDs, and a buffer that was
      never cleared (count 0xFF) is never sent. */
  predicate Transmits(s: LedState, maxOn: u8): (ok: bool)
    ensures ok && Safe(s, maxOn) ==> |Lit(s.flags)| <= maxOn
    ensures ok && maxOn < 0xFF ==> s.count != 0xFF
  {
    s.count <= maxOn
  }

  /** The safety invariant: never more LEDs lit than requests counted, and
      the count within the cap unless the buffer has never been cleared. */
  predicate Safe(s: LedState, maxOn: u8) {
    |Lit(s.flags)| <= s.count && (s.count <= maxOn || s.count == 0xFF)
  }

  lemma MarkKeepsSafe(s: LedState, n: nat, maxOn: u8)
    requires |s.flags| == FLAG_BYTES && n < 8 * FLAG_BYTES && maxOn < 0xFF
    requires Safe(s, maxOn)
    ensures Safe(Mark(s, n, maxOn), maxOn)
  {
    if s.count < maxOn {
      MarkLights(s, n, maxOn);
      assert |Lit(s.flags) + {n}| <= |Lit(s.flags)| + 1;
    }
  }

  /** The requests of one frame, applied in order. */
  function MarkAll(s: LedState, ns: seq<nat>, maxOn: u8): (r: LedState)
    requires |s.flags| == FLAG_BYTES && maxOn < 0xFF
    requires forall k :: 0 <= k < |ns| ==> ns[k] < 8 * FLAG_BYTES
    ensures |r.flags| == FLAG_BYTES
    decreases |ns|
  {
    if ns == [] then s
    else Mark(MarkAll(s, ns[..|ns| - 1], maxOn), ns[|ns| - 1], maxOn)
  }

  /** Applying one more request of a frame is one more `set_led_active`. */
  lemma MarkAllStep(s: LedState, ns: seq<nat>, i: nat, maxOn: u8)
    requires |s.flags| == FLAG_BYTES && maxOn < 0xFF && i < |ns|
    requires forall k :: 0 <= k < |ns| ==> ns[k] < 8 * FLAG_BYTES
    ensures MarkAll(s, ns[..i + 1], maxOn) == Mark(MarkAll(s, ns[..i], maxOn), ns[i], maxOn)
  {
    assert ns[..i + 1][..i] == ns[..i];
  }

  /** The first maxOn requested LEDs. */
  function FirstRequests(ns: seq<nat>, maxOn: nat): set<nat>
  {
    set k | 0 <= k < |ns| && k < maxOn :: ns[k]
  }

  lemma FirstRequestsSnoc(ns: seq<nat>, x: nat, maxOn: nat)
    ensures FirstRequests(ns + [x], maxOn) ==
      if |ns| < maxOn then FirstRequests(ns, maxOn) + {x} else FirstRequests(ns, maxOn)
  {
    var ns' := ns + [x];
    assert forall k :: 0 <= k < |ns| ==> ns'[k] == ns[k];
    if |ns| < maxOn {
      assert ns'[|ns|] == x;
    }
  }

  /** After a clear, exactly the first maxOn requests of the frame are lit. */
  lemma {:induction false} MarksAfterClearLit(ns: seq<nat>, maxOn: u8)
    requires maxOn < 0xFF
    requires forall k :: 0 <= k < |ns| ==> ns[k] < 8 * FLAG_BYTES
    ensures MarkAll(Cleared(), ns, maxOn).count == (if |ns| < maxOn then |ns| else maxOn)
    ensures Lit(MarkAll(Cleared(), ns, maxOn).flags) == FirstRequests(ns, maxOn)
  {
    if ns != [] {
      var init, last := ns[..|ns| - 1], ns[|ns| - 1];
      MarksAfterClearLit(init, maxOn);
      var p := MarkAll(Cleared(), init, maxOn);
      if p.count < maxOn {
        MarkLights(p, last, maxOn);
      }
      assert ns == init + [last];
      FirstRequestsSnoc(init, last, maxOn);
    }
  }

  /** Marks made after a clear keep the safety invariant. */
  lemma {:induction false} MarksKeepSafe(s: LedState, ns: seq<nat>, maxOn: u8)
    requires |s.flags| == FLAG_BYTES && maxOn < 0xFF && Safe(s, maxOn)
    requires forall k :: 0 <= k < |ns| ==> ns[k] < 8 * FLAG_BYTES
    ensures Safe(MarkAll(s, ns, maxOn), maxOn)
  {
    if ns != [] {
      MarksKeepSafe(s, ns[..|ns| - 1], maxOn);
      MarkKeepsSafe(MarkAll(s, ns[..|ns| - 1], maxOn), ns[|ns| - 1], maxOn);
    }
  }

  /** After a clear, the count is the number of requests up to the cap,
      no more LEDs are lit than counted, and `update_leds` transmits. */
  lemma MarksAfterClear(ns: seq<nat>, maxOn: u8)
    requires maxOn < 0xFF
    requires forall k :: 0 <= k < |ns| ==> ns[k] < 8 * FLAG_BYTES
    ensures var r := MarkAll(Cleared(), ns, maxOn);
      && Lit(r.flags) == FirstRequests(ns, maxOn)
      && |Lit(r.flags)| <= maxOn
      && Safe(r, maxOn) && Transmits(r, maxOn)
  {
    MarksAfterClearLit(ns, maxOn);
    MarksKeepSafe(Cleared(), ns, maxOn);
  }

  /** Until the first clear the driver is inert: every request is dropped
      and `update_leds` returns before transmitting. */
  lemma {:induction false} InertBeforeClear(ns: seq<nat>, maxOn: u8)
    requires maxOn < 0xFF
    requires forall k :: 0 <= k < |ns| ==> ns[k] < 8 * FLAG_BYTES
    ensures MarkAll(PowerOn(), ns, maxOn) == PowerOn()
    ensures !Transmits(PowerOn(), maxOn)
  {
    if ns != [] {
      InertBeforeClear(ns[..|ns| - 1], maxOn);
    }
  }

  /** As declared, the buffer has no byte for LEDs 56 to 59. */
  predicate ByteInDeclaredBuffer(n: nat) {
    n / 8 < N_LED_BYTES
  }

  lemma DeclaredBufferTooShort()
    ensures 59 < N_LEDS && !ByteInDeclaredBuffer(59)
    ensures forall n: nat :: n < N_LEDS ==> (ByteInDeclaredBuffer(n) <==> n < 56)
  {
  }

  /** With FLAG_BYTES bytes every LED of the strip has its flag. */
  lemma FlagBytesCoverStrip(n: nat)
    requires n < N_LEDS
    ensures n / 8 < FLAG_BYTES && n < 8 * FLAG_BYTES
  {
  }

  /** The driver's globals: `active_flags`, `active_led_count`, and the cap
      `MAX_LEDS_ON` (defined in a header not part of this model, so it is a
      parameter below 0xFF). */
  class Leds {
    const flags: array<bv8>
    var count: u8
    const maxLedsOn: u8

    function State(): LedState
      reads this, flags
    {
      LedState(flags[..], count)
    }

    ghost predicate Valid()
      reads this, flags
    {
      flags.Length == FLAG_BYTES && maxLedsOn < 0xFF && Safe(State(), maxLedsOn)
    }

    constructor (maxLedsOn: u8)
      requires maxLedsOn < 0xFF
      ensures Valid() && fresh(flags) && this.maxLedsOn == maxLedsOn
      ensures State() == PowerOn()
    {
      this.maxLedsOn := maxLedsOn;
      flags := new bv8[FLAG_BYTES](_ => 0);
      count := 0xFF;
      new;
      assert flags[..] == Zeros();
    }

    /** `clear_led_data`. */
    method ClearLedData()
      requires Valid()
      modifies this, flags
      ensures Valid() && State() == Cleared()
    {
      forall i | 0 <= i < flags.Length {
        flags[i] := 0;
      }
      count := 0;
      assert flags[..] == Zeros();
    }

    /** `set_led_active(n)`; the byte index n / 8 must fall inside the
        buffer, which the firmware does not check. */
    method SetLedActive(n: u8)
      requires Valid() && n < 8 * FLAG_BYTES
      modifies this, flags
      ensures Valid() && State() == Mark(old(State()), n, maxLedsOn)
    {
      MarkKeepsSafe(State(), n, maxLedsOn);
      if count >= maxLedsOn {
        return;
      }
      count := count + 1;
      var byte := n / 8;
      var bit := BitMask(n % 8);
      flags[byte] := flags[byte] | bit;
    }

    /** The guard of `update_leds`: it transmits only when the count is
        within the cap, and then no more than maxLedsOn LEDs are lit. */
    method UpdateLeds() returns (transmitted: bool)
      requires Valid()
      ensures transmitted == Transmits(State(), maxLedsOn)
      ensures transmitted ==> |Lit(flags[..])| <= maxLedsOn
    {
      if count > maxLedsOn {
        return false;
      }
      return true;
    }
  }
}
