/** The fan controller CControl (control.h, control.cpp): a once-a-second
    state machine over an active-low relay byte and a countdown, and the
    mode setter that arms it. Messages to the I2C task are collected in a
    ghost outbox in the order they are queued. */
module Control {
  import opened Station
  import opened Bits

  /** Relay bits of the PCF8574 output byte; a 1 bit means de-energized. */
  const PIN_FAN: uint8 := 1
  const PIN_COOL: uint8 := 2
  const PIN_HEAT: uint8 := 4
  const PIN_MASTER: uint8 := 8
  /** ~PIN_FAN as the byte the masking keeps. */
  const NOT_PIN_FAN: uint8 := 0xFE

  /** Cycle mode keeps the fan on for 15 minutes and off for 45. */
  const CYC_ON_TICKS: uint32 := 15 * 60
  const CYC_OFF_TICKS: uint32 := 45 * 60
  /** Delay between a mode change and its effect. */
  const SETTLE_TICKS: uint32 := 5

  /** The relay byte as the fan controller caches it (initially all off). */
  const RELAYS_ALL_OFF: uint8 := 0xFF

  /** The fan controller's fields: m_relays, m_fan_counter, m_fan_mode. */
  datatype FanState = FanState(relays: uint8, counter: uint32, mode: uint8)

  /** The fan output is active-low. */
  predicate FanOn(relays: uint8)
  {
    And(relays, PIN_FAN, 8) == 0
  }

  /** relays | PIN_FAN: the fan relay de-energized. */
  function FanOffByte(relays: uint8): uint8
  {
    Or(relays, PIN_FAN, 8)
  }

  /** relays & ~PIN_FAN: the fan relay energized. */
  function FanOnByte(relays: uint8): uint8
  {
    And(relays, NOT_PIN_FAN, 8)
  }

  // ----- Specification of one tick ------------------------------------

  /** The state reached when the countdown expires in the given mode. */
  function Expire(mode: uint8, relays: uint8): FanState
  {
    if mode == FAN_MODE_OFF then FanState(FanOffByte(relays), 0, mode)
    else if mode == FAN_MODE_ON then FanState(FanOnByte(relays), 0, mode)
    else if mode == FAN_MODE_CYC then
      if !FanOn(relays) then FanState(FanOnByte(relays), CYC_ON_TICKS, mode)
      else FanState(FanOffByte(relays), CYC_OFF_TICKS, mode)
    else FanState(relays, 0, mode)
  }

  /** One tick of the fan state machine. */
  function Step(s: FanState): FanState
  {
    if s.counter == 0 then s
    else if s.counter > 1 then s.(counter := s.counter - 1)
    else Expire(s.mode, s.relays)
  }

  /** The messages one tick queues: a relay update exactly when the byte changes. */
  function TickMessages(s: FanState): seq<I2CMessage>
  {
    var r := Step(s).relays;
    if r != s.relays then [SetRelays(r)] else []
  }

  /** The state after n ticks. */
  function Run(s: FanState, n: nat): FanState
    decreases n
  {
    if n == 0 then s else Run(Step(s), n - 1)
  }

  /** The messages queued during n ticks, in order. */
  function RunMessages(s: FanState, n: nat): seq<I2CMessage>
    decreases n
  {
    if n == 0 then [] else TickMessages(s) + RunMessages(Step(s), n - 1)
  }

  /** Out-of-range modes fall back to OFF. */
  function ClampMode(m: uint8): uint8
  {
    if m > FAN_MODE_LAST then FAN_MODE_OFF else m
  }

  /** The fan state right after a mode change. */
  function FanModeArmed(s: FanState, m: uint8): FanState
  {
    s.(counter := SETTLE_TICKS, mode := ClampMode(m))
  }

  /** The payload of the last relay update in q, or the initial byte if none. */
  function LastRelaysSent(q: seq<I2CMessage>): uint8
    decreases |q|
  {
    if q == [] then RELAYS_ALL_OFF
    else if q[|q| - 1].SetRelays? then q[|q| - 1].relays
    else LastRelaysSent(q[..|q| - 1])
  }

  // ----- Properties of the specification --------------------------------

  /** The fan masks in arithmetic terms: bit 0 is the remainder modulo 2. */
  lemma FanMasks(r: uint8)
    ensures FanOffByte(r) == r - r % 2 + 1
    ensures FanOnByte(r) == r - r % 2
    ensures FanOn(r) <==> r % 2 == 0
  {
    SetFanBit(r);
    ClearFanBit(r);
    TestFanBit(r);
  }

  /** Setting the fan bit (relays | PIN_FAN) in arithmetic terms. */
  lemma SetFanBit(r: uint8)
    ensures FanOffByte(r) == r - r % 2 + 1
  {
    assert Pow2(8) == 256;
    OrOne(r, 8);
  }

  /** Clearing the fan bit (relays & ~PIN_FAN) in arithmetic terms. */
  lemma ClearFanBit(r: uint8)
    ensures FanOnByte(r) == r - r % 2
  {
    assert Pow2(8) == 256;
    assert Not(PIN_FAN, 8) == NOT_PIN_FAN;
    AndNotOne(r, 8);
  }

  /** The fan test (relays & PIN_FAN) == 0 in arithmetic terms. */
  lemma TestFanBit(r: uint8)
    ensures FanOn(r) <==> r % 2 == 0
  {
    assert Pow2(8) == 256;
    AndOne(r, 8);
  }

  /** Setting, clearing and testing the fan bit. */
  lemma FanBit(r: uint8)
    ensures !FanOn(FanOffByte(r)) && FanOn(FanOnByte(r))
    ensures FanOn(r) ==> FanOnByte(r) == r && FanOffByte(r) != r && FanOnByte(FanOffByte(r)) == r
    ensures !FanOn(r) ==> FanOffByte(r) == r && FanOnByte(r) != r && FanOffByte(FanOnByte(r)) == r
  {
    MasksThenTest(r);
    if FanOn(r) {
      MasksWhenOn(r);
    } else {
      MasksWhenOff(r);
    }
  }

  /** After setting the bit the fan reads off; after clearing it, on. */
  lemma MasksThenTest(r: uint8)
    ensures !FanOn(FanOffByte(r)) && FanOn(FanOnByte(r))
  {
    SetFanBit(r);
    ClearFanBit(r);
    TestFanBit(FanOffByte(r));
    TestFanBit(FanOnByte(r));
  }

  /** With the fan on, clearing is the identity and setting is undone by clearing. */
  lemma MasksWhenOn(r: uint8)
    requires FanOn(r)
    ensures FanOnByte(r) == r && FanOffByte(r) != r && FanOnByte(FanOffByte(r)) == r
  {
    TestFanBit(r);
    SetFanBit(r);
    ClearFanBit(r);
    ClearFanBit(FanOffByte(r));
  }

  /** With the fan off, setting is the identity and clearing is undone by setting. */
  lemma MasksWhenOff(r: uint8)
    requires !FanOn(r)
    ensures FanOffByte(r) == r && FanOnByte(r) != r && FanOffByte(FanOnByte(r)) == r
  {
    TestFanBit(r);
    SetFanBit(r);
    ClearFanBit(r);
    SetFanBit(FanOnByte(r));
  }

  /** Setting or clearing the fan bit keeps every other relay bit. */
  lemma FanMasksKeepOtherBits(r: uint8, i: nat)
    requires 1 <= i < 8
    ensures Bit(FanOffByte(r), i) == Bit(r, i) && Bit(FanOnByte(r), i) == Bit(r, i)
  {
    FanMasks(r);
    assert FanOffByte(r) / 2 == r / 2 == FanOnByte(r) / 2;
  }

  /** A tick only ever alters the fan bit of the relay byte (bit i for
      1 <= i < 8 covers COOL, HEAT, MASTER and the unused high bits), and
      never the mode. */
  lemma StepOnlyTouchesFanBit(s: FanState, i: nat)
    requires 1 <= i < 8
    ensures Bit(Step(s).relays, i) == Bit(s.relays, i)
    ensures Step(s).mode == s.mode
  {
    FanMasksKeepOtherBits(s.relays, i);
  }

  /** A tick with the countdown at zero changes nothing and sends nothing. */
  lemma TickIdle(s: FanState)
    requires s.counter == 0
    ensures Step(s) == s && TickMessages(s) == []
  {
  }

  /** A tick with the countdown above one only decrements it. */
  lemma TickCountsDown(s: FanState)
    requires s.counter > 1
    ensures Step(s) == s.(counter := s.counter - 1) && TickMessages(s) == []
  {
  }

  /** What expiry does in each mode. */
  lemma TickExpires(s: FanState)
    requires s.counter == 1
    ensures s.mode == FAN_MODE_OFF ==> !FanOn(Step(s).relays) && Step(s).counter == 0
    ensures s.mode == FAN_MODE_ON ==> FanOn(Step(s).relays) && Step(s).counter == 0
    ensures s.mode == FAN_MODE_CYC ==>
      FanOn(Step(s).relays) == !FanOn(s.relays) &&
      Step(s).counter == (if FanOn(Step(s).relays) then CYC_ON_TICKS else CYC_OFF_TICKS)
    ensures s.mode > FAN_MODE_CYC ==> Step(s) == s.(counter := 0)
  {
    FanBit(s.relays);
  }

  /** Appending the messages of one tick keeps the cache equal to the last byte sent. */
  lemma LastRelaysSentAfterTick(q: seq<I2CMessage>, s: FanState)
    requires LastRelaysSent(q) == s.relays
    ensures LastRelaysSent(q + TickMessages(s)) == Step(s).relays
  {
    if TickMessages(s) == [] {
      assert q + TickMessages(s) == q;
    }
  }

  /** A display request leaves the last byte sent unchanged. */
  lemma LastRelaysSentAfterPrint(q: seq<I2CMessage>)
    ensures LastRelaysSent(q + [PrintFan]) == LastRelaysSent(q)
  {
    assert (q + [PrintFan])[..|q|] == q;
  }

  /** Running a + b ticks is running a ticks, then b. */
  lemma {:induction false} RunAdditive(s: FanState, a: nat, b: nat)
    ensures Run(s, a + b) == Run(Run(s, a), b)
    decreases a
  {
    if a > 0 {
      RunAdditive(Step(s), a - 1, b);
    }
  }

  /** The messages of a + b ticks are those of the first a, then those of the next b. */
  lemma {:induction false} RunMessagesAdditive(s: FanState, a: nat, b: nat)
    ensures RunMessages(s, a + b) == RunMessages(s, a) + RunMessages(Run(s, a), b)
    decreases a
  {
    if a > 0 {
      var t := Step(s);
      RunMessagesAdditive(t, a - 1, b);
      SeqAssoc(TickMessages(s), RunMessages(t, a - 1), RunMessages(Run(t, a - 1), b));
    } else {
      assert RunMessages(s, a) + RunMessages(s, b) == RunMessages(s, b);
    }
  }

  /** Concatenation is associative. */
  lemma SeqAssoc<T>(x: seq<T>, y: seq<T>, z: seq<T>)
    ensures x + (y + z) == (x + y) + z
  {
  }

  /** With the countdown at zero (as at start-up) ticks change nothing and send nothing. */
  lemma {:induction false} RunIdle(s: FanState, n: nat)
    requires s.counter == 0
    ensures Run(s, n) == s && RunMessages(s, n) == []
    decreases n
  {
    if n > 0 {
      RunIdle(Step(s), n - 1);
    }
  }

  /** While the countdown has not expired, ticks only decrement it. */
  lemma {:induction false} RunCountsDown(s: FanState, k: nat)
    requires k < s.counter
    ensures Run(s, k) == s.(counter := s.counter - k)
    ensures RunMessages(s, k) == []
    decreases k
  {
    if k > 0 {
      RunCountsDown(Step(s), k - 1);
    }
  }

  /** Any number of ticks only ever alters the fan bit, and never the mode. */
  lemma {:induction false} RunOnlyTouchesFanBit(s: FanState, n: nat, i: nat)
    requires 1 <= i < 8
    ensures Bit(Run(s, n).relays, i) == Bit(s.relays, i)
    ensures Run(s, n).mode == s.mode
    decreases n
  {
    if n > 0 {
      StepOnlyTouchesFanBit(s, i);
      RunOnlyTouchesFanBit(Step(s), n - 1, i);
    }
  }

  /** Any number of ticks keeps the COOL, HEAT and MASTER relays: masking
      the byte with each of those pins gives the same before and after. */
  lemma RunKeepsOtherRelays(s: FanState, n: nat)
    ensures And(Run(s, n).relays, PIN_COOL, 8) == And(s.relays, PIN_COOL, 8)
    ensures And(Run(s, n).relays, PIN_HEAT, 8) == And(s.relays, PIN_HEAT, 8)
    ensures And(Run(s, n).relays, PIN_MASTER, 8) == And(s.relays, PIN_MASTER, 8)
  {
    var r, r' := s.relays, Run(s, n).relays;
    assert Pow2(1) == PIN_COOL && Pow2(2) == PIN_HEAT && Pow2(3) == PIN_MASTER;
    RunOnlyTouchesFanBit(s, n, 1);
    RunOnlyTouchesFanBit(s, n, 2);
    RunOnlyTouchesFanBit(s, n, 3);
    AndPow2(r, 1, 8);
    AndPow2(r', 1, 8);
    AndPow2(r, 2, 8);
    AndPow2(r', 2, 8);
    AndPow2(r, 3, 8);
    AndPow2(r', 3, 8);
  }

  /** The ticks only ever queue relay updates (type I2C_SET_RELAYS). */
  lemma {:induction false} RunSendsOnlyRelayUpdates(s: FanState, n: nat)
    ensures forall k :: 0 <= k < |RunMessages(s, n)| ==> RunMessages(s, n)[k].MessageType() == I2C_SET_RELAYS
    decreases n
  {
    if n > 0 {
      RunSendsOnlyRelayUpdates(Step(s), n - 1);
    }
  }

  /** A run of one tick is that tick. */
  lemma RunOne(s: FanState)
    ensures Run(s, 1) == Step(s) && RunMessages(s, 1) == TickMessages(s)
  {
    assert RunMessages(s, 1) == TickMessages(s) + [];
  }

  /** Counting the countdown down to zero ends in the expiry step. */
  lemma {:induction false} ExpiresAfter(s: FanState)
    requires s.counter > 0
    ensures Run(s, s.counter) == Expire(s.mode, s.relays)
    decreases s.counter
  {
    if s.counter == 1 {
      RunOne(s);
    } else {
      TickCountsDown(s);
      ExpiresAfter(Step(s));
    }
  }

  /** Counting the countdown down to zero sends only what the expiry step sends. */
  lemma {:induction false} ExpiresAfterMessages(s: FanState)
    requires s.counter > 0
    ensures RunMessages(s, s.counter) == TickMessages(s.(counter := 1))
    decreases s.counter
  {
    if s.counter == 1 {
      RunOne(s);
    } else {
      TickCountsDown(s);
      ExpiresAfterMessages(Step(s));
      assert RunMessages(s, s.counter) == [] + RunMessages(Step(s), s.counter - 1);
    }
  }

  /** After a mode change the next four ticks leave the relays alone and
      send nothing; the fifth applies the new mode. */
  lemma SettleDelay(s: FanState, m: uint8, k: nat)
    requires k < SETTLE_TICKS
    ensures Run(FanModeArmed(s, m), k).relays == s.relays
    ensures RunMessages(FanModeArmed(s, m), k) == []
    ensures Run(FanModeArmed(s, m), SETTLE_TICKS) == Expire(ClampMode(m), s.relays)
  {
    RunCountsDown(FanModeArmed(s, m), k);
    ExpiresAfter(FanModeArmed(s, m));
  }

  /** In cycle mode, with the fan just turned on, it stays on for 900 ticks,
      during which nothing is sent. */
  lemma CycleFanStaysOn(s: FanState, k: nat)
    requires s.mode == FAN_MODE_CYC && s.counter == CYC_ON_TICKS && FanOn(s.relays)
    requires k < CYC_ON_TICKS
    ensures FanOn(Run(s, k).relays) && RunMessages(s, k) == []
  {
    RunCountsDown(s, k);
  }

  /** In cycle mode, with the fan just turned off, it stays off for 2700
      ticks, during which nothing is sent. */
  lemma CycleFanStaysOff(s: FanState, k: nat)
    requires s.mode == FAN_MODE_CYC && s.counter == CYC_OFF_TICKS && !FanOn(s.relays)
    requires k < CYC_OFF_TICKS
    ensures !FanOn(Run(s, k).relays) && RunMessages(s, k) == []
  {
    RunCountsDown(s, k);
  }

  /** In cycle mode, 900 ticks after the fan turned on it turns off and the
      off phase of 2700 ticks begins. */
  lemma CycleOnPhase(s: FanState)
    requires s.mode == FAN_MODE_CYC && s.counter == CYC_ON_TICKS && FanOn(s.relays)
    ensures Run(s, CYC_ON_TICKS) == s.(relays := FanOffByte(s.relays), counter := CYC_OFF_TICKS)
  {
    ExpiresAfter(s);
  }

  /** The on phase ends with one relay update, turning the fan off. */
  lemma CycleOnPhaseMessages(s: FanState)
    requires s.mode == FAN_MODE_CYC && s.counter == CYC_ON_TICKS && FanOn(s.relays)
    ensures RunMessages(s, CYC_ON_TICKS) == [SetRelays(FanOffByte(s.relays))]
  {
    FanBit(s.relays);
    ExpiresAfterMessages(s);
  }

  /** In cycle mode, 2700 ticks after the fan turned off it turns on and the
      on phase of 900 ticks begins. */
  lemma CycleOffPhase(s: FanState)
    requires s.mode == FAN_MODE_CYC && s.counter == CYC_OFF_TICKS && !FanOn(s.relays)
    ensures Run(s, CYC_OFF_TICKS) == s.(relays := FanOnByte(s.relays), counter := CYC_ON_TICKS)
  {
    ExpiresAfter(s);
  }

  /** The off phase ends with one relay update, turning the fan on. */
  lemma CycleOffPhaseMessages(s: FanState)
    requires s.mode == FAN_MODE_CYC && s.counter == CYC_OFF_TICKS && !FanOn(s.relays)
    ensures RunMessages(s, CYC_OFF_TICKS) == [SetRelays(FanOnByte(s.relays))]
  {
    FanBit(s.relays);
    ExpiresAfterMessages(s);
  }

  /** Cycle mode has a 3600-tick period: the fan goes off after 900 ticks
      on and comes on again after 2700 ticks off. */
  lemma CyclePeriod(s: FanState)
    requires s.mode == FAN_MODE_CYC && s.counter == CYC_ON_TICKS && FanOn(s.relays)
    ensures Run(s, CYC_ON_TICKS + CYC_OFF_TICKS) == s
  {
    FanBit(s.relays);
    CycleOnPhase(s);
    CycleOffPhase(Run(s, CYC_ON_TICKS));
    RunAdditive(s, CYC_ON_TICKS, CYC_OFF_TICKS);
  }

  /** Exactly two relay updates are sent per cycle period: fan off, then fan on. */
  lemma CyclePeriodMessages(s: FanState)
    requires s.mode == FAN_MODE_CYC && s.counter == CYC_ON_TICKS && FanOn(s.relays)
    ensures RunMessages(s, CYC_ON_TICKS + CYC_OFF_TICKS) ==
      [SetRelays(FanOffByte(s.relays)), SetRelays(s.relays)]
  {
    var r := s.relays;
    FanBit(r);
    CycleOnPhase(s);
    var t := Run(s, CYC_ON_TICKS);
    CycleOnPhaseMessages(s);
    CycleOffPhaseMessages(t);
    RunMessagesAdditive(s, CYC_ON_TICKS, CYC_OFF_TICKS);
    assert [SetRelays(FanOffByte(r))] + [SetRelays(r)] == [SetRelays(FanOffByte(r)), SetRelays(r)];
  }

  /** Auxiliary mode is not the same as off: five ticks after switching to
      it a running fan is still running, and nothing is sent. */
  lemma AuxKeepsFanOn(s: FanState)
    requires FanOn(s.relays)
    ensures FanOn(Run(FanModeArmed(s, FAN_MODE_AUX), SETTLE_TICKS).relays)
    ensures RunMessages(FanModeArmed(s, FAN_MODE_AUX), SETTLE_TICKS) == []
  {
    SettleDelay(s, FAN_MODE_AUX, 0);
    ExpiresAfterMessages(FanModeArmed(s, FAN_MODE_AUX));
  }

  // ----- The controller object -----------------------------------------

  class CControl {
    var relays: uint8
    var fanCounter: uint32
    var fanMode: uint8
    /** The shared station record (the global wdata). */
    const wdata: StationData
    /** Messages queued to the I2C task, oldest first. */
    ghost var outbox: seq<I2CMessage>

    /** The cached relay byte is always the last value sent. */
    ghost predicate Valid()
      reads this
    {
      relays == LastRelaysSent(outbox)
    }

    function State(): FanState
      reads this
    {
      FanState(relays, fanCounter, fanMode)
    }

    /** Takes the fan mode from the station record; the relays start all off
        and the countdown at zero. */
    constructor (wdata: StationData)
      ensures Valid() && this.wdata == wdata && outbox == []
      ensures State() == FanState(RELAYS_ALL_OFF, 0, wdata.fanMode)
    {
      relays := RELAYS_ALL_OFF;
      fanCounter := 0;
      fanMode := wdata.fanMode;
      this.wdata := wdata;
      outbox := [];
    }

    /** Advances the fan state machine by one second and queues a relay
        update when the relay byte changed. */
    method Tick()
      requires Valid()
      modifies this
      ensures Valid()
      ensures State() == Step(old(State()))
      ensures outbox == old(outbox) + TickMessages(old(State()))
    {
      ghost var s := State();
      LastRelaysSentAfterTick(outbox, s);
      var r := relays;
      if fanCounter != 0 {
        fanCounter := fanCounter - 1;
        if fanCounter == 0 {
          if fanMode == FAN_MODE_OFF {
            r := Or(r, PIN_FAN, 8);
          }
          if fanMode == FAN_MODE_ON {
            r := And(r, NOT_PIN_FAN, 8);
          }
          if fanMode == FAN_MODE_CYC {
            if And(r, PIN_FAN, 8) != 0 {
              r := And(r, NOT_PIN_FAN, 8);
              fanCounter := CYC_ON_TICKS;
            } else {
              r := Or(r, PIN_FAN, 8);
              fanCounter := CYC_OFF_TICKS;
            }
          }
        }
      }
      if r != relays {
        relays := r;
        outbox := outbox + [SetRelays(r)];
      }
    }

    /** Clamps and records the new fan mode, requests a display update and
        arms the settle delay. */
    method SetFanMode(mode: uint8)
      requires Valid()
      modifies this, wdata
      ensures Valid()
      ensures State() == FanModeArmed(old(State()), mode)
      ensures wdata.fanMode == fanMode
      ensures outbox == old(outbox) + [PrintFan]
    {
      LastRelaysSentAfterPrint(outbox);
      var m := mode;
      if m > FAN_MODE_LAST {
        m := 0;
      }
      wdata.fanMode := m;
      outbox := outbox + [PrintFan];
      fanCounter := SETTLE_TICKS;
      fanMode := m;
    }
  }
}
