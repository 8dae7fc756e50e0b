/** Two computations of main.cpp: the byte set_gpio_ext writes to the
    PCF8574 relay expander (active-low: a requested relay gets a 0 bit), and
    the per-event body of the button task, which counts high levels per
    button pin and records the sampled level for the LCD refresh. */
module MainApp {
  import opened Station

  // ----- The relay expander byte -----------------------------------------
  // set_gpio_ext works on its byte only through masks, so the byte is a
  // bit-vector here; the sensor task's counter r is a 32-bit int, taken as
  // its bit pattern.

  /** The byte for four relay requests: the upper four bits are always 1,
      and bit i is 1 exactly when request i (from 0) is off. */
  function GpioExtByte(r1: bool, r2: bool, r3: bool, r4: bool): bv8
  {
    0xF0 | (if r1 then 0 else 1) | (if r2 then 0 else 2) | (if r3 then 0 else 4) | (if r4 then 0 else 8)
  }

  /** The data byte of set_gpio_ext: starts from all relays off and clears
      the bit of every requested relay. */
  method SetGpioExtData(r1: bool, r2: bool, r3: bool, r4: bool) returns (data: bv8)
    ensures data == GpioExtByte(r1, r2, r3, r4)
  {
    data := 0xFF;
    if r1 {
      data := data & 0xFE;
    }
    if r2 {
      data := data & 0xFD;
    }
    if r3 {
      data := data & 0xFB;
    }
    if r4 {
      data := data & 0xF7;
    }
  }

  /** Bit i of the byte is 0 exactly when relay i is requested (active-low),
      and bits 4 to 7 are always 1. */
  lemma GpioExtByteBits(r1: bool, r2: bool, r3: bool, r4: bool)
    ensures forall i: bv8 :: i < 4 ==> ((GpioExtByte(r1, r2, r3, r4) >> i) & 1 == 0 <==> [r1, r2, r3, r4][i])
    ensures GpioExtByte(r1, r2, r3, r4) & 0xF0 == 0xF0
  {
  }

  /** With nothing requested every relay is off; with everything requested
      the byte is the 0xF0 written at start-up. */
  lemma GpioExtByteExtremes()
    ensures GpioExtByte(false, false, false, false) == 0xFF
    ensures GpioExtByte(true, true, true, true) == 0xF0
  {
  }

  /** The start-up call set_gpio_ext(1, 1, 1, 1). */
  method StartupGpioExtData() returns (data: bv8)
    ensures data == 0xF0
  {
    data := SetGpioExtData(true, true, true, true);
  }

  /** The test pattern of the sensor task: set_gpio_ext(r&1, r&2, r&4, r&8)
      for the counter r writes 0xF0 | (~r & 0x0F). */
  method TestPatternGpioExtData(r: bv32) returns (data: bv8)
    ensures data == (0xF0 | (!r & 0x0F)) as bv8
  {
    data := SetGpioExtData(r & 1 != 0, r & 2 != 0, r & 4 != 0, r & 8 != 0);
  }

  // ----- Button events ---------------------------------------------------

  /** The GPIO pins of the three buttons, in counter order. */
  const GPIO_INPUT_IO_0: uint32 := 15
  const GPIO_INPUT_IO_1: uint32 := 16
  const GPIO_INPUT_IO_2: uint32 := 17
  const BUTTON_PINS: seq<uint32> := [GPIO_INPUT_IO_0, GPIO_INPUT_IO_1, GPIO_INPUT_IO_2]

  /** A sampled level added to an int counter. */
  function LevelValue(level: bool): int
  {
    if level then 1 else 0
  }

  /** The counters after one event on pin ioNum sampled at level: the
      counter of that pin (if it is a button pin) grows by the level. */
  function ButtonsAfter(counts: seq<int>, ioNum: uint32, level: bool): (r: seq<int>)
    requires |counts| == 3
    ensures |r| == 3
  {
    seq(3, k requires 0 <= k < 3 => counts[k] + (if ioNum == BUTTON_PINS[k] then LevelValue(level) else 0))
  }

  /** An event on a button pin adds its level to that pin's counter only. */
  lemma ButtonEventCounts(counts: seq<int>, ioNum: uint32, level: bool, k: nat)
    requires |counts| == 3 && k < 3 && ioNum == BUTTON_PINS[k]
    ensures ButtonsAfter(counts, ioNum, level)[k] == counts[k] + LevelValue(level)
    ensures forall j :: 0 <= j < 3 && j != k ==> ButtonsAfter(counts, ioNum, level)[j] == counts[j]
  {
  }

  /** An event on any other pin changes no counter. */
  lemma OtherPinEvent(counts: seq<int>, ioNum: uint32, level: bool)
    requires |counts| == 3 && ioNum !in BUTTON_PINS
    ensures ButtonsAfter(counts, ioNum, level) == counts
  {
    assert forall k :: 0 <= k < 3 ==> ioNum != BUTTON_PINS[k];
  }

  /** The counters after a series of events, oldest first. */
  function ButtonsAfterEvents(counts: seq<int>, events: seq<(uint32, bool)>): (r: seq<int>)
    requires |counts| == 3
    ensures |r| == 3
    decreases |events|
  {
    if events == [] then counts
    else ButtonsAfterEvents(ButtonsAfter(counts, events[0].0, events[0].1), events[1..])
  }

  /** How many of the events were sampled high on the given pin. */
  function HighEvents(events: seq<(uint32, bool)>, pin: uint32): (n: nat)
    ensures n <= |events|
  {
    if events == [] then 0
    else (if events[0].0 == pin && events[0].1 then 1 else 0) + HighEvents(events[1..], pin)
  }

  /** Each counter counts the high-level events of its button pin, so the
      counters never decrease. */
  lemma {:induction false} ButtonsCountHighEvents(counts: seq<int>, events: seq<(uint32, bool)>, k: nat)
    requires |counts| == 3 && k < 3
    ensures ButtonsAfterEvents(counts, events)[k] == counts[k] + HighEvents(events, BUTTON_PINS[k])
    ensures ButtonsAfterEvents(counts, events)[k] >= counts[k]
    decreases |events|
  {
    if events != [] {
      ButtonsCountHighEvents(ButtonsAfter(counts, events[0].0, events[0].1), events[1..], k);
    }
  }

  /** The state the button task shares: the counters (volatile int
      buttons[3]) and the LCD refresh flag. */
  class ButtonTask {
    const buttons: array<int>
    var lcdUpdate: bool

    constructor ()
      ensures buttons.Length == 3 && buttons[..] == [0, 0, 0] && lcdUpdate
      ensures fresh(buttons)
    {
      buttons := new int[3](_ => 0);
      lcdUpdate := true;
    }

    /** One received event: pin ioNum sampled at level. */
    method HandleEvent(ioNum: uint32, level: bool)
      requires buttons.Length == 3
      modifies this, buttons
      ensures buttons[..] == ButtonsAfter(old(buttons[..]), ioNum, level)
      ensures lcdUpdate == level
    {
      if ioNum == GPIO_INPUT_IO_0 {
        buttons[0] := buttons[0] + LevelValue(level);
      }
      if ioNum == GPIO_INPUT_IO_1 {
        buttons[1] := buttons[1] + LevelValue(level);
      }
      if ioNum == GPIO_INPUT_IO_2 {
        buttons[2] := buttons[2] + LevelValue(level);
      }
      lcdUpdate := level;
    }
  }
}
