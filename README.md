# ESP32 thermostat: a verified model of its control core

This project models four sequential parts of the ESP32 smart-thermostat
firmware and proves properties of them:

- **The fan controller `CControl`** (`control.dfy`). It is a once-a-second
  state machine over a cached, active-low relay byte, a countdown and a fan
  mode. The modes are OFF, ON, CYC (a 15-minute-on / 45-minute-off cycle)
  and AUX. The mode setter clamps the mode, records it in the shared
  station record, requests a display update and arms a 5-second settle
  delay.
  - The I2C task's message queue is a ghost `outbox`: the messages queued
    so far, oldest first.
  - `Step`, `Run` and `TickMessages` are the specification functions.
    `Tick` is proved to match them.
  - The lemmas about those functions cover the rest: the settle delay, the
    900/2700-tick cycle and its 3600-tick period, only the fan bit ever
    changing, and the cached byte staying equal to the last byte sent.
- **The threshold classifier `CThermostat`** (`thermostat.dfy`). It holds
  four "on" set-points, each with an "off" point at a fixed distance. It has
  range-checked setters and a classifier that puts a temperature into
  cooling and heating regions A to E, or 'X' when the boundaries are out of
  order.
  - Region letters are tied to a reference definition: how many boundaries
    lie at or below (cooling) or at or above (heating) the temperature.
  - Monotonicity in the temperature follows from that definition.
- **The relay expander byte and the button task** (`mainapp.dfy`). These are
  the active-low byte that `set_gpio_ext` computes for the PCF8574 relay
  expander, and the per-event body of the button task. The button task
  counts high levels per button pin and records the sampled level for the
  LCD refresh.
- **The uptime formatter `get_uptime_str`** (`webserver.dfy`). It turns
  seconds into days:hours:minutes:seconds, with days wrapping every 30
  days, printed as unpadded decimal numerals separated by ':'.
  - A decimal parser and a splitter on ':' are its partners.
  - The round trip from text back to the fields is proved. So is the fact
    that the text determines the time modulo 30 days, and the other way
    round.

`station.dfy` holds the shared types and constants of `main.h`. `bits.dfy`
defines C's `&`, `|` and `~` on unsigned integers of a given width, bit by
bit.

Representation notes:

- The fan controller's relay byte is an `int` in 0..255. The masks
  `relays |= PIN_FAN` and `relays &= ~PIN_FAN` are computed with the `Bits`
  functions. `~PIN_FAN` is the byte 0xFE that the masking keeps.
- `set_gpio_ext` works only through byte masks, so its byte is a `bv8`. The
  sensor task's test counter `r` is taken as its 32-bit pattern (`bv32`).
- Temperatures are reals. Every boundary is an integer plus or minus 1.5 or
  5.0, and the code neither multiplies nor divides them.
- Where the repository's design description and the code disagree, the
  model follows the code:
  - The code has an AUX fan mode and no TIMED mode.
  - `main.h:22` calls AUX "otherwise equivalent to FAN_MODE_OFF", but at
    expiry `tick` has no branch for AUX (`control.cpp:47-64`): the fan bit
    is left as it was, so a running fan keeps running (`AuxKeepsFanOn`).
  - No COOL/HEAT interlock is applied.
  - The thermostat setters accept 60..80 (cooling), 61..80 (heating),
    55..85 (cooling safety) and 56..85 (heating safety). The description
    says targets are clamped to [60,90]. The code rejects out-of-range
    values rather than clamping them: it returns false and changes nothing.
  - `set_fan_mode` records the mode in the station record but does not
    write it to persistent storage.

## Model

| member | source | states |
|---|---|---|
| Station.StationData.constructor | main.h:9-42 | the station record holds the given fan mode (`fan_mode`, the only field modelled) |
| Control.FanMasks | control.cpp:48-61 | setting the fan bit gives `r - r%2 + 1`, clearing it gives `r - r%2`, and the fan is on exactly when bit 0 is 0 |
| Control.FanBit | control.cpp:48-61 | after setting the bit the fan is off and after clearing it the fan is on; each mask is the identity when the bit already has that value; set and clear undo each other |
| Control.FanMasksKeepOtherBits | control.cpp:48-61 | setting or clearing the fan bit keeps every bit 1..7 of the byte |
| Control.StepOnlyTouchesFanBit | control.cpp:40-66 | a tick keeps bits 1..7 of the relay byte (COOL, HEAT, MASTER and the unused bits) and the mode |
| Control.TickIdle | control.cpp:40-74 | with the countdown at 0 a tick changes no field and sends nothing |
| Control.TickCountsDown | control.cpp:42-45 | with the countdown above 1 a tick only decrements it and sends nothing |
| Control.TickExpires | control.cpp:45-64 | at expiry: OFF turns the fan off and ON turns it on, both leaving the countdown at 0; CYC toggles the fan and reloads 900 when it turns on and 2700 when it turns off; AUX changes nothing but the countdown, which becomes 0 |
| Control.LastRelaysSentAfterTick | control.cpp:68-74 | if the cached byte equals the last byte sent before a tick, it still does after the tick's messages |
| Control.LastRelaysSentAfterPrint | control.cpp:84-86 | a display request does not change the last relay byte sent |
| Control.RunAdditive | control.cpp:16-21 | running a + b ticks is running a ticks, then b |
| Control.RunMessagesAdditive | control.cpp:16-21 | the messages of a + b ticks are those of the first a ticks followed by those of the next b |
| Control.RunIdle | control.cpp:40-74 | with the countdown at 0, as at start-up, any number of ticks changes nothing and sends nothing |
| Control.RunCountsDown | control.cpp:42-45 | for k below the countdown, k ticks only subtract k from it and send nothing |
| Control.RunOnlyTouchesFanBit | control.cpp:40-66 | any number of ticks keeps bits 1..7 of the relay byte and the mode |
| Control.RunKeepsOtherRelays | control.cpp:40-66 | any number of ticks leaves `relays & PIN_COOL`, `relays & PIN_HEAT` and `relays & PIN_MASTER` as they were |
| Control.RunSendsOnlyRelayUpdates | control.cpp:68-74 | every message the ticks queue has type `I2C_SET_RELAYS` |
| Control.ExpiresAfter | control.cpp:42-64 | a countdown of c ends, after c ticks, in the expiry state of the current mode |
| Control.ExpiresAfterMessages | control.cpp:42-74 | the only messages of those c ticks are those of the expiry tick |
| Control.SettleDelay | control.cpp:89-90 | after a mode change the next four ticks keep the relays and send nothing; the fifth applies the clamped new mode |
| Control.CycleFanStaysOn | control.cpp:51-58 | in CYC with the fan just turned on, it stays on for 900 ticks and nothing is sent |
| Control.CycleFanStaysOff | control.cpp:59-63 | in CYC with the fan just turned off, it stays off for 2700 ticks and nothing is sent |
| Control.CycleOnPhase | control.cpp:51-64 | 900 ticks after turning on in CYC the fan is off and the countdown is 2700 |
| Control.CycleOnPhaseMessages | control.cpp:51-74 | the on phase sends exactly one relay update, turning the fan off |
| Control.CycleOffPhase | control.cpp:51-64 | 2700 ticks after turning off in CYC the fan is on and the countdown is 900 |
| Control.CycleOffPhaseMessages | control.cpp:51-74 | the off phase sends exactly one relay update, turning the fan on |
| Control.CyclePeriod | control.cpp:51-64 | CYC returns to the same state after 3600 ticks |
| Control.CyclePeriodMessages | control.cpp:51-74 | one 3600-tick CYC period sends exactly two relay updates: fan off, then fan back on |
| Control.AuxKeepsFanOn | control.cpp:47-64 | AUX is not the same as OFF: five ticks after switching to AUX a running fan is still running, and no relay update is sent |
| Control.CControl.constructor | control.cpp:24-26 | the fan mode comes from the station record, the relays start all off (0xFF) and the countdown at 0, and nothing has been sent |
| Control.CControl.Tick | control.cpp:38-75 | the new state is `Step` of the old; the queued messages are `TickMessages` of the old state; the cached byte stays equal to the last byte sent |
| Control.CControl.SetFanMode | control.cpp:77-91 | a mode above 3 becomes 0; the station record and the controller get the same mode; the countdown becomes 5; exactly one display request is queued; the relays are kept |
| Thermostat.CoolRegion | thermostat.cpp:38-54 | 'X' exactly when the cooling boundaries are not strictly increasing; otherwise the letter is the number of boundaries at or below f, so a value on a boundary gets the higher letter |
| Thermostat.HeatRegion | thermostat.cpp:56-72 | 'X' exactly when the heating boundaries are not strictly decreasing; otherwise the letter is the number of boundaries at or above f, so a value on a boundary gets the colder letter |
| Thermostat.CountAtOrBelowMonotone | thermostat.cpp:42-51 | a higher temperature has at least as many boundaries at or below it |
| Thermostat.CountAtOrAboveAntitone | thermostat.cpp:60-69 | a higher temperature has at most as many boundaries at or above it |
| Thermostat.CoolRegionMonotone | thermostat.cpp:42-51 | for fixed boundaries, raising f never lowers the cooling letter |
| Thermostat.HeatRegionAntitone | thermostat.cpp:60-69 | for fixed boundaries, raising f never raises the heating letter |
| Thermostat.CoolUnsortedEverywhere | thermostat.cpp:38-54 | if the cooling set-point is not below the cooling safety "off" point, every temperature gets 'X' |
| Thermostat.CThermostat.constructor | thermostat.cpp:5-8 | a new thermostat holds the reset values |
| Thermostat.CThermostat.Reset | thermostat.cpp:10-23 | set-points 85/72/68/60, "off" points 80/70.5/69.5/65, all four region codes 'X' |
| Thermostat.CThermostat.Hysteresis | thermostat.cpp:26-32 | each "off" point is its "on" point minus 5.0 or 1.5 (cooling) or plus 1.5 or 5.0 (heating); nothing else changes |
| Thermostat.CThermostat.ComputeRegions | thermostat.cpp:35-73 | the two region codes become `CoolRegion` and `HeatRegion` of f; no other field changes |
| Thermostat.CThermostat.SetCool | thermostat.cpp:75-86 | accepts exactly 60..80; when accepted, only the cooling set-point and its "off" point change; when rejected, nothing changes; the offsets are kept |
| Thermostat.CThermostat.SetHeat | thermostat.cpp:88-100 | accepts exactly 61..80 (the second test excludes 60); otherwise as for SetCool |
| Thermostat.CThermostat.SetCoolSafety | thermostat.cpp:102-113 | accepts exactly 55..85; otherwise as for SetCool |
| Thermostat.CThermostat.SetHeatSafety | thermostat.cpp:115-127 | accepts exactly 56..85 (the second test excludes 55); otherwise as for SetCool |
| Thermostat.SetCoolToSafetyOff | thermostat.cpp:75-86 | the setters do not keep the boundaries ordered: after a reset `set_cool(80)` is accepted and every temperature then classifies as 'X' for cooling |
| MainApp.SetGpioExtData | main.cpp:104-108 | the byte is 0xF0 with bit i set exactly when argument i + 1 is false |
| MainApp.GpioExtByteBits | main.cpp:104-108 | for i in 0..3, bit i is 0 exactly when relay i + 1 is requested (active-low); bits 4..7 are always 1 |
| MainApp.GpioExtByteExtremes | main.cpp:104-108 | all-false arguments give 0xFF and all-true arguments give 0xF0 |
| MainApp.StartupGpioExtData | main.cpp:201 | the start-up call writes 0xF0 |
| MainApp.TestPatternGpioExtData | main.cpp:167-168 | `set_gpio_ext(r&1, r&2, r&4, r&8)` writes 0xF0 with the low four bits of the complement of r |
| MainApp.ButtonEventCounts | main.cpp:65-68 | an event on GPIO 15, 16 or 17 adds the level (0 or 1) to that button's counter and to no other |
| MainApp.OtherPinEvent | main.cpp:65-68 | an event on any other pin changes no counter |
| MainApp.ButtonsCountHighEvents | main.cpp:61-70 | after any series of events, each counter has grown by the number of its pin's high-level events, so counters never decrease |
| MainApp.ButtonTask.constructor | main.cpp:22-50 | the counters start at 0 (line 50) and the LCD refresh flag starts set (its initialiser at line 22) |
| MainApp.ButtonTask.HandleEvent | main.cpp:65-70 | the counters become `ButtonsAfter` of the old counters, and the LCD refresh flag becomes the sampled level |
| WebServer.UptimeFields | webserver.cpp:29-32 | seconds < 60, minutes < 60, hours < 24, days < 30, and days·86400 + hours·3600 + minutes·60 + seconds = sec mod 2592000; its partners are `UptimeFieldsSameIffWrap` and `UptimeRoundTrip` |
| WebServer.FieldsUnderAMinute | webserver.cpp:29-32 | under a minute, days, hours and minutes are 0 and seconds is sec |
| WebServer.UptimeFieldsSameIffWrap | webserver.cpp:29-32 | two times have the same fields exactly when they agree modulo 30 days |
| WebServer.NatToString | webserver.cpp:33 | the decimal numeral is non-empty and made only of digits |
| WebServer.ParsePrinted | webserver.cpp:33 | parsing the printed numeral of n gives n |
| WebServer.NoLeadingZero | webserver.cpp:33 | the numeral starts with '0' only for 0 (unpadded) |
| WebServer.UptimeRoundTrip | webserver.cpp:33 | splitting the text on ':' gives exactly four all-digit parts, which parse to days, hours, minutes and seconds and are exactly the decimal numerals `NatToString` of those fields |
| WebServer.UptimeUnpadded | webserver.cpp:33 | each of the four parts of the text is "0" or starts with a non-zero digit: no field is zero-padded |
| WebServer.UptimeStr | webserver.cpp:33 | the text holds exactly three ':'; what lies between them is stated by its partners `UptimeRoundTrip` (the four unpadded numerals, parsed back to the fields), `UptimeUnpadded` and `UptimeStrSameIffWrap` |
| WebServer.UptimeStrDeterminesFields | webserver.cpp:27-34 | equal texts come from equal fields |
| WebServer.UptimeStrSameIffWrap | webserver.cpp:27-34 | two times print the same text exactly when they agree modulo 30 days |
| WebServer.UptimeUnderAMinute | webserver.cpp:29-33 | under a minute the text is "0:0:0:" followed by sec in decimal |

## Left out

- Task and queue plumbing is not modelled. This covers `vTask_control`, the
  task creation in the `CControl` constructor, the sensor task loop,
  `setup_sw`, the GPIO interrupt handler, and blocking receive/send. These
  are RTOS calls and concurrency. The I2C queue is only a ghost sequence of
  the messages sent.
- The button task receives `io_num` from a queue and reads `level` from the
  pin. Both are parameters of `HandleEvent`.
- The AC mode setter, the cooling and heating target setters, `accounting`
  and `model_get_temperature` are declared in `control.h` without bodies in
  this revision. No AC machine, COOL/HEAT interlock, MASTER gating or usage
  accounting is modelled.
- webserver.cpp beyond `get_uptime_str` is left out: WiFi, mDNS, OTA, the
  HTTP handlers, the semaphore-guarded page and JSON building, and float
  formatting. These are network I/O, foreign libraries and floats.
- webclient.cpp is not part of this model. It is a TCP client with JSON
  parsing and timed retries.
- Hardware and persistence in main.cpp are left out: the OneWire sensor read
  and its Celsius-to-Fahrenheit conversion, the LCD, Preferences storage, and
  the `Wire` transmission in `set_gpio_ext` (only the data byte is modelled).
- Floating point: thermostat temperatures are exact reals. No IEEE rounding
  is modelled. Every boundary is a small integer plus or minus 1.5 or 5.0,
  which a float holds exactly, and `compute_regions` only compares the
  temperature with the boundaries. A comparison between finite floats is
  exact, so for every finite temperature the real model gives the same
  regions.
- Thermostat.CThermostat.ComputeRegions: does not model a NaN temperature. With
  NaN every comparison fails, so with ordered boundaries the source sets
  both region codes to 'E' (`thermostat.cpp:42-51`, `60-69`). A real cannot
  be NaN.
- The `PrintFan` message has no payload. The source leaves its data byte
  uninitialised.
- Only the `fan_mode` field of the station record is modelled. It is the
  only field the fan controller reads or writes.
- The previous-region codes of `CThermostat` are only set by `reset` in this
  revision. The model keeps them and proves that nothing else changes them.
- MainApp.ButtonTask.HandleEvent: does not model overflow of the C `int`
  counters, because the counters are unbounded integers. In C, overflow is
  undefined behaviour after about 2^31 presses.
- MainApp.TestPatternGpioExtData: takes the counter `r` as a 32-bit pattern.
  The signed overflow of `r++` in C is undefined behaviour and is not
  modelled.
