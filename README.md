# Super-Simple-Air-Monitor: the main loop, in Dafny

The program is a CircuitPython air monitor. It reads temperature, humidity and
a VOC (volatile organic compound) index every second and shows the index on a
small OLED screen. Every `write_interval` seconds it publishes the readings
to a ThingSpeak MQTT broker. Its only logic of its own is the `while True`
loop in `code.py`, and that loop is what this project models:

- **The visibility duty cycle.** The counter `limit` starts at
  `limit_max = limit_low + limit_visible`. A tick shows data exactly when
  `limit > limit_low`. After that the counter is decremented, and it is
  reset to `limit_max` in the same tick once it is no longer positive.
  The counter is therefore never 0 when a tick reads it. The cycle is
  `limit_max` ticks long: `limit_visible` visible ticks followed by
  `limit_low` blank ones.
- **The publish timer.** `next_interval` is armed to
  `monotonic() + write_interval` before the loop starts. A tick publishes
  exactly when its monotonic time has reached `next_interval`. After a
  publish the timer is re-armed from a second, later monotonic read
  (`rearmTime` here).
- **The air-quality label.** The label is built by four overwriting `if`
  statements, where the last match wins. It is proved equal to a range
  classification.
- **The text.** This covers the day and month tuple lookups (with Python's
  negative indexing), `{n:02}` zero-padding, the `>9` and `<5` alignments
  of the clock block, the status message and the `&`-joined ThingSpeak
  payload. The parts are also read back: a split of the payload, a parser
  for the numbers and an extractor for the index in the status.

Modules, one per concern: `Wrappers` (Option), `Decimal` (`str(int)`, zero
padding, parsing), `Calendar` (`struct_time`, the date, time and clock
blocks, `get_datetime`), `AirQuality`, `Telemetry` (status and payload),
`MonitorLoop` (the configuration, the per-tick `Step`, the `Monitor` class
that updates `limit` and `nextInterval` in place, and run traces),
`DutyCycle` and `PublishSchedule` (what happens over many ticks).

Monotonic time is an `int`: the program uses a float, but only the order of
its values matters. The two floats in the payload (`temperature_f`,
`humidity`) are opaque strings holding Python's rendering of them.

The model follows the code operation by operation, except as listed under
"## Left out", including these points, which are easy to misread:

- The counter is not evaluated at 0, and one cycle is `limit_max` ticks,
  not `limit_max + 1`. With `limit_low = 1` and `limit_visible = 3` the
  pattern is visible, visible, visible, blank, and then it repeats.
- An index of 400 or more gets the empty label, not "Yuck".
- The status message starts with the clock block and the literal
  " - Air: ", so it is not just the label and the index.
- A failing sensor read is not skipped. The program has no error handling:
  an exception from a driver or MQTT call ends the loop. The model assumes
  every such call returns (see "## Left out").

## Model

| member | source | states |
|---|---|---|
| MonitorLoop.NextLimit | code.py:266-272 | the decrement-and-reset keeps the counter within 1..limit_max, and the result is either one less or limit_max |
| MonitorLoop.Initial | code.py:156-158 | the state before the first tick: the counter is in range, the first tick is visible for a well-formed configuration, and nothing is due at the arming time itself unless write_interval is not positive |
| MonitorLoop.IsVisible | code.py:180-182 | for a counter in range, a tick shows data exactly when the counter is among the top limit_visible values of 1..limit_max (the per-run pattern is RunVisibility) |
| MonitorLoop.Step | code.py:221-270 | one tick: the counter stays in range; with the deadline not reached, the deadline is unchanged; after a publish, the deadline is at least one write_interval past the tick's time and past the old deadline |
| MonitorLoop.Monitor.constructor | code.py:156-158 | limit starts at limit_max and the deadline is one write_interval after the first monotonic read |
| MonitorLoop.Monitor.Tick | code.py:159-274 | one loop body: the new state is Step of the old; visible iff limit > limit_low; the display shows the index only when visible; a payload is produced iff monotonic time >= next_interval, and then it is the composed ThingSpeak payload |
| MonitorLoop.Monitor.Run | code.py:159-274 | the loop over a finite run of ticks ends in the trace state, and its visibility and publish decisions are the trace's |
| MonitorLoop.TracesAt | code.py:180-226 | entry k of the visibility and publish traces is the decision taken from the state before tick k |
| DutyCycle.RunVisibility | code.py:156-182 | for a fresh monitor, the k-th visibility decision that Run reports is true exactly when k mod limit_max < limit_visible |
| PublishSchedule.RunPublishSpacing | code.py:158-258 | any two ticks that Run reports as publishing are at least write_interval apart in monotonic time |
| AirQuality.Classify | code.py:230-238 | the label partitions the index: Excellent below 80, Good 80-149, Meh 150-249, Yuck 250-399, empty from 400 upwards (each band in both directions) |
| AirQuality.ChainLabel | code.py:230-238 | the chain of overwriting ifs yields exactly the range classification |
| AirQuality.ClassifyMonotone | code.py:230-238 | a higher index never gets a milder label |
| AirQuality.ClassifyBoundaries | code.py:230-238 | the labels at 79, 80, 149, 150, 249, 250, 399 and 400 |
| Decimal.NatToString | code.py:240-241 | str(n) is a non-empty digit string without leading zeros, one digit exactly for n < 10 |
| Decimal.IntToString | code.py:240-241 | str(i) is an integer literal with a leading '-' exactly for negative i |
| Decimal.IntToStringRoundTrip | code.py:240-241 | parsing str(i) gives back i |
| Decimal.ZeroPadded | code.py:175 | `{n:0w}` is max(w, length of str(n)) long and starts with '-' exactly for negative n (its value is kept, by ZeroPaddedRoundTrip) |
| Decimal.ZeroPaddedRoundTrip | code.py:175 | the `0w` format is max(w, length of str(n)) long and still parses to n |
| Decimal.TwoDigits | code.py:175 | `{n:02}` for 0 <= n < 100 is exactly two digits that read back as n |
| Calendar.PyIndex | code.py:174 | tuple subscription succeeds exactly for -len <= i < len, with negative indices counting from the end |
| Calendar.PadLeft | code.py:176 | `{s:>w}` is max(w, len s) long, ends in s and is padded with spaces in front |
| Calendar.PadRight | code.py:176 | `{s:<w}` is max(w, len s) long, starts with s and is padded with spaces after it |
| Calendar.DateBlock | code.py:174 | the date block exists exactly when both tuple lookups are within Python's index range (its day and month positions: LookupsInBounds) |
| Calendar.TimeBlock | code.py:175 | the time block is at least five characters (exactly "hh:mm" for real times: TimeBlockShape) |
| Calendar.ClockBlock | code.py:176 | the clock block exists exactly when the lookups are in range, is at least 13 characters longer than the date block and ends in " PST" (no padding: ClockBlockUnpadded; no '&' or '(': ClockBlockAvoids) |
| Calendar.GetDatetime | code.py:110-115 | the greeting exists exactly when the lookups are in range (day and month positions: LookupsInBounds; "hh:mm:ss": GetDatetimeTimeShape) |
| Calendar.GetDatetimeTimeShape | code.py:114 | for hour, minute and second below 100 the greeting ends in "hh:mm:ss" and a newline, each field two digits that read back as its value |
| Calendar.DateBlockDefinedIff | code.py:174-176 | the date block, clock block and greeting exist exactly when the weekday is in -7..6 and the month in -11..12 (otherwise IndexError) |
| Calendar.LookupsInBounds | code.py:105-114 | with localtime's weekday 0..6 and month 1..12 every lookup succeeds and the texts carry the named day and month |
| Calendar.TimeBlockShape | code.py:175 | for hour and minute below 100 the time block is "hh:mm", five characters that read back as hour and minute |
| Calendar.ClockBlockUnpadded | code.py:176 | the alignments never pad a real date block (at least 13 characters) or time block, so the clock block is date " at " time " PST" |
| Calendar.ClockBlockAvoids | code.py:174-176 | a clock block holds neither '&' nor '(' |
| Telemetry.SplitJoin | code.py:241 | splitting on the separator undoes joining when no part holds it |
| Telemetry.JoinSplit | code.py:241 | joining undoes splitting for every string |
| Telemetry.StatusMsg | code.py:240 | the status message starts with the clock block, is longer than clock and label together and ends in ')' (the index reads back: StatusVocRoundTrip) |
| Telemetry.Payload | code.py:241 | the payload ends with the status message (the five fields in order: PayloadIsJoin, PayloadSplits) |
| Telemetry.PublishPayload | code.py:229-241 | a published payload ends in " (" + str(voc_index) + ")" (all fields: PublishPayloadFields) |
| Telemetry.PayloadIsJoin | code.py:241 | the payload is its five fields in order joined by '&' |
| Telemetry.PayloadSplits | code.py:241 | if the float texts and the status are free of '&', splitting the payload on '&' gives field1..field4 and status in order |
| Telemetry.StatusVocRoundTrip | code.py:240 | the index can be read back from the parentheses that end the status message, whatever the clock and the label are |
| Telemetry.PublishPayloadFields | code.py:229-241 | a published payload splits into the five fields; field4 is the index, and the status carries the label for the index and the index again |
| DutyCycle.TraceLimit | code.py:156-270 | in any run the counter before tick k depends on k alone |
| DutyCycle.FirstCycle | code.py:156-157 | the first cycle counts down limit_max, limit_max - 1, ..., 1 |
| DutyCycle.LimitPeriodic | code.py:267-270 | the counter repeats every limit_max ticks |
| DutyCycle.LimitClosedForm | code.py:267-270 | before tick k the counter is limit_max - k mod limit_max |
| DutyCycle.LimitBounds | code.py:266-272 | with limit_low >= 0 and limit_visible >= 1 the counter read by any tick is in 1..limit_max (never 0) |
| DutyCycle.VisibilityPattern | code.py:180-182 | tick k is visible iff k mod limit_max < limit_visible: visible ticks first, then the limit_low blank ones |
| DutyCycle.CountAnyCycle | code.py:23-28 | every window of limit_max consecutive ticks has exactly limit_visible visible ticks |
| DutyCycle.CountCycles | code.py:23-28 | n whole cycles contain exactly n * limit_visible visible ticks |
| DutyCycle.ProgramDutyCycle | code.py:27-28 | with the program's settings the counter is in 1..4 and tick k is blank iff k mod 4 = 3 |
| PublishSchedule.ClockNondecreasing | code.py:162 | monotonic reads of a well-timed run never decrease |
| PublishSchedule.DeadlineAfterPublish | code.py:258 | after a publish at tick i the deadline stays at least write_interval past tick i's time |
| PublishSchedule.PublishSpacing | code.py:223-258 | any two publishes are at least write_interval apart in monotonic time |
| PublishSchedule.DeadlineNotBeforeStart | code.py:158 | the deadline is never earlier than one write_interval after arming |
| PublishSchedule.FirstPublishNotEarly | code.py:158 | no publish happens before one write_interval has passed since arming |
| PublishSchedule.QuietTicksKeepDeadline | code.py:223-224 | ticks that do not publish leave the deadline unchanged |
| PublishSchedule.FiresWhenDue | code.py:226 | after a deadline is set, the first tick whose monotonic time reaches it publishes and no earlier tick does |
| PublishSchedule.ScheduleIgnoresCalendar | code.py:162-163 | runs with the same monotonic reads go through the same states, whatever their calendar times and readings |

## Left out

- Hardware: the I2C bus, the BME280 and SGP40 reads, the Fahrenheit conversion, and the SSD1306 display. The display's `displayio` groups, fonts, `Rect` and `Label` are left out too (code.py:67-98, 165-170, 189-218). These are driver calls. The readings are inputs to `Tick`, and the display is reduced to the text it would draw.
- Network: wifi, the socket pool, the NTP sync `set_clock_now`, and the MQTT client with its `connect` and `publish` (code.py:68, 102-103, 118-137, 244-255). These are I/O. The model produces the payload that would be published, and the topic string (code.py:21) is not modelled.
- Configuration read with `os.getenv` (code.py:14-21). This is environment I/O. The loop settings are a `Config` value, and the program's own values are `PROGRAM_CONFIG`.
- Float rendering of `temperature_f` and `humidity`. These are opaque strings.
- The REPL output `print_line` and `data_block`, the `del main_group` / `gc.collect()` rebuild, and `time.sleep(1)` (code.py:177, 184-187, 261-264, 274). These are printing, memory and timing plumbing with no effect on the loop state.
- MonitorLoop.Monitor.Run: every driver and MQTT call is assumed to return (the wifi address read, the sensor reads, `io.connect` and `io.publish`, code.py:161, 165-170, 244, 255). In the program an exception from any of them ends the `while True` loop before line 258 re-arms the timer, so a model run stands for a prefix of the program's ticks, and a failed publish is not modelled.
- MonitorLoop.IsDue: has no contract of its own; when a publish fires and how the deadline moves are stated by Step, FiresWhenDue and QuietTicksKeepDeadline.
- MonitorLoop.Monitor.Tick: requires the weekday and month to be within Python's index range. `time.localtime()` always supplies such values. Outside that range the program raises IndexError and stops, and that crash is not modelled.
