# w1_therm exporter: the sampling cycle in Dafny

The exporter reads one-wire temperature sensors through the Linux `w1_therm`
driver and publishes each sensor's latest temperature as a Prometheus gauge
labelled `sensor_id`. This project models the only part with logic: one pass
of the sampling goroutine. That pass has two halves.

- The payload parser turns the text of a sensor's `w1_slave` file into one of
  three outcomes. With no `YES` token the outcome is a checksum failure. With no
  usable `t=` value it is a skip. Otherwise it is a reading, in tenths of a
  degree Celsius.
- The state machine keeps two maps keyed by sensor id. `gauge` holds the
  published values (the gauge vector's labels). `registry` holds the Unix second
  of each sensor's last successful reading (`currentSensors`). Each listed sensor
  is processed in order, then the staleness sweep drops every sensor whose last
  reading is more than 300 seconds old.

Modules, one per concern:

- `Wrappers` (`wrappers.dfy`): `Option` and a map lookup.
- `GoArith` (`goarith.dfy`): the 64-bit range and Go's integer division, which
  truncates toward zero.
- `Text` (`text.dfy`): `strings.Index`, `strings.Contains`, `strings.SplitAfter`,
  and `strings.Replace` of one character by nothing.
- `Strconv` (`strconv.dfy`): `strconv.Atoi`, plus `Itoa` as its inverse.
- `Payload` (`payload.dfy`): value-field extraction, sanitising, scaling and
  `Parse`. It also has `DriverText`, the two lines the driver writes, used to
  state the parser's round trip.
- `Sampler` (`sampler.dfy`): `State`; `Observe`, which turns a directory entry
  (sensor id, file contents or a failed read, clock reading) into an `Event`
  carrying the parser's outcome; `Apply` (one iteration of the per-sensor loop);
  `ApplyAll` (the whole loop); `Sweep` and the in-place sweep `SweepInPlace`;
  `Cycle`; and `Run` (many cycles).
- `Scenarios` (`scenarios.dfy`): worked cycles with payloads shaped like the
  driver's output.

A payload is a `string`. Each character stands for one byte of the file. The
tokens the code looks for (`YES`, `t=`, digits, signs, `\n`, `\r`, `\t`) are
single bytes, so matching characters is the same as matching bytes.

Two details of the code shape the model:

- On a checksum failure the code deletes only the gauge label (line 59). The
  registry entry stays until the sweep removes it. So `gauge` keys are always a
  subset of `registry` keys, but not the other way round;
  `RegistryOutlivesGauge` shows a case where the two key sets differ.
- The staleness test is `timestamp + 300 < now` (line 99). So an entry exactly
  300 seconds old is kept and one 301 seconds old is dropped (`SweepBoundary`).

## Model

| member | source | states |
|---|---|---|
| GoArith.TruncDiv | w1_therm_exporter.go:84 | `raw / 100` in Go: the quotient leaves a remainder smaller than the divisor that never has the opposite sign of the dividend, so it truncates toward zero |
| GoArith.TruncDivUnique | w1_therm_exporter.go:84 | any quotient meeting Go's truncated-division definition is `TruncDiv`, so that definition fixes the value |
| GoArith.TruncDivVersusEuclid | w1_therm_exporter.go:84 | equals Euclidean division for non-negative dividends and exact multiples; one more than it (toward zero) for other negative dividends |
| GoArith.TruncDivOdd | w1_therm_exporter.go:84 | negating the raw value negates the quotient, so below-freezing readings are truncated toward zero |
| GoArith.TruncDivInt64 | w1_therm_exporter.go:84 | dividing a 64-bit value by a positive divisor stays in the 64-bit range and is no larger in magnitude |
| Text.Find | w1_therm_exporter.go:58 | `strings.Index`: the result is an occurrence with none before it, and None means the token occurs nowhere |
| Text.Contains | w1_therm_exporter.go:58 | `strings.Contains`: true exactly when the token occurs somewhere (`Text.ContainsIff`) |
| Text.ContainsIff | w1_therm_exporter.go:58 | `Contains` holds exactly when some position starts an occurrence of the token |
| Text.NoLeadCharNoToken | w1_therm_exporter.go:58 | a text without the token's first character does not contain the token |
| Text.FindAfterPrefix | w1_therm_exporter.go:64 | when a prefix lacks the token's first character, the first occurrence in the whole text is the first occurrence after the prefix, shifted by its length |
| Text.ContainsInfix | w1_therm_exporter.go:58 | a token inside a middle part is found in the whole text |
| Text.SplitAfter | w1_therm_exporter.go:64 | `strings.SplitAfter`: the pieces join back to the input and the last piece holds no separator |
| Text.SplitAfterPieces | w1_therm_exporter.go:64 | every piece of the split but the last ends with the separator, and that is the first place it occurs in the piece |
| Text.RemoveChar | w1_therm_exporter.go:73-75 | `strings.Replace(s, c, "", -1)`: no `c` is left, every other character keeps its count, and a text without `c` is unchanged |
| Text.RemoveCharConcat | w1_therm_exporter.go:73-75 | removing a character distributes over concatenation |
| Strconv.Atoi | w1_therm_exporter.go:78-81 | a success has a sign or digit first, only digits after it, a digit last, a minus sign for negative values, and a value in the 64-bit range |
| Strconv.AtoiItoa | w1_therm_exporter.go:78 | every 64-bit integer written in decimal parses back to itself |
| Strconv.ItoaAtoi | w1_therm_exporter.go:78 | canonical decimal text (no `+`, no leading zero, no `-0`) that parses is rewritten to the same text |
| Strconv.AtoiOverflow | w1_therm_exporter.go:78-81 | a decimal number outside the 64-bit range is a parse error, not a wrapped value |
| Strconv.AtoiRejects | w1_therm_exporter.go:78-81 | any character that is neither a digit nor a sign makes the parse fail |
| Strconv.AtoiPlusSign | w1_therm_exporter.go:78-81 | an explicit `+` before digits is accepted and gives the same result as the digits alone |
| Strconv.AtoiLeadingZero | w1_therm_exporter.go:78-81 | zero padding before a non-empty digit string is accepted exactly when the digits alone are, with the same value |
| Strconv.AtoiMinusSign | w1_therm_exporter.go:78-81 | a `-` before digits gives their negation when it is at least the 64-bit minimum, so `-0` reads as 0, and an error otherwise |
| Payload.ValueField | w1_therm_exporter.go:64-70 | the second piece of the split exists exactly when the payload contains `t=` |
| Payload.ValueFieldAfterMarker | w1_therm_exporter.go:64-70 | the value field is the text after the first `t=`, up to and including the next `t=` if there is one |
| Payload.Sanitize | w1_therm_exporter.go:73-75 | the result has no newline, carriage return or tab, and every other character keeps its count |
| Payload.SanitizeIsDropLayout | w1_therm_exporter.go:73-75 | the three replacements equal one pass that keeps every non-layout character in order |
| Payload.SanitizeKeeps | w1_therm_exporter.go:73-75 | sanitising keeps every character that is not layout |
| Payload.Decidegrees | w1_therm_exporter.go:84 | the published tenths of a degree: `raw / 100` truncated toward zero, never larger in magnitude than the raw value over 100 |
| Payload.Parse | w1_therm_exporter.go:55-85 | checksum failure exactly when `YES` is absent; `YES` without `t=` is a skip; a reading implies a `t=` and lies within the 64-bit range divided by 100 |
| Payload.ParseValue | w1_therm_exporter.go:55-85 | for every payload with `YES` and `t=`: a reading of the value field's sign-and-digits text divided by 100 toward zero when it names a 64-bit number, a skip otherwise (empty field, lone sign, foreign character, overflow) |
| Payload.ForeignCharSkips | w1_therm_exporter.go:70-81 | a value field with a space, letter, point or any other non-digit, non-sign, non-layout character is skipped |
| Payload.SecondMarkerSkips | w1_therm_exporter.go:64-81 | a second `t=` after the first ends the value field, so the payload is skipped |
| Payload.DriverTextParseOk | w1_therm_exporter.go:55-85 | the driver's two lines with `YES` and any 64-bit raw value read as that value divided by 100 toward zero |
| Payload.DriverTextParseBad | w1_therm_exporter.go:57-61 | the driver's two lines with `NO` read as a checksum failure |
| Sampler.Observe | w1_therm_exporter.go:49-61 | a failed read is skipped like an unusable value; a payload's outcome is a checksum failure exactly when `YES` is absent |
| Sampler.Events | w1_therm_exporter.go:46-49 | one event per directory entry, in listing order |
| Sampler.Apply | w1_therm_exporter.go:57-92 | an outcome changes only its own sensor, only adds to the registry, and keeps every gauge key in the registry |
| Sampler.ReadFailureKeepsState | w1_therm_exporter.go:50-53 | a sensor whose file cannot be read changes nothing |
| Sampler.ChecksumFailureDropsGauge | w1_therm_exporter.go:58-60 | a payload without `YES` removes the sensor's gauge, leaves the registry as it was, and leaves every other gauge as it was |
| Sampler.MissingMarkerKeepsState | w1_therm_exporter.go:64-69 | a payload with `YES` but no `t=` leaves both maps unchanged |
| Sampler.UnparsableValueKeepsState | w1_therm_exporter.go:70-81 | a payload with `YES` and a value field that `Atoi` rejects after stripping layout leaves both maps unchanged |
| Sampler.ReadingPublishes | w1_therm_exporter.go:84-92 | a reading sets the sensor's gauge to its value and its registry entry to the read time, and leaves every other sensor as it was |
| Sampler.ApplyAbsorbs | w1_therm_exporter.go:57-92 | the same outcome applied twice to a sensor leaves the same state as the second application alone |
| Sampler.RegistryOutlivesGauge | w1_therm_exporter.go:58-92 | after a reading and then a checksum failure, the sensor is registered but not published |
| Sampler.ApplyLocal | w1_therm_exporter.go:57-92 | an iteration's effect on a sensor depends only on that sensor's entries |
| Sampler.ApplyAll | w1_therm_exporter.go:47-93 | the per-sensor loop leaves unlisted sensors alone, never shrinks the registry, and keeps every gauge key in the registry |
| Sampler.ApplyAllConcat | w1_therm_exporter.go:47-93 | processing a listing in two parts is processing it whole |
| Sampler.ApplyAllPerSensor | w1_therm_exporter.go:47-93 | sensors do not interfere: a sensor's entries after the loop depend only on its own events |
| Sampler.LastReadingWins | w1_therm_exporter.go:47-93 | a sensor's last reading in the listing, with nothing about it afterwards, decides its gauge value and registry time |
| Sampler.Sweep | w1_therm_exporter.go:96-102 | removes from both maps exactly the sensors whose registry time is stale; every surviving entry keeps its value and is at most 300 seconds old |
| Sampler.SweepInPlace | w1_therm_exporter.go:96-103 | deleting stale entries one at a time while walking the registry in any order gives the same maps as removing all stale keys at once |
| Sampler.SweepKeepsFresh | w1_therm_exporter.go:96-103 | a sweep with nothing stale changes nothing |
| Sampler.Stale | w1_therm_exporter.go:99 | the strict test `timestamp + 300 < now`: an entry 300 seconds old is not stale and one 301 seconds old is (`Sampler.SweepBoundary`) |
| Sampler.SweepBoundary | w1_therm_exporter.go:99 | an entry exactly 300 seconds old is kept and one 301 seconds old is dropped |
| Sampler.Cycle | w1_therm_exporter.go:47-103 | a full iteration keeps every gauge key in the registry and leaves no registry entry older than 300 seconds |
| Sampler.FreshReadingSurvivesCycle | w1_therm_exporter.go:47-103 | a sensor read successfully in a cycle, with nothing later about it in the listing, is published with that value afterwards when the read is no more than 300 s before the sweep's clock |
| Sampler.SilentSensorExpires | w1_therm_exporter.go:96-103 | a sensor not listed in a cycle whose last reading is stale disappears from both maps |
| Sampler.Run | w1_therm_exporter.go:39-107 | after at least one iteration of the loop, no registry entry is more than 300 seconds older than the last sweep |
| Sampler.RunKeepsInv | w1_therm_exporter.go:39-107 | over any number of loop iterations, every published gauge keeps a registry entry |
| Sampler.RepeatedReadingStable | w1_therm_exporter.go:47-103 | two cycles reading the same value, each read no more than 300 s before its cycle's sweep clock, publish the same value, and the registry holds the later read time |
| Scenarios.ScaleExamples | w1_therm_exporter.go:84-85 | 23562 gives 235, 21312 gives 213, -505 gives -5, -500 gives -5, -99 gives 0 tenths of a degree |
| Scenarios.LenientValues | w1_therm_exporter.go:78-81 | `+0021312` reads as 21312 and `-0` as 0, as Go's `Atoi` accepts them |
| Scenarios.TwoSensorCycle | w1_therm_exporter.go:47-103 | a `YES` sensor at 21312 and a `NO` sensor at 18875 give a gauge of `{28-000001: 213}` and no entry for the second |
| Scenarios.SensorExpiresAfter301Seconds | w1_therm_exporter.go:96-102 | 301 seconds after the last reading, the sweep empties both maps |

## Left out

- Listing `/sys/bus/w1/devices/` and reading each `w1_slave` file (lines 41-44, 50) are filesystem I/O. The listing is an input sequence of `Sample`s. A failed read is a `None` payload. The fatal exit on a listing error is not modelled.
- The goroutine, the 10-second `time.Sleep` and the infinite loop (lines 38-39, 106) are scheduling. `Run` drives any finite number of iterations instead.
- `time.Now()` is a parameter. Each `Sample` carries the clock reading stored for a successful read. The sweep takes one `now`. The code reads the clock once per registry entry during the sweep (line 99). The model assumes those readings all fall in the same second.
- Sampler.Sweep: it does not model 64-bit overflow of `timestamp + 300`. Unix times from the clock are far from the 64-bit limit.
- The `float64` conversion and the `fmt.Println` line (lines 85, 88) are floating point and logging. The gauge holds the integer number of tenths of a degree that the float is divided from.
- The Prometheus gauge vector, its registration, the HTTP handler and the `-httpAddr` flag (lines 17-34, 110-116) are library and network plumbing. The gauge is a plain map from sensor id to value.
- Strconv.Atoi: Go's `int` is taken as 64-bit. On 32-bit platforms `Atoi` rejects values outside the 32-bit range, which the model does not cover.
- Text.SplitAfter: requires a non-empty separator. Go splits into single UTF-8 sequences for an empty one, and the exporter only ever splits on `t=`.
- GoArith.TruncDiv: requires a positive divisor. The exporter only divides by 100.
