# homebridge-4heat, modelled in Dafny

homebridge-4heat is a Homebridge plugin for pellet stoves driven by a 4HEAT "2ways" Wi-Fi
module. The module speaks a bracketed text protocol over TCP: the plugin asks for the status
with `["2WL","0"]`, the stove answers with a frame whose fields are hex records (main values,
state info, state text, parameters, sensors, thermostats, power), and the plugin writes a
parameter, switches the stove on or off, or resets an error with `2WC` and `RST` frames. The
weekly timer ("crono") is read with `CCG` and written with `CCS`. When no host is configured,
the device is woken and found by a UDP broadcast of `["CF4","0"]`. Commands go through a
single-flight FIFO queue. The platform polls the status and, after failed polls, arms an
extra retry with an increasing delay.

The model, one Dafny module per file:

- `wrappers.dfy` — `Option`.
- `jstext.dfy` — the JavaScript string operations the parsers use (`trim`, `startsWith`,
  `slice`, `split('","')`, quote stripping). It also holds the envelope reading shared by the
  three reply parsers (`Fields`) and its inverse, the frame writer (`Frame`).
- `numbers.dfy` — `parseInt(s, 16)` on record fields, `toString(16)`, `padStart`,
  `parseInt(s, 10)` with its NaN, and template-literal printing of numbers.
- `protocol.dfy` — the status reply, the record decoder (both the TypeScript source and the
  compiled build, which also decodes `0x08` crono-enable records), and an encoder for every
  record kind, with round-trip lemmas. It also holds the command builders.
- `crono.dfy` — the schedule codec: `CCG` reply parsing and `CCS` command building, with a
  round trip.
- `discovery.dfy` — the `CF4` reply parser and the bounded discovery retry loop.
- `status.dfy` — `readStatus`: folding the records of a `2WL` reply into a device snapshot.
- `client.dfy` — the TCP client: one exchange's `finish` guard, the FIFO queue, the host it
  resolves, and its public operations.
- `platform.dfy` — the platform's poll and backoff controller and its stove actions.

## Model

| member | source | states |
|---|---|---|
| JsText.Fields | src/protocol.ts:26-33 | The envelope reading is defined exactly when the trimmed reply starts with `["TAG"`; it then yields at least one field |
| JsText.FieldsOfFrame | src/protocol.ts:26-33 | Reading a frame of plain fields, with any surrounding whitespace, gives back exactly those fields |
| Numbers.HexField | src/protocol.ts:44-46 | A field has a hex value iff it is non-empty and all hex digits; the value fits the field's width |
| Numbers.ParseDecimal | dist/protocol.js:173-177 | `parseInt(s, 10)` is NaN exactly when no digit follows the optional whitespace and sign |
| Numbers.ParseNumberText | dist/protocol.js:197-203 | A number printed into a frame reads back through `parseInt(s, 10)` as the same number, NaN included |
| Numbers.NumberTextPlain | dist/protocol.js:197-203 | A printed number never contains the field separator |
| Protocol.Signed16 | src/protocol.ts:17-19 | A 16-bit word maps into [-32768, 32768), unchanged up to 32767 and lowered by 65536 above |
| Protocol.Signed16Word16 | src/protocol.ts:17-19 | Writing a 16-bit value as a word and reading it back through signed16 gives the value |
| Protocol.Word16Signed16 | src/protocol.ts:17-19 | Every word read through signed16 is written back as the same word |
| Protocol.ApplyPosPunto | src/protocol.ts:21-24 | For a positive decimal count the result times 10^posPunto is the raw value; otherwise the raw value |
| Protocol.Parse2WLResponse | src/protocol.ts:26-37 | The records are returned iff the trimmed reply starts with `["2WL"` |
| Protocol.Parse2WLOfFrame | src/protocol.ts:26-37 | A `2WL` frame of plain fields yields exactly the records after the tag and the count |
| Protocol.ParseHexDatapoint | src/protocol.ts:39-149 | Under 4 characters gives unknown. An unknown result keeps the raw text. A decoded record's first byte is a known type. state_info needs sub-type 81; state_text carries its sub-type as id. No crono-enable record is produced |
| Protocol.ParseHexDatapointDist | dist/protocol.js:24-134 | The same guarantees for the compiled decoder, whose known types include 0x08 |
| Protocol.ParseBuildsAgree | dist/protocol.js:121-128 | The two decoders agree on every record except crono-enable, which the source leaves unknown |
| Protocol.UnknownTypes | src/protocol.ts:84-85 | A non-hex or unlisted type byte, or a 0x0c sub-type other than 81/00/01/80, decodes as unknown |
| Protocol.MainValuesLayout | src/protocol.ts:47-56 | A 0x10 record decodes iff its fields are hex. Temperatures are signed words at [6,10) and [20,24), stato and errore the bytes at [10,12) and [12,14), posPunto the byte at [36,38) or 0 when the record is shorter |
| Protocol.ParameterLayout | src/protocol.ts:87-97 | A 0x0e record decodes iff its fields are hex. id at [2,6); valore, min and max are signed words. readOnly iff the flag byte is not 0. posPunto is byte [20,22), or 0 when absent |
| Protocol.CronoEnableLayout | dist/protocol.js:121-128 | A 0x08 record decodes iff bytes 1-3 are hex; they are id, stato and modalita |
| Protocol.StateTextLoop | src/protocol.ts:76-83 | The character loop yields the text decoded pair by pair from character 4, or nothing when a pair is not hex |
| Protocol.MainValuesRoundTrip | src/protocol.ts:47-56 | An encoded main-values record decodes to its values; cut to 36 characters it decodes with posPunto 0 |
| Protocol.StateInfoRoundTrip | src/protocol.ts:59-75 | An encoded state_info record decodes to its values at each of its three lengths (14, 28, 30) |
| Protocol.StateTextRoundTrip | src/protocol.ts:76-83 | An encoded state_text record of sub-type 00, 01 or 80 decodes to its id and text |
| Protocol.ParameterRoundTrip | src/protocol.ts:87-97 | An encoded parameter record decodes to its values; cut to 20 characters it decodes with posPunto 0 |
| Protocol.SensorRoundTrip | src/protocol.ts:99-108 | An encoded sensor record decodes to its values |
| Protocol.ThermostatRoundTrip | src/protocol.ts:110-121 | An encoded thermostat record decodes to its values |
| Protocol.ThermostatV2RoundTrip | src/protocol.ts:123-133 | An encoded thermostat-v2 record decodes to its values |
| Protocol.PowerRoundTrip | src/protocol.ts:135-143 | An encoded power record decodes to its values |
| Protocol.CronoEnableRoundTrip | dist/protocol.js:121-128 | An encoded crono-enable record decodes to its values in the compiled decoder and to unknown in the source |
| Protocol.ParseEncode | src/protocol.ts:39-149 | Every encodable datapoint survives encode-then-decode in the compiled decoder, and in the source decoder except crono-enable |
| Protocol.ValueHex | src/protocol.ts:152-154 | The value field has at least four characters. From -65536 on it is lowercase hex of the value, plus 65536 when negative; below that it is not hex |
| Protocol.ValueHexValue | src/protocol.ts:151-155 | The value field is lowercase hex of the value (plus 65536 when negative), four digits for 16-bit values, reading back through signed16 as the value |
| Protocol.WritePayloadHex | src/protocol.ts:151-155 | The payload starts with `05` followed by the record's first six characters |
| Protocol.WritePayloadValue | src/protocol.ts:151-155 | For a 16-bit value the payload is 12 characters and its last four read back through signed16 as the value |
| Protocol.HexBytes | src/protocol.ts:156 | `Buffer.from(hex)` gives at most half as many bytes as characters, each below 256, and exactly half for hex text |
| Protocol.Latin1 | src/protocol.ts:157 | One character per byte, with that byte as its code |
| Protocol.Build2WCCommand | src/protocol.ts:151-159 | The write command is the direct command for the write payload; for a 16-bit value and a hex record it is 20 characters, six of them payload bytes |
| Protocol.BuildDirectCommand | src/protocol.ts:161-165 | The direct command is `["2WC","1","`, one character per payload byte with that byte as its code, then `"]` |
| Protocol.WriteCommandBytes | src/protocol.ts:151-159 | The sent write command carries six bytes: 5, the record's type and id bytes, then the value as a big-endian two's-complement word |
| Protocol.Build2WCCommandText | dist/protocol.js:135-141 | The compiled write command is the direct command for the write payload, 26 characters for a 16-bit value |
| Protocol.BuildDirectCommandText | dist/protocol.js:142-144 | The compiled direct command is `["2WC","1","`, the payload text, then `"]` |
| Protocol.DirectCommandTextFields | dist/protocol.js:142-144 | A compiled direct command with a hex payload reads back as the fields `2WC`, `1` and the payload |
| Protocol.WriteCommandTextFields | dist/protocol.js:135-141 | The compiled write command is a `2WC` frame whose fields read back as `2WC`, `1` and the payload |
| Protocol.WriteTargetsParameter | src/protocol.ts:151-155 | Writing to a decoded parameter record repeats its type byte 0x0e and its id, and the value field reads back as the new value |
| Protocol.WriteExamples | test/protocol.test.ts:294-312 | The payloads for 50, -5 and 1 written to `0E00C7002D001E004B0000` are `050E00C70032`, `050E00C7fffb`, `050E00C70001` |
| Protocol.WriteZeroExample | test/protocol.test.ts:314-317 | Zero written to `0E0180000100000001` gives `050E01800000` |
| Protocol.DirectTextExamples | test/protocol.test.ts:282-292 | In the compiled build the on, off and `AABBCCDD` commands are `["2WC","1","05040000"]`, `["2WC","1","05050000"]` and `["2WC","1","AABBCCDD"]` |
| Protocol.WriteFiftyCommand | test/protocol.test.ts:295-301 | In the compiled build, 50 written to `0E00C7002D001E004B0000` is the command `["2WC","1","050E00C70032"]` |
| Protocol.WriteMinusFiveCommand | test/protocol.test.ts:303-307 | In the compiled build, -5 written to the same record is `["2WC","1","050E00C7fffb"]` |
| Protocol.WriteOneCommand | test/protocol.test.ts:309-312 | In the compiled build, 1 written to the same record is `["2WC","1","050E00C70001"]` |
| Protocol.WriteZeroCommand | test/protocol.test.ts:314-317 | In the compiled build, 0 written to `0E0180000100000001` is `["2WC","1","050E01800000"]` |
| Protocol.BuildOnCommand | src/protocol.ts:167-169 | The on command is the direct command for payload bytes 05 04 00 00 |
| Protocol.BuildOffCommand | src/protocol.ts:171-173 | The off command is the direct command for payload bytes 05 05 00 00 |
| Protocol.OnOffBytes | src/protocol.ts:167-173 | The on and off payloads are the bytes 05 04 00 00 and 05 05 00 00 |
| Protocol.BuildResetCommand | src/protocol.ts:175-177 | The reset command is the frame `RST`, `0` |
| Protocol.BuildStatusCommand | src/protocol.ts:179-181 | The status command is the frame `2WL`, `0` |
| Crono.BuildCCGCommand | dist/protocol.js:158-160 | The schedule request is the frame `CCG`, `0` |
| Crono.ScheduleFromResponse | dist/protocol.js:161-172 | No schedule iff the trimmed reply does not start with `["CCG"` or has fewer than 73 fields |
| Crono.ScheduleLayout | dist/protocol.js:173-190 | Periodo is field 2 read as decimal. Day d's number is field 3+10d; slot s has start and end cut to 5 characters and enabled iff its flag starts with `1` |
| Crono.ParseCCGResponse | dist/protocol.js:161-191 | The pointer-walking loop yields exactly the schedule the reply describes |
| Crono.CCSFields | dist/protocol.js:192-204 | The command fields are `CCS`, the counter 1 + 10 per day, the period (new or kept), then each day's number and slots |
| Crono.BuildCCSFromSchedule | dist/protocol.js:192-204 | The accumulating loop produces exactly the frame of those fields |
| Crono.BuildCCSDisableCommand | dist/protocol.js:205-207 | Disabling writes the schedule with period 0 |
| Crono.BuildCCSEnableCommand | dist/protocol.js:208-210 | Enabling writes the schedule with its own period |
| Crono.CCSRoundTrip | dist/protocol.js:161-204 | A written 7-day schedule of plain 5-character times reads back as the same days with the chosen period and the counter 71 |
| Discovery.DiscoveryRequest | src/udp.ts:76 | The wake-up broadcast is the frame `CF4`, `0` |
| Discovery.ParseCF4Response | src/udp.ts:11-37 | No device iff the reply lacks the `["CF4"` prefix or has fewer than 5 fields; otherwise id, name and ip are fields 2, 3 and 4 |
| Discovery.RejectsOtherReplies | test/udp.test.ts:24-30 | Any reply not opening with `["CF4"` is rejected |
| Discovery.RejectsEmpty | test/udp.test.ts:28-30 | The empty reply is rejected |
| Discovery.RejectsFourFields | test/udp.test.ts:32-35 | A four-field `CF4` reply is too short |
| Discovery.CF4RoundTrip | test/udp.test.ts:6-22 | A `CF4` frame naming a device, with any trailing fields and whitespace, yields that device |
| Discovery.FirstFoundAt | src/udp.ts:85-96 | An attempt that finds a device after every earlier attempt failed decides the discovery |
| Discovery.FirstFoundNone | src/udp.ts:85-96 | Discovery finds nothing iff every attempt fails |
| Discovery.WakeAndDiscover | src/udp.ts:85-96 | The retry loop yields what discovery defines: the first device found within maxRetries attempts, no earlier attempt having found one. None iff every attempt failed, after exactly maxRetries attempts |
| Status.InitialState | src/client.ts:147-157 | A snapshot starts all zero, with statoCrono 0x23 and no parameters or sensors |
| Status.ParamValueOf | src/client.ts:169-181 | A stored parameter keeps the record's hex, id, readOnly flag, valore, min, max and posPunto; its value, minValue and maxValue are valore, min and max scaled by posPunto |
| Status.SensorValueOf | src/client.ts:184-189 | A stored sensor keeps the record's id, valore, min and max, unscaled |
| Status.Step | src/client.ts:159-194 | Each record kind updates only its own part of the snapshot; read-only parameters and other records change nothing |
| Status.StatusOf | src/client.ts:140-145 | A snapshot exists iff a non-empty reply came back whose trimmed text starts with `["2WL"` |
| Status.ReadStatus | src/client.ts:140-197 | The record loop produces exactly the fold of its records over the initial state |
| Status.LastParameterWins | src/client.ts:168-182 | Over any sequence of decoded records, a parameter id holds the value of the last writable parameter record with that id |
| Status.NoParameterRecord | src/client.ts:168-182 | Without a writable parameter record for an id among the decoded records, that id's entry is as before |
| Status.LastSensorWins | src/client.ts:183-190 | Over any sequence of decoded records, a sensor id holds the value of the last sensor record with that id |
| Status.NoSensorRecord | src/client.ts:183-190 | Without a sensor record for an id, that id's entry is as before |
| Status.LastMainWins | src/client.ts:162-167 | stato, errore, posPunto and both scaled temperatures come from the last main-values record |
| Status.NoMainRecord | src/client.ts:147-157 | Without a main-values record they keep their initial values |
| Status.LastStateInfoWins | src/client.ts:191-193 | statoCrono comes from the last state_info record |
| Status.NoStateInfoRecord | src/client.ts:153 | Without a state_info record statoCrono stays 0x23 |
| Status.StepStoredWell | src/client.ts:168-182 | One well-decoded record keeps every stored parameter writable, keyed by its own id, re-decodable from its hex as its valore, min, max and posPunto, and its value and bounds scaled by its decimals |
| Status.FoldStoredWell | src/client.ts:159-194 | Folding well-decoded records keeps the same for every stored parameter |
| Status.NoReadOnlyParameters | src/client.ts:168-182 | Every parameter of a snapshot is writable, keyed by its id, re-decodes from its original hex, and has value = valore scaled by posPunto |
| Client.FinishValue | src/client.ts:74-80 | End and close deliver the data received iff it is non-empty; timeout and error deliver null |
| Client.ExchangeFirstTerminal | src/client.ts:61-80 | The first terminal event decides an exchange, with the data received before it |
| Client.ExchangeOpen | src/client.ts:61-80 | An exchange that no event ends resolves with null |
| Client.SendTcp | src/client.ts:55-90 | The guard resolves with what the exchange defines: only the first terminal event counts, with the data received before it, and no terminal event gives null. The command is written iff the connection came up before any terminal event |
| Client.HostAfterDiscovers | src/client.ts:92-103 | On an unset host the first attempt that finds a device gives the host its ip |
| Client.HostAfterNoDevice | src/client.ts:92-103 | On an unset host a discovery that finds nothing leaves the host as it was |
| Client.HostAfterSettles | src/client.ts:92-103 | Once the host is usable, later commands keep it and run no discovery |
| Client.FourHeatClient.constructor | src/client.ts:21-41 | A new client is idle, with an empty queue and the configured host |
| Client.FourHeatClient.Enqueue | src/client.ts:117-122 | The command gets the next ticket. It joins the tail of a busy queue, or starts at once on an idle client |
| Client.FourHeatClient.ProcessQueue | src/client.ts:124-128 | Nothing happens when busy or empty; otherwise the head becomes the command in flight |
| Client.FourHeatClient.Complete | src/client.ts:129-137 | The oldest unresolved ticket, and only it, receives the result, and the next command starts |
| Client.FourHeatClient.WakeAndResolveHost | src/client.ts:92-103 | The host becomes what discovery defines. A set host is used with no attempt. Otherwise there is no host iff every attempt failed; a device found at the last attempt made sets the host to its ip, every earlier attempt having failed, within the three attempts |
| Client.FourHeatClient.ExecuteCommand | src/client.ts:105-115 | The host is resolved. An exchange takes place iff the host is then usable; without one the answer is null, otherwise it is the exchange's answer. The command is logged as written iff the exchange writes it |
| Client.FourHeatClient.RunHead | src/client.ts:129-137 | The in-flight ticket receives the exchange's answer, or null without a usable host; the host is resolved, the write logged, and the queue moves on |
| Client.FourHeatClient.Request | src/client.ts:117-137 | On an idle client the command runs at once. Its ticket receives the exchange's answer, or null without a usable host; the host is resolved and a set host kept |
| Client.FourHeatClient.ReadStatus | src/client.ts:140-145 | Sends the status command; the raw reply is the exchange's answer and the snapshot is the one it describes. The host is resolved, a set host kept, and the write logged |
| Client.FourHeatClient.WriteParameter | src/client.ts:199-203 | Sends the write command for the record; the reply is the exchange's answer, and the result is true iff a reply came back. The host is resolved, a set host kept, and the write logged |
| Client.FourHeatClient.TurnOn | src/client.ts:205-208 | Sends the on command; the reply is the exchange's answer, and the result is true iff a reply came back. The host is resolved, a set host kept, and the write logged |
| Client.FourHeatClient.TurnOff | src/client.ts:210-213 | Sends the off command; the reply is the exchange's answer, and the result is true iff a reply came back. The host is resolved, a set host kept, and the write logged |
| Client.FourHeatClient.ResetError | src/client.ts:215-221 | Sends the reset command; the reply is the exchange's answer, and the result is true iff a reply came back, whether or not it holds `"OK"`. The host is resolved, a set host kept, and the write logged |
| Client.FourHeatClient.ReadSchedule | src/client.ts:223-227 | Sends the schedule request; the raw reply is the exchange's answer. No schedule without a reply; otherwise the schedule the reply describes. The host is resolved, a set host kept, and the write logged |
| Client.FourHeatClient.WriteSchedule | src/client.ts:229-232 | Sends the given command; the reply is the exchange's answer, and the result is true iff a reply came back. The host is resolved, a set host kept, and the write logged |
| Client.ResetErrorResult | src/client.ts:217-220 | The `"OK"` test never changes the answer: it is true iff a reply came back |
| Platform.BackoffDelay | src/platform.ts:148-151 | The n-th consecutive failure waits `[5,10,30,60][n-1]` seconds, and 60 from the fourth on |
| Platform.BackoffMonotone | src/platform.ts:16 | More failures never shorten the delay, which stays between 5 and 60 seconds |
| Platform.AfterFailure | src/platform.ts:148-157 | A failure adds one to the count, keeps the snapshot and arms the backoff timer with the delay for the new count, 5 to 60 seconds |
| Platform.AfterPoll | src/platform.ts:107-146 | A snapshot replaces the state and clears the count without touching the backoff timer; no snapshot is a failure |
| Platform.LastSuccessCounts | src/platform.ts:107-157 | After a run of polls the count is the number of failures since the last success, and the state is that success's snapshot. The backoff timer holds the delay for that count |
| Platform.OnlyFailures | src/platform.ts:148-157 | A run of failures adds its length to the count and leaves the snapshot alone |
| Platform.IsBlocked | src/platform.ts:174-178 | The corrected test: blocked iff there is a snapshot and its stato is 9 |
| Platform.IsBlockedAsWritten | src/platform.ts:174-178 | The test as written holds exactly when there is no snapshot |
| Platform.BlockCheckAsWritten | src/platform.ts:174-178 | The blocked test as written holds for a missing snapshot and fails for a stove in state 9; on any other snapshot both tests fail |
| Platform.FourHeatPlatform.HandlePollFailure | src/platform.ts:148-157 | The controller moves to the failure state: count plus one, the backoff timer re-armed with that count's delay |
| Platform.FourHeatPlatform.Poll | src/platform.ts:107-146 | The controller moves to the state after the poll; the polling interval is untouched |
| Platform.FourHeatPlatform.WriteParameter | src/platform.ts:159-171 | Without the parameter in the snapshot: false, nothing sent, nothing changed. Otherwise the write command for its record, the client's answer, and a refresh poll iff true |
| Platform.FourHeatPlatform.TurnOn | src/platform.ts:173-189 | A blocked stove is reset and polled first. If still blocked: false without the on command. Otherwise the on command and a refresh poll iff it succeeded |
| Platform.FourHeatPlatform.TurnOff | src/platform.ts:191-197 | The client's answer, and a refresh poll iff it is true |
| Platform.FourHeatPlatform.ResetError | src/platform.ts:199-205 | The client's answer, and a refresh poll iff it is true |

## Left out

- Sockets, UDP, timers and promises are not modelled. One TCP exchange is the sequence of socket events it sees; a discovery attempt is a function from the attempt number to its outcome. The connect delay, the socket timeout and the broadcast ports are parameters of that world, not of the model.
- What a socket write sends is recorded as a whole command in the client's ghost `written` log; partial writes and the utf-8 encoding of the text are not modelled.
- Concurrency is not modelled. The queue is modelled by tickets, with commands completing one at a time in order. The promise each caller awaits is the ticket's entry in `results`.
- Client.FourHeatClient.Request and the operations built on it require an idle client, so they describe a command that runs at once. A command queued behind others is described by Enqueue, RunHead and Complete.
- The `catch` branch of processQueue is covered by Complete with a null result; executeCommand itself never throws in the model.
- Logging, the Homebridge accessory glue (src/stoveAccessory.ts), startPolling's `setInterval` and the platform's configuration loading are not part of this model. The polling interval is a field that polls never change.
- `lastUpdate` (the clock reading in each snapshot) is left out.
- Numbers are unbounded integers, and applyPosPunto divides exactly over the reals instead of in floating point.
- Protocol.ParseHexDatapoint: `parseInt(field, 16)` is modelled only for fields made entirely of hex digits. A record with any other field decodes as unknown, whereas JavaScript would read a hex prefix or produce NaN. For state_text this means a non-hex character pair makes the record unknown instead of a NUL character.
- Protocol.Build2WCCommand: the TypeScript source sends the payload as bytes via `Buffer.from(hex)` and `String.fromCharCode`, while the compiled build sends the hex text (Build2WCCommandText). Both are modelled over the same payload. Utf-8 encoding of the bytes when the socket writes them is not modelled.
- Protocol.ValueHex: only integer values are modelled; JavaScript's `toString(16)` of a fractional value is not.
- Crono.CCSRoundTrip: proved for schedules of 7 days × 3 slots whose times are at most 5 characters and contain no field separator. Other schedules are written faithfully but do not read back unchanged.
- Discovery.ParseCF4Response: the `try`/`catch` around the parsing cannot fire on a string and is not modelled.
- Client.FourHeatClient.WakeAndResolveHost: a host counts as set with JavaScript truthiness (present and not the empty string).
- Platform.FourHeatPlatform.TurnOn, WriteParameter, TurnOff, ResetError: the client's answers and the snapshots the refresh polls deliver are parameters. turnOn does not look at the outcome of the reset it sends, and neither does the model.
- Platform.FourHeatPlatform.Poll: `readStatus` returning null and throwing are one case, a missing snapshot.
- The compiled client and platform (dist/client.js, dist/platform.js) are older copies of src/client.ts and src/platform.ts and are not modelled separately.

## Findings

| source | as written | input that shows it | evidently intended | confidence | as-written member | corrected member |
|---|---|---|---|---|---|---|
| src/platform.ts:174-178 | turnOn compares `stato` with `STATO.BLOCK`. The state table in src/types.ts as it stands in this repository has no BLOCK entry, so against it the comparison is with `undefined`. That src/types.ts is older than src/platform.ts: it lacks the ERROR_CODES that src/platform.ts:10 imports and the statoCrono and sensors fields of the snapshot, and with STATO declared `as const` the TypeScript compiler would reject `STATO.BLOCK` outright | a snapshot with stato 9: no reset is sent. No snapshot at all: a reset is sent, and turnOn returns false if the poll fails again | reset first when the stove reports state 9, the value the test suite calls BLOCK (test/protocol.test.ts:129) | low, not executed: holds only against src/types.ts as it stands here; a current types file that defines BLOCK as 9 would make the code right | Platform.IsBlockedAsWritten, Platform.BlockCheckAsWritten | Platform.FourHeatPlatform.TurnOn |
