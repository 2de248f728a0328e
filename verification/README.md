# ESPWiFiManager in Dafny

A model of the sequential logic of the `ESPWiFiManager` class, an Arduino
library for ESP8266/ESP32 boards. The class keeps two Wi-Fi credential pairs
(primary and secondary SSID and password) in four fixed 32-byte EEPROM slots.
At boot it tries to join each stored network in priority order. When the
device ends up unconnected, it starts its own access point. A configuration
form writes newly submitted pairs back to the EEPROM, and then the device
restarts.

The model has six modules:

- `Layout` (`layout.dfy`): the constants `eepromSize = 512`, `maxLength = 32`
  and `maxStrings = 4`, and the slot windows `[32*i, 32*i + 32)`.
- `Codec` (`codec.dfy`): the EEPROM is an immutable `seq<bv8>` of 512 bytes.
  `Save` is `saveStringToEEPROM`: it writes the first 32 bytes of the string
  and pads with zeros. `DecodeSlot` and `Load` are `loadStringsFromEEPROM`:
  they copy a slot into a 32-byte buffer and read it as a C string. The loops
  of both source functions are also written as methods (`SaveStringToEeprom`,
  `ReadSlotBuffer`, `LoadStringsFromEeprom`), and each is proved equal to its
  pure function.
  - A slot whose 32 bytes hold no zero gives a buffer with no terminator.
    `String(buffer)` then reads past the buffer, which is undefined in C. The
    model returns `Unterminated` for such a slot, and `Load` reports the first
    such slot as `Undefined`. A saved string of 32 or more non-zero bytes
    produces exactly this case (`SaveFullWidthUnterminated`).
- `Poll` (`poll.dfy`): the poll loop of `connectToWiFi`. The radio is a pair
  of oracles:
  - the connection status at each test of the loop condition;
  - the extra time each iteration takes beyond its `delay(1000)`. This extra
    time is never negative: each `delay(1000)` is taken to advance `millis()`
    by at least 1000 ms (see "## Left out").

  The loop stops at the first test where the radio is connected or 10000 ms
  have elapsed. Given that assumption, it makes at most ten delays. Its report to the caller
  (connected or not, and the number of delays) is an `AttemptOutcome`.
  `PollOutcomeRealizable` shows that every such report comes from some radio.
- `Boot` (`boot.dfy`): `begin` and `connectToWiFi` over a `Network` oracle.
  The oracle gives the poll loop's report for each attempt of the pass
  (primary or secondary) and the SSID/password pair it carries. The two
  attempts are separate join requests against a live radio, so their reports
  are independent even when both pairs hold the same strings
  (`SameStringsRetryCanConnect`). `RadioNetwork` builds such an oracle from
  the radio behaviour seen by each attempt. A boot pass
  returns a trace of actions (`Attempt(pair, ssid, password)`, `StartAP`),
  the final connection status and the number of delays.
  - A reference state machine for one boot pass (`Idle`, `TryingPrimary`,
    `TryingSecondary`, `Connected`, `FallbackActive`) is defined in the same
    file, independently of the trace function. `BootSequenceRefinesMachine`
    proves that the code agrees with it on which pairs are tried and on the
    final state.
- `Intake` (`intake.dfy`): `handleRootPost` over a map of form fields. It
  returns the new in-memory strings, the new EEPROM image, and the image
  after each separate commit. The lemmas follow the device through the
  restart and back into `Begin`.
- `Signal` (`signal.dfy`): the percentage shown next to each scanned network.

### Behaviour a reader might not expect

- `handleRootPost` checks only that both fields of a pair are present
  (`hasArg`). Empty values are stored, and an empty SSID or password then
  disables that pair at the next boot: `BootSequenceGating` tries a pair only
  when both of its strings are non-empty, and `EmptySsidDisablesPair` follows
  an empty primary SSID through the handler and the restart.
- The access point is started inside `connectToWiFi` after every failed
  attempt, as well as at the end of `begin` when the device is unconnected.
  So it can start even though the secondary pair later connects, and it can
  start up to three times. `BootSequence` lists every trace, and
  `BootSequenceAPStarts` counts the starts.
- A slot whose 32 bytes are all non-zero is read into a buffer with no
  terminator. That read is undefined in the model, not truncated at 32 bytes.
  A submitted value whose first 32 bytes are all non-zero leads there at the
  next boot (`LongValueBreaksNextBoot`). So does an EEPROM that was never
  written: erased flash reads as 0xFF in every byte, so every slot is
  unterminated and the first boot is undefined at slot 0
  (`ErasedEepromBreaksBoot`).

## Model

| member | source | states |
|---|---|---|
| Layout.SlotRegionFits | src/ESPWiFiManager.h:33-35 | the four 32-byte slots span 128 bytes, and every slot lies inside the 512-byte region `begin` requests |
| Layout.SlotsDisjoint | src/ESPWiFiManager.cpp:48-49 | the windows `[32*i, 32*i+32)` of two different slots share no address |
| Layout.SlotOfAddress | src/ESPWiFiManager.h:34-35 | every address below 128 belongs to exactly one slot, namely slot `a / 32` |
| Codec.CString | src/ESPWiFiManager.cpp:43 | `String(buffer)` is the prefix before the first zero byte; it contains no zero, and it is undefined exactly when the buffer holds no zero |
| Codec.CStringStopsAtFirstNul | src/ESPWiFiManager.cpp:43 | a buffer whose first zero is at `p` yields exactly its first `p` bytes |
| Codec.Save | src/ESPWiFiManager.cpp:47-55 | saving into slot `i` sets byte `k` of that window to `s[k]` for `k < min(|s|, 32)` and to 0 otherwise; every byte outside the window and every other slot's window is unchanged |
| Codec.SaveStringToEeprom | src/ESPWiFiManager.cpp:47-56 | the byte-by-byte write loop produces exactly the image `Save` describes |
| Codec.DecodeSlot | src/ESPWiFiManager.cpp:38-43 | a decoded slot is shorter than 32 bytes and free of zeros; a slot decodes as undefined exactly when its 32 bytes hold no zero |
| Codec.Load | src/ESPWiFiManager.cpp:36-45 | loading succeeds exactly when every slot is terminated, and then entry `i` is slot `i`'s string; otherwise it names the first unterminated slot |
| Codec.Collect | src/ESPWiFiManager.cpp:37-44 | the four decoded slots give a load result exactly when all are terminated, with entry `i` the string of slot `i`; otherwise the first unterminated slot is named |
| Codec.LoadStopsAtFirstUnterminated | src/ESPWiFiManager.cpp:37-43 | when the first unterminated slot is `i`, the load is undefined at `i` |
| Codec.LoadCollectsAllSlots | src/ESPWiFiManager.cpp:37-44 | when all four slots are terminated, the load yields their four strings in slot order |
| Codec.ReadSlotBuffer | src/ESPWiFiManager.cpp:38-42 | the inner read loop copies exactly the 32 bytes of slot `i` |
| Codec.LoadStringsFromEeprom | src/ESPWiFiManager.cpp:36-45 | the nested read loops compute the same result as `Load` |
| Codec.SaveThenDecode | src/ESPWiFiManager.cpp:38-55 | round trip: a string shorter than 32 bytes and free of zeros decodes back unchanged from the slot it was saved to |
| Codec.SaveWithNulDecodesPrefix | src/ESPWiFiManager.cpp:39-54 | a zero byte at position `p < 32` of a saved string cuts the decoded string at `p` |
| Codec.SaveFullWidthUnterminated | src/ESPWiFiManager.cpp:39-43 | a saved string whose first 32 bytes are all non-zero leaves the slot unterminated, so reading it back is undefined |
| Codec.SaveKeepsOtherSlots | src/ESPWiFiManager.cpp:48-55 | saving into one slot does not change what any other slot decodes to |
| Codec.DecodeReadsOnlyItsWindow | src/ESPWiFiManager.cpp:38-42 | two EEPROM images that agree on slot `i`'s window decode slot `i` alike |
| Codec.SaveTruncates | src/ESPWiFiManager.cpp:49-54 | characters beyond the 32nd are dropped: saving `s` equals saving its first 32 bytes |
| Poll.Elapsed | src/ESPWiFiManager.cpp:65-68 | at the k-th test of the loop condition at least 1000·k ms have elapsed |
| Poll.ElapsedGrows | src/ESPWiFiManager.cpp:65-68 | the clock never runs backwards: from test j to test k the elapsed time grows by at least 1000·(k - j) ms, so by at least 1000 ms per iteration |
| Poll.FirstStop | src/ESPWiFiManager.cpp:66 | the loop stops at the first test where the radio is connected or 10000 ms have elapsed, and never after the tenth delay |
| Poll.PollForConnection | src/ESPWiFiManager.cpp:65-69 | the poll loop terminates within ten delays. It exits at the first connected-or-timed-out test. It reports connected exactly when the radio was connected then, and a failed attempt has waited at least 10000 ms |
| Poll.PollOutcome | src/ESPWiFiManager.cpp:65-71 | the report of an attempt is connected exactly when the attempt succeeds, with the number of delays the loop took; it has at most ten delays, and a failed report at least one |
| Poll.FirstStopIsFirst | src/ESPWiFiManager.cpp:66 | a test that stops the loop, with no earlier test stopping it, is where the loop ends |
| Poll.ConnectsAtOutcome | src/ESPWiFiManager.cpp:65-71 | a radio that connects at the d-th test, without lag, gives a successful attempt after exactly `d` delays |
| Poll.OverrunsAtOutcome | src/ESPWiFiManager.cpp:65-71 | a radio that never connects and whose d-th iteration overruns the timeout gives a failed attempt after exactly `d` delays |
| Poll.PollOutcomeRealizable | src/ESPWiFiManager.cpp:65-71 | every report with at most ten delays, and at least one when it failed, is what the poll loop reports for some radio |
| Poll.NeverConnectsTimesOut | src/ESPWiFiManager.cpp:66-68 | a radio that never connects, with no extra lag, costs exactly ten delays and 10000 ms |
| Poll.ConnectedAtOnce | src/ESPWiFiManager.cpp:66 | a radio connected at the first test costs no delay |
| Poll.FailedAttemptWaitsTimeout | src/ESPWiFiManager.cpp:66-71 | an attempt that ends unconnected has used up the whole 10000 ms timeout |
| Boot.ConnectToWiFi | src/ESPWiFiManager.cpp:59-83 | one join attempt with the given pair's stored strings, followed by an access-point start exactly when it fails; at most ten delays |
| Boot.BootSequence | src/ESPWiFiManager.cpp:10-25 | the full table of boot traces: each combination of usable pairs and join results gives one fixed sequence of attempts and access-point starts; at most twenty delays in total |
| Boot.BootSequenceGating | src/ESPWiFiManager.cpp:10-16 | the primary pair is tried iff both of its strings are non-empty; the secondary pair iff both of its strings are non-empty and the primary did not connect |
| Boot.BootSequenceCredentials | src/ESPWiFiManager.cpp:10-16 | every attempt carries its own pair's stored strings |
| Boot.BootSequenceAttemptAt | src/ESPWiFiManager.cpp:10-16 | an attempt in the trace is the primary attempt at position 0, or the secondary attempt at position 0 or 2; a secondary attempt at position 0 means the primary was not tried |
| Boot.BootSequencePrimaryFirst | src/ESPWiFiManager.cpp:10-16 | a primary attempt always precedes a secondary one |
| Boot.BootSequenceFirstAttempt | src/ESPWiFiManager.cpp:10-11 | when both primary strings are non-empty, the first boot action is the attempt with those strings |
| Boot.BootSequenceOverRadios | src/ESPWiFiManager.cpp:10-18 | over a radio environment, the boot pass ends connected iff the poll loop of some usable pair sees its radio connected |
| Boot.RadioNetwork | src/ESPWiFiManager.cpp:60-71 | each attempt's join request is answered by the poll loop over the radio that attempt observes: it connects exactly when that radio's attempt succeeds |
| Boot.SameStringsRetryCanConnect | src/ESPWiFiManager.cpp:10-16 | when both pairs hold the same strings, the secondary attempt is still a fresh join request: it can connect after the primary attempt with the same strings timed out |
| Boot.ConnectToWiFiAPStarts | src/ESPWiFiManager.cpp:71-75 | one attempt starts the access point once when it fails and not at all when it succeeds |
| Boot.APStartsAppend | src/ESPWiFiManager.cpp:71-75 | access-point starts of consecutive pieces of a trace add up |
| Boot.BootSequenceConnected | src/ESPWiFiManager.cpp:14-25 | the device ends connected iff some tried pair joined; the trace ends with an access-point start iff it ends unconnected |
| Boot.BootSequenceAPStarts | src/ESPWiFiManager.cpp:71-75 | access-point starts = failed attempts + one more when the device ends unconnected; with no usable pair there is exactly one start and neither pair is tried |
| Boot.BootSequenceDelays | src/ESPWiFiManager.cpp:10-16 | the blocking time of a boot is the sum of the delays of the attempts actually made |
| Boot.Run | src/ESPWiFiManager.cpp:10-25 | a run of the reference state machine starts in the given state |
| Boot.MachinePassTable | src/ESPWiFiManager.cpp:10-25 | the states one pass of the reference state machine visits, for every combination of usable pairs and join results |
| Boot.BootSequenceRefinesMachine | src/ESPWiFiManager.cpp:10-25 | the code agrees with the reference state machine: the machine reaches a terminal state and visits `TryingPrimary`/`TryingSecondary` exactly when the code attempts that pair; it ends `Connected` exactly when the code ends connected |
| Boot.UnterminatedSlotBreaksBoot | src/ESPWiFiManager.cpp:5-10 | an unterminated slot leaves `begin` undefined at that slot or at an earlier one, before any decision |
| Boot.ErasedEepromBreaksBoot | src/ESPWiFiManager.cpp:5-10 | an EEPROM that reads 0xFF in every byte, as erased flash does, makes `begin` undefined at slot 0 |
| Boot.Begin | src/ESPWiFiManager.cpp:5-25 | a boot pass happens exactly when every slot loads; otherwise the boot is undefined at an unterminated slot |
| Intake.PairOf | src/ESPWiFiManager.cpp:140-151 | every slot is the SSID or the password slot of the pair it belongs to |
| Intake.StorePair | src/ESPWiFiManager.cpp:141-144 | storing a pair writes both of its strings to memory and to their windows and leaves the other pair alone. It makes two commits, and after the first one the password window still holds its old bytes |
| Intake.HandleRootPost | src/ESPWiFiManager.cpp:139-151 | a pair whose two fields are both present is written to memory and to its two EEPROM slots, whatever the values; a pair not submitted keeps its memory and EEPROM contents. Bytes beyond the slots are untouched. There are two separate commits per written pair |
| Intake.PostKeepsConsistent | src/ESPWiFiManager.cpp:140-151 | when memory matched the EEPROM and the submitted values are short and free of zeros, the restarted device reloads exactly the strings the handler left in memory |
| Intake.PostDecodesSlot | src/ESPWiFiManager.cpp:140-151 | after the handler each slot decodes to its string in memory, given storable values and a consistent device before |
| Intake.PostThenRebootTriesSubmitted | src/ESPWiFiManager.cpp:140-145 | after a submission of a non-empty primary pair and the restart, the first boot action is an attempt with exactly the submitted strings |
| Intake.EmptySsidDisablesPair | src/ESPWiFiManager.cpp:140-145 | an empty submitted primary SSID is stored as empty, and after the restart the primary pair is not tried |
| Intake.PostLongValueUnterminated | src/ESPWiFiManager.cpp:140-151 | a written value of 32 or more non-zero bytes leaves its slot with no terminator |
| Intake.LongValueBreaksNextBoot | src/ESPWiFiManager.cpp:140-151 | submitting a value of 32 or more non-zero bytes (a 32-byte SSID, a long passphrase) makes the next boot undefined at that slot or an earlier one, so no boot pass runs |
| Intake.PairWriteIsNotAtomic | src/ESPWiFiManager.cpp:143-144 | the image after the first commit already holds the new SSID while the password slot still holds its old bytes |
| Signal.SignalPercent | src/ESPWiFiManager.cpp:109-110 | the percentage is the linear scale through (-100 dBm, 0) and (-50 dBm, 100). It is never above 100 and exactly 100 from -50 dBm up. It is non-negative exactly from -100 dBm up, and negative below |
| Signal.SignalPercentMonotone | src/ESPWiFiManager.cpp:109-110 | a stronger signal never shows a lower percentage |
| Signal.SignalPercentEndpoints | src/ESPWiFiManager.cpp:109-110 | -100 dBm shows 0, -75 dBm shows 50, -50 dBm shows 100, and -128 dBm shows -56 |

## Left out

- Serial logging (`Serial.begin`, `Serial.print*`, the `ssidNumber` argument): output only.
- HTML building in `handleRoot` and `handleRootPost`, the JavaScript countdown, `server.on`, `server.begin`, `server.send` and `handleClient`: presentation and HTTP plumbing. The handler's form fields are a map from field name to value.
- The Wi-Fi driver (`WiFi.begin`, `WiFi.status`, `WiFi.localIP`, `scanNetworks`, `WiFi.RSSI`, `WiFi.SSID`): the radio is an oracle. The model takes the status read after the poll loop, and the reads in `begin`, to equal the status at the loop's last test. It takes the radio to be unconnected before the first attempt. Each attempt's report is a free choice per attempt and credential pair. The radio's internal state, such as the access point started just before the secondary attempt, is not modelled beyond that choice.
- `startAPMode` (`WiFi.softAP("ESP-01", …)`): it is recorded as a `StartAP` action. The access point's own behaviour is the driver's.
- `EEPROM.begin` and `EEPROM.commit` durability and power loss: hardware behaviour. The separate commits of a pair are exposed as intermediate images (`PairWriteIsNotAtomic`).
- Poll.Elapsed: each `delay(1000)` is taken to advance `millis()` by at least 1000 ms (the per-iteration lag is a `nat`). `delay` and `millis` come from the Arduino core, not from ESPWiFiManager, and the loop's only guard is the elapsed-time test. A `delay` that returned early, for example a tick early on an RTOS port, could let the loop make an eleventh delay. Every "at most ten delays" bound (`FirstStop`, `PollForConnection`, `AttemptOutcome`, `ConnectToWiFi`, `BootSequence`) and `NeverConnectsTimesOut` rests on this assumption.
- `millis`, `delay` and `delay(5000)`: time is an abstract elapsed counter advanced by the delays and an oracle lag. The 32-bit `unsigned long` wrap of `millis()` is not modelled. The source's unsigned subtraction makes the elapsed time wrap-safe for attempts shorter than 49 days.
- `ESP.restart`: the restart is the hand-over from `HandleRootPost` to a fresh `Begin` on the written EEPROM image.
- Codec.Save: `saveStringToEEPROM` accepts any `int` index; the model restricts it to the four slot indices, the only values the class passes. Out-of-range EEPROM writes are the EEPROM library's concern.
- Signal.SignalPercent: `map` comes from the Arduino core, not from ESPWiFiManager. It is taken to be `(x - inMin) * (outMax - outMin) / (inMax - inMin) + outMin` with C's truncating division. Some ESP8266 core versions add half the divisor before dividing; those would round differently below -100 dBm. The RSSI is typed as a signed byte, so no 32-bit overflow arises in the formula.
