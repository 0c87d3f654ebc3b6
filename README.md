# A Dafny model of the BLE light-dimmer receiver

The repository is a MicroPython light dimmer. A remote broadcasts short BLE
advertisements, and the dimmer scans for them. A handler built without a
file `stored_remote` stays unpaired for its whole session: it writes the MAC
address of every command's sender to that file, so the file holds the last
sender heard, and that remote is pinned only when the handler is next built,
at the next start. The pinned remote's presses are debounced with
MicroPython's wrap-around tick counter. Each press steps a brightness index up or
down over the levels of the current profile. The profile name and the
profile-to-levels mapping live in the file `settings`, which holds the name
on its first line and JSON after it; a missing or unreadable file is
replaced by a default one. `abc.py` also holds a BLE advertising-payload
encoder and a Nordic UART peripheral that tracks its connected centrals.

The project models:

- `ad_payload.dfy` (module `AdPayload`): `advertising_payload`. It has the AD
  structure format of the Bluetooth Core Specification, Vol 3, Part C,
  Section 11, the AD types of the Core Specification Supplement, Part A,
  sections 1.1, 1.2, 1.3 and 1.12, and the 31-octet legacy limit. It also
  has a decoder that splits a payload on its length octets, and a
  round-trip proof through it.
- `ticks.dfy` (module `Ticks`): `ticks_diff` as the signed difference modulo
  a tick period. The period is a parameter.
- `settings_file.dfy` (module `SettingsFile`): the settings-file layout as
  both variants of `load` read and bootstrap it.
- `advertisement.dfy` (module `Advertisement`): `AdvertisementHandler` as
  a class with the source's fields, and abc.py's `load`. `handle_event` is
  specified by a pure decision function, `Decide`. receiver.py:9-47 is the
  same class without its `print` calls, so the same Dafny class models it.
- `characteristic.dfy` (module `Characteristic`): abc.py's
  `CharacteristicHandler`, namely its connection set, re-advertising after a
  disconnect, write forwarding, `send` and `is_connected`. Connection
  tracking is specified by a pure replay of connect and disconnect events.
- `receiver.dfy` (module `Receiver`): receiver.py's `load`, which does not
  strip the name line, and its `bt_irq` dispatch.

Files are a `FileStore` object holding the whole content of each text and
binary file. A raised `KeyError` is an `ok = false` result, with the state as
it is at the raise. The JSON codec is a pair of functions passed in. The
clock reading and the tick period are parameters.

The first press of a paired remote is not always admitted: `last_message`
starts at 0 (abc.py:58), so a press within the first `cooldown_ms` ticks, or from half a
tick period on, is dropped. The model follows the code.

## Model

| member | source | states |
|---|---|---|
| `AdPayload.SerializeAppend` | abc.py:20-22 | appending structures one after another concatenates their encodings in order |
| `AdPayload.SerializeLength` | abc.py:20-22 | every structure takes its data length plus two octets of the payload, so a payload of at most 31 octets has no structure too long for its length octet |
| `AdPayload.ParseSerialize` | abc.py:20-22 | structures whose length octet is exact split back out of their concatenation, type and data unchanged |
| `AdPayload.SerializeParse` | abc.py:20-22 | a byte string that splits into structures is exactly their concatenated encoding |
| `AdPayload.Utf8Char` | abc.py:29 | a character encodes to 1 to 4 octets, and to exactly one when it is below 0x80 |
| `AdPayload.Utf8Length` | abc.py:29 | a name has at least as many octets as characters, and exactly as many when it is ASCII |
| `AdPayload.ServiceStructures` | abc.py:30-38 | at most one structure per UUID, each a service list of the type matching its size and holding one of the given UUIDs |
| `AdPayload.ServiceStructuresAppend` | abc.py:30-38 | the service structures follow the order of the UUID list |
| `AdPayload.ServiceStructuresOfOne` | abc.py:32-38 | a 2-, 4- or 16-octet UUID gives a structure of type 3, 5 or 7 holding it; any other length gives none |
| `AdPayload.AppearanceRoundTrip` | abc.py:39-40 | an appearance in the signed 16-bit range reads back from its two little-endian octets |
| `AdPayload.Append` | abc.py:20-22 | one call grows the payload by exactly one encoded structure of the given type and data |
| `AdPayload.AppendServiceLists` | abc.py:30-38 | the loop over the UUIDs appends exactly the encodings of the service structures, in list order |
| `AdPayload.AdvertisingPayload` | abc.py:11-43 | the method's result is the encoding of Flags, name, services and appearance in that order, or the error when it exceeds 31 octets; the name's length octet counts its UTF-8 octets, the corrected framing of the name (see Findings) |
| `AdPayload.PayloadLimit` | abc.py:41-43 | a returned payload has at most 31 octets; the error occurs exactly when the encoding is longer |
| `AdPayload.PayloadRoundTrip` | abc.py:18-43 | a returned payload splits on its length octets back into exactly the appended structures |
| `AdPayload.FlagsFirst` | abc.py:24-27 | the payload starts with the Flags structure `02 01 v`, where v is 0x01 or 0x02 plus 0x18 or 0x04; the default arguments give `02 01 06` |
| `AdPayload.NameStructure` | abc.py:28-29 | a Complete Local Name structure is present exactly when the name is non-empty; it follows Flags and holds the name's octets |
| `AdPayload.AppearanceStructure` | abc.py:39-40 | an Appearance structure is present exactly when the appearance is non-zero; it comes last and holds its two octets |
| `AdPayload.UartPayloadFits` | abc.py:127 | the UART peripheral's payload (name `mpy-uart`, the 128-bit UART service) is accepted and fills the 31 octets exactly |
| `AdPayload.AsciiNameFramedCorrectly` | abc.py:22-29 | for an ASCII name, the name structure as the source frames it is the correct one |
| `AdPayload.NonAsciiNameMisframed` | abc.py:22-29 | for a non-ASCII name, the source's length octet differs from the data length plus one |
| `AdPayload.AccentedNameUnparseable` | abc.py:22-29 | with the name "é" the source's payload is `02 01 06 02 09 C3 A9`, which does not split into structures |
| `Ticks.TicksDiff` | abc.py:83 | the signed tick difference lies in [-period/2, period/2) |
| `Ticks.TicksDiffExact` | abc.py:83 | readings less than half a period apart differ by exactly their distance |
| `Ticks.TicksDiffPeriodic` | abc.py:83 | shifting either reading by a whole period does not change the difference |
| `Ticks.CooldownWindow` | abc.py:82-84 | for in-range readings, the debounce test passes exactly when the elapsed time modulo the period is at least the cooldown and under half a period |
| `SettingsFile.ReadLine` | abc.py:94 | `readline` splits the text into a first line and the rest, which concatenate back to it; the line has no line feed except its last character, and ends with one when text follows |
| `SettingsFile.RStrip` | abc.py:94 | `rstrip` returns a prefix that does not end in whitespace, and everything it removed is whitespace |
| `SettingsFile.ReadLineAfterName` | abc.py:94 | a name written as a line reads back as that line, line feed included, with the rest untouched |
| `SettingsFile.NameLineRoundTrip` | abc.py:94-101 | a name written as `name\n` reads back as the name through `readline().rstrip()` |
| `SettingsFile.NameLineKeepsNewline` | receiver.py:53 | without `rstrip` the name read back keeps its line feed and differs from the name written |
| `SettingsFile.BootstrapReadBack` | abc.py:98-101 | the bootstrapped file reads back as the line `default\n` and the default mapping |
| `SettingsFile.BootstrapSelectsKnownProfile` | abc.py:97-99 | a load that bootstraps selects `default`, which is a key of the mapping with four levels |
| `SettingsFile.StrippedLoadIdempotent` | abc.py:91-102 | loading the file a load leaves behind gives the same settings and leaves the file as it is |
| `SettingsFile.UnstrippedReloadLosesProfile` | receiver.py:50-61 | after a bootstrap, the next load selects `default\n`, which is not a key of the mapping |
| `Advertisement.AdvertisementHandler.constructor` | abc.py:47-63 | index and timestamp start at 0, the cooldown is the one given, and the pinned MAC is the content of `stored_remote`, or none when it is missing |
| `Advertisement.AdvertisementHandler.IncreaseSetting` | abc.py:65-66 | the index becomes the smaller of the last level and the index plus one; `KeyError` when the profile is not in the mapping |
| `Advertisement.AdvertisementHandler.DecreaseSetting` | abc.py:68-69 | the index becomes the larger of 0 and the index minus one |
| `Advertisement.AdvertisementHandler.HandleEvent` | abc.py:71-88 | the file, timestamp and index change exactly as the decision for the advertisement says: an unpaired handler pins the MAC in the file, an admitted press moves the timestamp to `now` and steps, and nothing else changes |
| `Advertisement.Load` | abc.py:90-102 | the handler holds the stripped name line and the decoded mapping, or the default settings with the bootstrap file written when either read fails |
| `Advertisement.StepUpClamped` | abc.py:65-66 | from a valid index a step up stays valid; it is a no-op at the top and adds one elsewhere |
| `Advertisement.StepDownClamped` | abc.py:68-69 | from a valid index a step down stays valid; it is a no-op at 0 and subtracts one elsewhere |
| `Advertisement.StepsStayInRange` | abc.py:65-69 | no run of presses takes a valid index outside the profile's levels |
| `Advertisement.RepeatedUp` | abc.py:65-66 | k presses up give the index plus k, clamped at the last level |
| `Advertisement.RepeatedDown` | abc.py:68-69 | k presses down give the index minus k, clamped at 0 |
| `Advertisement.UntaggedIgnored` | abc.py:74 | an advertisement without `CA FE 12 34` at offsets 2 to 5 and length 7 is ignored |
| `Advertisement.ForeignSenderIgnored` | abc.py:81-88 | a command from a MAC other than the pinned one is ignored |
| `Advertisement.UnpairedOnlyPins` | abc.py:75-80 | with no MAC pinned, a command pins the sender's MAC and nothing else; anything else is ignored |
| `Advertisement.PinnedSenderDebounced` | abc.py:81-86 | a command from the pinned MAC steps exactly when `ticks_diff(now, last_message)` reaches the cooldown, and steps up exactly when its last octet is 2 |
| `Advertisement.FirstPressNotAlwaysAdmitted` | abc.py:58-84 | since the timestamp starts at 0, a first press in the first `cooldown_ms` ticks or from half a period on is dropped |
| `Advertisement.AdmittedWindow` | abc.py:81-86 | a pinned press steps exactly when the time since the last admitted press, modulo the period, is at least the cooldown and under half a period |
| `Characteristic.CharacteristicHandler.constructor` | abc.py:106-129 | no connections, no callback, and the advertised payload is the UART payload, which is exactly 31 octets |
| `Characteristic.CharacteristicHandler.IsConnected` | abc.py:153-154 | true exactly when the connection set is non-empty |
| `Characteristic.CharacteristicHandler.Advertise` | abc.py:156-158 | one advertising call with the given interval and the payload |
| `Characteristic.CharacteristicHandler.OnWrite` | abc.py:160-161 | registers the write callback, or clears it for `None` |
| `Characteristic.CharacteristicHandler.HandleEvent` | abc.py:131-147 | a connect adds the handle; a disconnect removes it and advertises again, or fails when the handle is absent; a write to the RX handle with a callback delivers the value |
| `Characteristic.CharacteristicHandler.Send` | abc.py:149-151 | one notification on the TX handle per connected central, each exactly once, and no other |
| `Characteristic.ConnectThenDisconnect` | abc.py:133-140 | a connect followed by a disconnect of the same handle leaves the set without that handle |
| `Characteristic.DisconnectAbsentFails` | abc.py:137-140 | a disconnect of an absent handle fails; a connect then disconnect of it restores the set |
| `Characteristic.ReplayTracksLatest` | abc.py:133-140 | after a run of events that does not fail, a handle is in the set exactly when its latest event is a connect |
| `Characteristic.ReplaySucceedsIff` | abc.py:137-140 | a run of events fails exactly when one of its disconnects names a handle not connected at that point |
| `Characteristic.ConnectedAfterConnect` | abc.py:133-136 | a connect adds exactly its handle to the set, and that handle counts as connected |
| `Receiver.Load` | receiver.py:49-61 | the handler holds the name line with its line feed and the decoded mapping, or the default settings with the bootstrap file written when either read fails |
| `Receiver.BtIrq` | receiver.py:86-90 | a scan result is handled as `handle_event` specifies; every other event changes nothing |

## Left out

- BLE radio primitives (`gap_scan`, `gap_advertise`, `gatts_register_services`, `gatts_read`, `gatts_notify`, `ble.irq`, `ble.active`) are foreign stack calls. The registered handles are constructor parameters, the value `gatts_read` returns is a parameter of the write event, and the advertising and notify calls are recorded as values.
- The UART service definition with its characteristic flags (abc.py:107-124) only feeds `gatts_register_services`, so it is not modelled.
- The write callback's own effect is foreign code. The model records the values it is called with.
- File I/O (`open`, `read`, `write`, `flush`) becomes whole-file contents in a `FileStore`. Open failures other than a missing file are not modelled, and neither is a failure while writing the bootstrap file.
- `ujson.load` and `ujson.dumps` are a pair of functions given as parameters. A decode that fails is `None`, and a decoded value is taken to be a mapping of profile names to level lists.
- Brightness levels are reals. The handlers use only how many levels a profile has.
- `print` calls and the module-level startup code (abc.py:164-188, receiver.py:82-95) are side effects and wiring. This includes abc.py's `bt_irq` (abc.py:175-183), which passes scan results to the same `handle_event` that `Receiver.BtIrq` calls.
- receiver.py's `CharacteristicHandler` (receiver.py:64-79) only registers a service and prints what is written. `Receiver.BtIrq` therefore treats event 3 as changing nothing.
- `bytes(uuid)` of a `bluetooth.UUID` is taken to be the UUID's octets as given.
- `Characteristic.CharacteristicHandler.HandleEvent` and `Receiver.BtIrq` require that the BLE stack delivers the tuple shape that belongs to each event code. The `ValueError` that unpacking a mismatched tuple would raise is not modelled.
- Comparing a stored MAC (`bytes`) with a delivered one (`memoryview`) is modelled as equality of their octets.

## Findings

| source | as written | input that shows it | evidently intended | confidence | as-written member | corrected member |
|---|---|---|---|---|---|---|
| abc.py:22-29 | The name structure's length octet is `len(name) + 1`, which counts characters, while the data appended is the name's UTF-8 octets. | The name "é" gives `02 01 06 02 09 C3 A9`: the name structure claims one data octet, carries two, and the stray `A9` cannot be framed. | The length octet counts the encoded octets of the name. | not executed | `AdPayload.NameStructureAsWritten`, `AdPayload.AccentedNameUnparseable` | `AdPayload.AdvertisingPayload`, `AdPayload.PayloadRoundTrip` |
| receiver.py:53 | `load` takes the profile name from `f.readline()` without `rstrip()`, so the name keeps its line feed. | A bootstrapped `settings` file loaded at the next start gives the profile `"default\n"`, which is not a key of `{"default": [...]}`. The first press up then raises `KeyError` at receiver.py:29. | Strip the name line as abc.py:94 does. | not executed | `SettingsFile.UnstrippedReloadLosesProfile`, `Receiver.Load` | `SettingsFile.StrippedLoadIdempotent`, `Advertisement.Load` |
