# ESP32 BLE IRK component, modelled in Dafny

This project models the `ESP32BLEIrk` ESPHome component. The component makes an
ESP32 accept Bluetooth LE pairing. It reads every bonded peer's Identity Resolving
Key (IRK) out of the Bluedroid bond store into a table, and shows the first peer's
values on text sensors, each sensor in one of four encodings. The other peers
appear only in `get_device_info`. It also announces pairing progress to automation
triggers.

The model has four parts.

- **Formatters** (`formatters.dfy`, `base64.dfy`). These are pure functions for the
  four texts: the `XX:XX:XX:XX:XX:XX` address, the `0xhh,...` key list, the reversed
  32-digit key and the base64 key. Lemmas give each text's exact shape. The address
  and the base64 key have whole-text inverses that read the bytes back. The key list
  and the reversed key are characterised digit pair by digit pair, and each pair
  reads back as its byte through `ParseHexByte`.
- **Bond-table rebuild and bulk delete** (`esp32_ble_irk.dfy`, `reactor.dfy`,
  `device_table.dfy`).
  - `BleIrk` is a class with the component's fields: the two configuration flags, the
    sensors, the identity table `deviceInfo` and the subscribed triggers.
  - It keeps a log `trace` of every stack call and emission, and a log `fired` of
    every trigger firing.
  - `ExtractIrkData` and `ClearAllBonds` are loops over the listed bonds. They are
    proved against trace functions of the stack's outcome.
  - The outcome is a ghost `Listing`: no bonds, allocation failure, list failure, or
    the listed records.
- **Security-event reactor** (`reactor.dfy`). The GAP and GATT-server handlers form a
  memoryless table from a stack event to its calls and emissions. Setup applies six
  security parameters in a fixed order.
- **Sensor fan-out** (`TextSensor`, `UpdateTextSensors`). Each sensor gets its
  format's field of the first device, or "". It publishes only when the value
  changed.

The host stack is the class `Bluedroid.Stack`: a bond store, plus calls whose
status is a nondeterministic choice. `esp_ble_remove_bond_device` is queued by the
stack and takes effect later, when the remove-bond-complete event arrives. So no
call changes the store while the component runs.

`malloc` is modelled as a call that may fail (`Bluedroid.Allocate`).
`esp_ble_get_bond_device_list` hands back at most the requested number of records.
The loop and the emitted count use the length of what it returned.

Three behaviours of the code are easy to misread, and the model states them as
written:

- An extraction that finds zero bonds refreshes the sensors to "" but emits no
  `ON_IRK_EXTRACTED` at all, not even with a count of 0 (cpp:205-209).
- If the buffer allocation or the list query fails, the table is left EMPTY, because
  it is cleared before the count is asked for (cpp:199); the previous table is not
  kept. The sensors are not refreshed on that path, so they keep showing the
  previous first device while `get_device_info` returns nothing.
- `clear_all_bonds` with zero bonds, or after an allocation or list failure, changes
  nothing and emits nothing (cpp:267-284). In particular the table is not emptied
  on those paths.

## Model

| member | source | states |
|---|---|---|
| Bytes.ToUint16 | components/esp32_ble_irk/esp32_ble_irk.cpp:261 | The `(uint16_t)` cast keeps the count modulo 2^16, and is exact below 2^16. |
| Events.EventOrdinal | components/esp32_ble_irk/esp32_ble_irk.h:26-31 | The four event kinds are numbered 0..3, and the numbering is a bijection. |
| Events.FormatOrdinal | components/esp32_ble_irk/esp32_ble_irk.h:34-39 | The four sensor formats are numbered 0..3, and the numbering is a bijection. |
| Events.Project | components/esp32_ble_irk/esp32_ble_irk.h:132-161 | Computes what one trigger's lambda passes on from an emission of its kind: the address, then success and reason, the count, or nothing. `DispatchFires` and `DispatchInRegistrationOrder` state that each firing carries this projection. |
| Events.Dispatch | components/esp32_ble_irk/esp32_ble_irk.h:129-163 | Computes the `emit_` fan-out: one firing, tagged with the registration index, per subscriber of the emission's kind, taken in registration order. `DispatchFires` and `DispatchInRegistrationOrder` hold its properties. |
| Events.DispatchFires | components/esp32_ble_irk/esp32_ble_irk.h:129-163 | Every subscriber of an emission's kind fires once. The pairing-started trigger gets only the address; pairing-complete gets address, success and reason; extracted gets only the count; bond-cleared gets nothing. |
| Events.DispatchInRegistrationOrder | components/esp32_ble_irk/esp32_ble_irk.h:129-163 | Each firing names its subscriber's registration index. Exactly the subscribers registered for the emission's kind fire, each once, in increasing registration index, and each receives its own trigger's projection of the emission. |
| Events.DeliverAppend | components/esp32_ble_irk/esp32_ble_irk.h:54 | Consecutive emissions are delivered one after the other. |
| Events.DeliverOne | components/esp32_ble_irk/esp32_ble_irk.h:54 | A single emission is delivered as one dispatch. |
| Bluedroid.PolicyMeaning | components/esp32_ble_irk/esp32_ble_irk.cpp:37-53 | The authentication requirement asks for bonding, MITM protection and secure connections. The key masks distribute the encryption and identity keys. |
| Bluedroid.Allocate | components/esp32_ble_irk/esp32_ble_irk.cpp:212-216 | `malloc` of the enumeration buffer (also at cpp:273): it returns a nondeterministic success flag, and `ListBonds` stops with `AllocFailed` when it is false. |
| Bluedroid.Stack.GetBondDeviceNum | components/esp32_ble_irk/esp32_ble_irk.cpp:202 | The count query reports the size of the bond store. |
| Bluedroid.Stack.GetBondDeviceList | components/esp32_ble_irk/esp32_ble_irk.cpp:219 | On success the list query returns at most the requested number of records from the front of the store, in order. On failure it returns nothing. |
| Formatters.HexDigit | components/esp32_ble_irk/esp32_ble_irk.cpp:316 | A digit printed for a value 0..15 reads back as that value. |
| Formatters.DigitValueCanonical | components/esp32_ble_irk/esp32_ble_irk.cpp:316 | Every accepted digit is the one printed for its value. |
| Formatters.HexByte | components/esp32_ble_irk/esp32_ble_irk.cpp:316 | `%02X` and `setw(2) setfill('0') hex` print exactly two digits, which parse back to the byte. |
| Formatters.ParseHexByteCanonical | components/esp32_ble_irk/esp32_ble_irk.cpp:316 | Two characters that parse as a byte are exactly that byte's printed digits. |
| Formatters.FormatAddress | components/esp32_ble_irk/esp32_ble_irk.cpp:305-310 | Computes the `%02X:%02X:%02X:%02X:%02X:%02X` text of the six address bytes. `FormatAddressAt`, `FormatAddressShape`, `AddressRoundTrip` and `ParseAddressCanonical` hold its properties. |
| Formatters.FormatAddressAt | components/esp32_ble_irk/esp32_ble_irk.cpp:305-310 | Characters 3k and 3k+1 of the address text are byte k's upper-case digits, and character 3k+2 is a colon. |
| Formatters.FormatAddressShape | components/esp32_ble_irk/esp32_ble_irk.cpp:305-310 | The address text has 17 characters: the six bytes in order as two upper-case digits each, with colons at 2, 5, 8, 11 and 14. |
| Formatters.AddressRoundTrip | components/esp32_ble_irk/esp32_ble_irk.cpp:305-310 | Parsing the formatted address gives the address back. |
| Formatters.ParseAddressCanonical | components/esp32_ble_irk/esp32_ble_irk.cpp:305-310 | Every string the parser accepts is address-shaped, and it is the formatted text of the address parsed from it. So the formatter is a bijection onto that shape. |
| Formatters.HexListShape | components/esp32_ble_irk/esp32_ble_irk.cpp:314-317 | After n bytes the loop has built 5n-1 characters: `0x` and two lower-case digits per byte in order, and a comma between groups. |
| Formatters.FormatIrkHex | components/esp32_ble_irk/esp32_ble_irk.cpp:312-319 | Computes the comma-separated `0xhh` list of the 16 key bytes with the loop's list builder `HexList`. `HexListShape` and `FormatIrkHexShape` hold its properties. |
| Formatters.FormatIrkHexShape | components/esp32_ble_irk/esp32_ble_irk.cpp:312-319 | The key list has 79 characters: group i is `0x` plus irk[i]'s lower-case digits, and the groups are joined by 15 commas. |
| Formatters.ReverseHexAt | components/esp32_ble_irk/esp32_ble_irk.cpp:327-329 | The descending loop prints 2n digits. Characters 2j and 2j+1 encode byte n-1-j. |
| Formatters.FormatIrkReverse | components/esp32_ble_irk/esp32_ble_irk.cpp:325-331 | Computes the key's 32 lower-case digits from the last byte to the first with `ReverseHex`. `ReverseHexAt`, `FormatIrkReverseShape`, `ReverseHexIsHexOfReversed`, `FormatIrkReverseIsReversedHex` and `ReverseMatchesHexList` hold its properties. |
| Formatters.FormatIrkReverseShape | components/esp32_ble_irk/esp32_ble_irk.cpp:325-331 | The reversed key has 32 characters; characters 2j and 2j+1 are irk[15-j]'s lower-case digits. |
| Formatters.ReverseHexIsHexOfReversed | components/esp32_ble_irk/esp32_ble_irk.cpp:327-329 | Printing the bytes backwards equals printing the reversed bytes forwards. |
| Formatters.FormatIrkReverseIsReversedHex | components/esp32_ble_irk/esp32_ble_irk.cpp:325-331 | The reversed key is the separator-free hex of the byte-reversed key. |
| Formatters.ReverseMatchesHexList | components/esp32_ble_irk/esp32_ble_irk.cpp:312-331 | The reversed key is the key list read group by group from the last, with prefixes and commas dropped. |
| Formatters.FormatIrkBase64 | components/esp32_ble_irk/esp32_ble_irk.cpp:321-323 | Computes the base64 text of the 16 key bytes through `Base64.Encode`. `FormatIrkBase64Shape` holds its properties. |
| Formatters.FormatIrkBase64Shape | components/esp32_ble_irk/esp32_ble_irk.cpp:321-323 | The base64 key has 24 characters: 22 alphabet characters then `==`. Decoding it gives the key back. |
| Base64.Encode | components/esp32_ble_irk/esp32_ble_irk.cpp:322 | Computes padded standard base64: one four-character group per three bytes, then the padded tail. `EncodePadding`, `GroupRoundTrip` and `RoundTrip` hold its properties. |
| Base64.Char | components/esp32_ble_irk/esp32_ble_irk.cpp:322 | Each 6-bit value's character is in the alphabet and reads back as that value. |
| Base64.EncodePadding | components/esp32_ble_irk/esp32_ble_irk.cpp:322 | An encoding of n bytes has 4*ceil(n/3) characters. Only the last group is padded: `==` after one leftover byte, `=` after two. |
| Base64.GroupRoundTrip | components/esp32_ble_irk/esp32_ble_irk.cpp:322 | A full group of three bytes decodes back to them, as an inner or the last group. |
| Base64.RoundTrip | components/esp32_ble_irk/esp32_ble_irk.cpp:322 | Decoding the encoding of any byte string gives that string back. |
| DeviceTable.MakeDeviceInfo | components/esp32_ble_irk/esp32_ble_irk.cpp:230-242 | A record copies the bond's address and key, and its four text fields are the formatter outputs of those bytes. |
| DeviceTable.BuildTableAt | components/esp32_ble_irk/esp32_ble_irk.cpp:229-252 | The loop pushes one consistent record per listed bond, in list order. |
| DeviceTable.Field | components/esp32_ble_irk/esp32_ble_irk.cpp:344-357 | Computes the switch on a sensor's format: the record's hex, base64, reversed or address text. `SensorValueOfExtraction` holds its properties. |
| DeviceTable.SensorValue | components/esp32_ble_irk/esp32_ble_irk.cpp:337-357 | Computes what a sensor shows: "" for an empty table, otherwise its format's field of the first record only. `UpdateTextSensors` and `SensorValueOfExtraction` hold its properties. |
| DeviceTable.SensorValueOfExtraction | components/esp32_ble_irk/esp32_ble_irk.cpp:333-362 | After an extraction every sensor shows "" if there were no bonds. Otherwise it shows its format's encoding of the first listed bond, at full width (79, 24, 32 or 17 characters). |
| Reactor.ListingQuiet | components/esp32_ble_irk/esp32_ble_irk.cpp:202-224 | A listing queries the count once and emits nothing. |
| Reactor.ExtractEmits | components/esp32_ble_irk/esp32_ble_irk.cpp:195-262 | An extraction queries the count once. It emits ON_IRK_EXTRACTED exactly when the list query succeeded, with the listed count (exact below 2^16). With zero bonds or after a failure it emits nothing. |
| Reactor.ExtractTable | components/esp32_ble_irk/esp32_ble_irk.cpp:199-252 | The table left behind has one consistent record per listed bond, in list order, with that bond's address and key. After zero bonds or a failure it is empty. |
| Reactor.ExtractDelivers | components/esp32_ble_irk/esp32_ble_irk.cpp:259-261 | The subscribers of an extraction receive one dispatch of ON_IRK_EXTRACTED after a listing, and nothing otherwise. |
| Reactor.RemovalsQuiet | components/esp32_ble_irk/esp32_ble_irk.cpp:288-293 | The removal requests of a bulk delete emit nothing and never query the bond count. |
| Reactor.ClearRemovesEveryBond | components/esp32_ble_irk/esp32_ble_irk.cpp:279-302 | After the list query, a bulk delete requests the removal of every listed address, in list order, before the single ON_BOND_CLEARED. |
| Reactor.ClearEmits | components/esp32_ble_irk/esp32_ble_irk.cpp:264-303 | A bulk delete queries the count once. It emits ON_BOND_CLEARED exactly once when it got its listing, and nothing otherwise. |
| Reactor.GapResponse | components/esp32_ble_irk/esp32_ble_irk.cpp:126-193 | A security request gets exactly the accepting security response, a numeric-comparison request exactly the accepting confirm reply, and a passkey request exactly the accepting passkey reply with 123456, each to the requesting peer. Other events make no call. Only authentication-complete emits: ON_PAIRING_COMPLETE with reason 0 on success, or the failure reason. |
| Reactor.GapExtractsOnce | components/esp32_ble_irk/esp32_ble_irk.cpp:155-187 | Authentication-complete extracts exactly when it succeeded and auto-extract is on. Remove-bond-complete always extracts. No other event extracts, and an extraction appears exactly once in the trace. |
| Reactor.GattsResponse | components/esp32_ble_irk/esp32_ble_irk.cpp:98-124 | A connection emits ON_PAIRING_STARTED with the peer's address, and only then requests MITM encryption for that peer. Other GATT-server events do nothing. |
| Reactor.SecurityConfiguration | components/esp32_ble_irk/esp32_ble_irk.cpp:37-77 | Setup sets each of the six security parameters once and emits nothing. The values are: SC+MITM+bonding, a 16-octet key, encryption and identity keys both ways, a static passkey of 123456, equal to the one passkey requests are answered with, and "only accept specified authentication" set to 0 (disabled). |
| Esp32BleIrk.TextSensor.SetFormat | components/esp32_ble_irk/esp32_ble_irk.h:98 | The format becomes the given one, and nothing else changes. |
| Esp32BleIrk.TextSensor.UpdateValue | components/esp32_ble_irk/esp32_ble_irk.cpp:386-391 | The state becomes the value. It is published only if it differs from the previous state, so repeating a value publishes nothing. |
| Esp32BleIrk.BleIrk.constructor | components/esp32_ble_irk/esp32_ble_irk.h:82-85 | Defaults: auto-extract on, no clear on startup, no sensors, an empty table. |
| Esp32BleIrk.BleIrk.SetAutoExtract | components/esp32_ble_irk/esp32_ble_irk.h:68 | Only the auto-extract field changes. |
| Esp32BleIrk.BleIrk.SetClearBondsOnStartup | components/esp32_ble_irk/esp32_ble_irk.h:69 | Only the clear-on-startup field changes. |
| Esp32BleIrk.BleIrk.AddTextSensor | components/esp32_ble_irk/esp32_ble_irk.h:72 | The sensor is appended, keeping registration order, and nothing else changes. |
| Esp32BleIrk.BleIrk.On | components/esp32_ble_irk/esp32_ble_irk.h:131-133 | A trigger's subscription is appended to the listeners, in registration order. |
| Esp32BleIrk.BleIrk.GetDeviceInfo | components/esp32_ble_irk/esp32_ble_irk.h:79 | Returns the current table unchanged, and each of its records is consistent. |
| Esp32BleIrk.BleIrk.Call | components/esp32_ble_irk/esp32_ble_irk.cpp:37-77 | A stack call whose status is not acted on is logged once and nothing else changes. It models the security-parameter calls of cpp:37-77 and the calls at cpp:108, 132, 139, 151 and 289. |
| Esp32BleIrk.BleIrk.Emit | components/esp32_ble_irk/esp32_ble_irk.cpp:105 | An emission is logged, and the subscribers of its kind fire in registration order, each firing tagged with the subscriber's registration index. |
| Esp32BleIrk.BleIrk.UpdateTextSensors | components/esp32_ble_irk/esp32_ble_irk.cpp:333-362 | Every sensor shows its format's field of the first device, or "". Each publishes only if its value changed. |
| Esp32BleIrk.BleIrk.ListBonds | components/esp32_ble_irk/esp32_ble_irk.cpp:202-224 | Queries the count, then the list unless the count was 0 or the buffer allocation failed. A successful listing is the whole store. |
| Esp32BleIrk.BleIrk.RecordDevices | components/esp32_ble_irk/esp32_ble_irk.cpp:229-252 | The table becomes one record per listed bond, in order. |
| Esp32BleIrk.BleIrk.RequestRemovals | components/esp32_ble_irk/esp32_ble_irk.cpp:288-293 | One removal request per listed record, in order, whatever each returns. |
| Esp32BleIrk.BleIrk.ConfigureSecurity | components/esp32_ble_irk/esp32_ble_irk.cpp:37-77 | The six parameter calls, in order, whatever each returns. |
| Esp32BleIrk.BleIrk.ExtractIrkData | components/esp32_ble_irk/esp32_ble_irk.cpp:195-262 | The trace gains the extraction's calls and emission, the subscribers get what it emits, and the table is rebuilt from the listing (or left empty). Sensors are refreshed after zero bonds or a listing, and untouched after a failure. The records stay consistent. |
| Esp32BleIrk.BleIrk.ForgetBonds | components/esp32_ble_irk/esp32_ble_irk.cpp:288-302 | Once listed, a bulk delete requests each record's removal in order, empties the table, shows "" on every sensor, then emits ON_BOND_CLEARED to its subscribers. |
| Esp32BleIrk.BleIrk.ClearAllBonds | components/esp32_ble_irk/esp32_ble_irk.cpp:264-303 | After a listing, every bond's removal is requested, the table is emptied, the sensors show "", and ON_BOND_CLEARED fires. Otherwise only the count (and list) queries are made and the table and sensors are untouched. |
| Esp32BleIrk.BleIrk.Setup | components/esp32_ble_irk/esp32_ble_irk.cpp:18-85 | The six security calls, then one bulk delete exactly when clear-on-startup is set. Otherwise nothing else changes. |
| Esp32BleIrk.BleIrk.RespondToGap | components/esp32_ble_irk/esp32_ble_irk.cpp:128-181 | Makes the immediate reply or emission of each GAP event kind. |
| Esp32BleIrk.BleIrk.GapEventHandler | components/esp32_ble_irk/esp32_ble_irk.cpp:126-193 | The immediate response. Then one extraction exactly when the event calls for one, and nothing else otherwise. |
| Esp32BleIrk.BleIrk.GattsEventHandler | components/esp32_ble_irk/esp32_ble_irk.cpp:98-124 | A connection emits ON_PAIRING_STARTED, then requests MITM encryption. Other events change nothing. |
| Esp32BleIrk.ExtractAction.constructor | components/esp32_ble_irk/esp32_ble_irk.h:110 | The action keeps the component it was built with as its parent. |
| Esp32BleIrk.ExtractAction.Play | components/esp32_ble_irk/esp32_ble_irk.h:112 | Runs exactly one extraction, with its full contract. |
| Esp32BleIrk.ClearBondsAction.constructor | components/esp32_ble_irk/esp32_ble_irk.h:120 | The action keeps the component it was built with as its parent. |
| Esp32BleIrk.ClearBondsAction.Play | components/esp32_ble_irk/esp32_ble_irk.h:122 | Runs exactly one bulk delete, with its full contract. |

## Left out

- Logging: every `ESP_LOG*` call and both `dump_config` methods only write to the log.
- `get_setup_priority` only returns a scheduling constant. `loop()` is declared in the header but has no definition in the component's source.
- `__init__.py` and `text_sensor.py` are code generation and configuration schema, not runtime behaviour. So are the sensor's `set_parent` and its `parent_` field.
- The Bluedroid stack's internals: which call succeeds is a nondeterministic choice, and the bond store does not change while the component runs. Removals take effect later through the remove-bond-complete event.
- `base64_encode` is an ESPHome helper whose source is not part of this model. It is modelled as padded standard base64 without line breaks (section 4 of RFC 4648).
- Bluedroid.Stack.GetBondDeviceNum: always reports the store size. It does not model a negative error return from `esp_ble_get_bond_device_num`.
- `free(dev_list)`: memory is not modelled. Allocation is only a call that may fail.
- `publish_state` internals (filters, callbacks, raw state), and the `EventEmitter` implementation beyond calling the subscribers of a kind in registration order.
- Esp32BleIrk.BleIrk.UpdateTextSensors: each sensor's publication log is kept per sensor. The order between publications and the component's `trace` is not stated.
- Esp32BleIrk.BleIrk.Emit: a firing records the arguments a trigger receives, not what its automation then does.
- Callback dispatch and threading of the BLE stack: each handler call is one atomic step.
- The disconnect reason, the passkey in a numeric-comparison or passkey notification, and the address type in authentication-complete are only logged.
