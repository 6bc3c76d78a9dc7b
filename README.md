# SmartRoadMonitor firmware: a Dafny model

SmartRoadMonitor's roadside hardware has two Raspberry Pi Pico W nodes.
The sensor node reads an AS7343 spectral sensor and an MLX90614 infrared
thermometer over I2C, and a DHT22 for air temperature and humidity. It
classifies the road surface and sends each reading as a six-value CSV
payload through an RYLR998 LoRa module. The receiver node reads the
module's `+RCV` lines from its UART, recovers the payload, turns it into a
sensor record with device identifier 16 and posts it to the backend.

The model covers the pure logic inside these two scripts. Every piece is
modelled as functions and lemmas, because none of it updates state:

- `Bits`: Python's `|` and `&` on unbounded integers, defined bit by bit,
  and `<<` and `>>` as multiplication and floor division by a power of two.
- `I2CWord`: the little-endian byte packing of `I2CWrapper.read_word` and
  `write_word`, and the raw register assembly in `read_temp`. Both round
  trips are proved.
- `SurfaceClassifier`: the `ICE DETECTED` / `POSSIBLE BLACK ICE` / `NORMAL`
  rule. Its thresholds are whiteness 1.2 and NIR/green ratio 0.8. The
  result of each label is characterised exactly.
- `AtCommand`: `send_command`'s encoding and CR LF framing (the same on
  both nodes), and `initialize_lora`'s command list. MicroPython's
  `str.encode` ignores its encoding argument and returns UTF-8, so
  `encode('ascii')` never raises; the model encodes UTF-8.
- `LoraSender`: the CSV payload and the `AT+SEND=2,<len>,<data>` command.
  A decoder for that command is proved to recover the destination, the
  length and the data. The length field counts characters, so it matches
  the number of payload bytes on the UART exactly when the data is ASCII.
- `Text`: the MicroPython string operations both scripts rely on: `split`,
  `join`, `strip`, `startswith`, slicing and decimal numbers.
- `LoraReceiver`: the `+RCV` line parser of `receive_messages`. Number
  conversion is a parameter `parseNum: string -> Option<V>`.
- `LoraLink`: sender and receiver joined through a model of the radio
  relay.

The integer bit operators are modelled on unbounded integers, so
`write_word` is exact for any Python integer, negative ones included.
`strip()` removes MicroPython's whitespace set: space, tab, LF, CR, VT
and FF.

The system's documentation describes a backend classifier: surface
temperature below 7 and a risk score above 4, then Ice or Snow by a
further bound of 20, else Asphalt. That classifier and the backend's
"latest reading per device" aggregation are not part of this model. The
firmware's own rule, modelled here, is a different one: 1.2 and 0.8 over
whiteness and the NIR/green ratio, with three labels. The model follows
the firmware code.

One behaviour of the code is worth knowing. When the surface temperature
read fails, `read_temp` returns `None`, and the classifier then gives
`NORMAL`, as `Classify` states. But the loop goes on to format that `None`,
with `:.2f` at `IoT_code/Main_Sensor.py:294` and with `:.1f` at line 305.
`Ambient_Temp`, also read by `read_temp`, is formatted at line 295. Formatting
`None` this way raises an uncaught exception, which ends the monitoring
loop, so such a classification is never printed or sent. The model keeps
the classifier as written and does not model the crash.

## Model

| member | source | states |
|---|---|---|
| `Bits.OrDisjoint` | SmartRoadMonitor/IoT_code/Main_Sensor.py:73 | for `a < 2**k`, `a OR (b << k)` equals `a + b * 2**k`: the two bytes do not overlap |
| `Bits.OrSymmetric` | SmartRoadMonitor/IoT_code/Main_Sensor.py:110 | bitwise OR is symmetric, so `data[1] << 8 OR data[0]` (line 110) is the same value as `data[0] OR (data[1] << 8)` (line 73) |
| `Bits.AndLowMask` | SmartRoadMonitor/IoT_code/Main_Sensor.py:77 | `a & (2**k - 1)` is `a` modulo `2**k` for every integer `a`, negative ones included |
| `I2CWord.ReadWord` | SmartRoadMonitor/IoT_code/Main_Sensor.py:70-73 | `data[0] OR (data[1] << 8)` is `data[0] + 256 * data[1]`, low byte first, and lies in 0..65535 |
| `I2CWord.WriteWord` | SmartRoadMonitor/IoT_code/Main_Sensor.py:75-78 | exactly two bytes: `val & 0xFF` is `val mod 256`, then `(val >> 8) & 0xFF` is `floor(val / 256) mod 256`; reading them back gives `val mod 65536` for any integer |
| `I2CWord.ReadAfterWrite` | SmartRoadMonitor/IoT_code/Main_Sensor.py:70-78 | for `0 <= val < 65536`, reading back the bytes `write_word` produces gives `val` |
| `I2CWord.WriteAfterRead` | SmartRoadMonitor/IoT_code/Main_Sensor.py:70-78 | for any two bytes, writing the word `read_word` combines gives the same two bytes back |
| `I2CWord.RawTemp` | SmartRoadMonitor/IoT_code/Main_Sensor.py:108-110 | the MLX90614 raw value `data[1] << 8 OR data[0]` is the `read_word` combination of the first two bytes; the third byte (the packet error code) has no effect |
| `SurfaceClassifier.Classify` | SmartRoadMonitor/IoT_code/Main_Sensor.py:276-288 | `ICE DETECTED` exactly when the surface temperature is present and `<= 0`, whiteness `> 1.2` and ratio `< 0.8`; `POSSIBLE BLACK ICE` exactly when the temperature is present and `<= 0`, ratio `< 0.8` and whiteness `<= 1.2`; `NORMAL` exactly when the temperature is missing, or `> 0`, or the ratio is `>= 0.8` |
| `SurfaceClassifier.Label` | SmartRoadMonitor/IoT_code/Main_Sensor.py:280-288 | every condition is reported as one of the three label strings |
| `SurfaceClassifier.PrintedLabel` | SmartRoadMonitor/IoT_code/Main_Sensor.py:276-288 | the printed text is `ICE DETECTED` exactly when the temperature is present and `<= 0`, whiteness `> 1.2` and ratio `< 0.8`; `POSSIBLE BLACK ICE` exactly when the temperature is present and `<= 0`, whiteness `<= 1.2` and ratio `< 0.8`; `NORMAL` exactly in every other case |
| `SurfaceClassifier.LabelInjective` | SmartRoadMonitor/IoT_code/Main_Sensor.py:280-288 | different conditions get different labels, so exactly one label belongs to each input |
| `SurfaceClassifier.WarningIgnoresWhiteness` | SmartRoadMonitor/IoT_code/Main_Sensor.py:276-285 | whether either ice label is raised depends only on the temperature and the ratio, never on whiteness |
| `SurfaceClassifier.WhitenessMonotone` | SmartRoadMonitor/IoT_code/Main_Sensor.py:276-285 | raising whiteness keeps `ICE DETECTED`; lowering it keeps `POSSIBLE BLACK ICE` |
| `AtCommand.Utf8Char` | SmartRoadMonitor/IoT_code/Main_Sensor.py:167-168 | one to four UTF-8 bytes per character, a single byte (the character's code) exactly for ASCII characters |
| `AtCommand.Utf8Encode` | SmartRoadMonitor/IoT_code/Main_Sensor.py:167-168 | `command.encode(...)`, UTF-8 whatever encoding is named: at least as many bytes as characters, exactly as many when the text is ASCII, and then each byte is its character's code |
| `AtCommand.Utf8Concat` | SmartRoadMonitor/IoT_code/Main_Sensor.py:167-170 | the encoding of a concatenation is the concatenation of the encodings |
| `AtCommand.AsciiConcat` | SmartRoadMonitor/IoT_code/Main_Sensor.py:302-309 | a concatenation of ASCII texts is ASCII |
| `AtCommand.AsciiDecode` | SmartRoadMonitor/IoT_code/Main_Sensor.py:167-168 | ASCII bytes read as characters keep the length and each code |
| `AtCommand.CommandBytes` | SmartRoadMonitor/IoT_code/Main_Sensor.py:163-170 | what is written is the command's encoding followed by CR LF, two bytes more than the characters for an ASCII command; `receiver.py:41-51` frames commands the same way |
| `AtCommand.ReadLine` | SmartRoadMonitor/IoT_code/Main_Sensor.py:163-170 | a line read from CR LF-terminated ASCII bytes is two characters shorter than the bytes |
| `AtCommand.ReadCommandBytes` | SmartRoadMonitor/IoT_code/Main_Sensor.py:163-170 | reading one CR LF-terminated ASCII line from the framed bytes gives an ASCII command back unchanged |
| `AtCommand.InitCommands` | SmartRoadMonitor/IoT_code/Main_Sensor.py:179-188 | `initialize_lora` sends four commands: `AT`, an `AT+ADDRESS=` command that carries the node's address in decimal, `AT+NETWORKID=5` and `AT+BAND=915000000` (`receiver.py:59-71` sends the same list with address 2) |
| `LoraSender.CsvPayload` | SmartRoadMonitor/IoT_code/Main_Sensor.py:302-309 | the payload is the six renderings joined by commas, in the order air temperature, humidity, surface temperature, visible mean, NIR/green ratio, whiteness |
| `LoraSender.CsvFields` | SmartRoadMonitor/IoT_code/Main_Sensor.py:302-309 | for comma-free renderings, splitting the payload on commas gives exactly the six renderings in that order |
| `LoraSender.SendHeader` | SmartRoadMonitor/IoT_code/Main_Sensor.py:195-196 | the text before the payload, `AT+SEND=2,<length>,`, starts with `AT+SEND=`, ends with a comma and is ASCII |
| `LoraSender.SendCommand` | SmartRoadMonitor/IoT_code/Main_Sensor.py:195-196 | the command starts with `AT+SEND=` and ends with the data unchanged; `SendCommandRoundTrip` states what it carries |
| `LoraSender.SendFrame` | SmartRoadMonitor/IoT_code/Main_Sensor.py:195-197 | passed to `send_command` (lines 167-170), the command goes onto the UART as the header's bytes, one per character, then the data's UTF-8 bytes, then CR LF |
| `LoraSender.SendCommandRoundTrip` | SmartRoadMonitor/IoT_code/Main_Sensor.py:190-197 | the command `AT+SEND=2,<len(data)>,<data>` reads back as destination 2, a length field equal to the payload's length, and the payload itself, whatever commas it holds |
| `LoraSender.SendFrameLength` | SmartRoadMonitor/IoT_code/Main_Sensor.py:190-197 | `len(data)` counts characters, so the length field equals the number of payload bytes on the UART exactly when the data is ASCII; for ASCII data the module reads back the whole `AT+SEND` command |
| `Text.Split` | SmartRoadMonitor/IoT_code/receiver.py:185 | `split(",")` returns at least one field (`[""]` for the empty string) |
| `Text.SplitFieldsSepFree` | SmartRoadMonitor/IoT_code/receiver.py:185 | no field of a split holds the separator |
| `Text.SplitOfSepFree` | SmartRoadMonitor/IoT_code/receiver.py:185 | a text without the separator splits to a single field, itself |
| `Text.JoinEnds` | SmartRoadMonitor/IoT_code/receiver.py:189 | `",".join(xs)` of a non-empty list begins with its first field and ends with its last |
| `Text.SplitJoin` | SmartRoadMonitor/IoT_code/receiver.py:189-192 | re-splitting comma-free fields joined by commas gives exactly those fields back |
| `Text.JoinSplit` | SmartRoadMonitor/IoT_code/receiver.py:189-192 | joining the fields of a split gives the text back |
| `Text.TrimLeft` | SmartRoadMonitor/IoT_code/receiver.py:181 | the leading part of `strip()` leaves a suffix of the text |
| `Text.TrimRight` | SmartRoadMonitor/IoT_code/receiver.py:181 | the trailing part of `strip()` leaves a prefix of the text |
| `Text.TrimLeftSpec` | SmartRoadMonitor/IoT_code/receiver.py:181 | everything the leading trim removes is whitespace, and what it leaves does not start with whitespace |
| `Text.TrimRightSpec` | SmartRoadMonitor/IoT_code/receiver.py:181 | everything the trailing trim removes is whitespace, and what it leaves does not end with whitespace |
| `Text.Strip` | SmartRoadMonitor/IoT_code/receiver.py:181 | `strip()` never lengthens the text; it is the leading trim followed by the trailing trim, whose removed parts `TrimLeftSpec` and `TrimRightSpec` state |
| `Text.StripEdges` | SmartRoadMonitor/IoT_code/receiver.py:181 | what `strip()` leaves neither starts nor ends with whitespace |
| `Text.StripIdempotent` | SmartRoadMonitor/IoT_code/receiver.py:181 | stripping twice is stripping once |
| `Text.StartsWith` | SmartRoadMonitor/IoT_code/receiver.py:184 | `s.startswith(p)` holds exactly when `s` is `p` followed by the rest of `s` |
| `Text.TrimRightAfter` | SmartRoadMonitor/IoT_code/receiver.py:181 | trailing whitespace removal stops at the last non-space character and never changes the text before it |
| `Text.ParseDecimal` | SmartRoadMonitor/IoT_code/Main_Sensor.py:195-196 | the decimal rendering of the length in an f-string reads back as the same number |
| `LoraReceiver.Parts` | SmartRoadMonitor/IoT_code/receiver.py:185 | `msg_str.split(",")` has at least one field, and joining the fields by commas gives the stripped line back |
| `LoraReceiver.MiddleFields` | SmartRoadMonitor/IoT_code/receiver.py:189 | `parts[2:-2]` holds `len(parts) - 4` fields (none when there are fewer than five), the fields from index 2 on, in order |
| `LoraReceiver.Payload` | SmartRoadMonitor/IoT_code/receiver.py:181-189 | a payload is recovered exactly when the stripped line starts with `+RCV=` |
| `LoraReceiver.Convert` | SmartRoadMonitor/IoT_code/receiver.py:197-221 | the record is built exactly when all six values convert, otherwise it is a conversion error; the record has `DeviceID` 16 and the converted values in the order AirTemp, Humidity, SurfaceTemp, VIS_Mean, NIR_Green_Ratio, WhitenessIndex |
| `LoraReceiver.FromPayload` | SmartRoadMonitor/IoT_code/receiver.py:192-225 | a recovered payload is never ignored; it is reported malformed exactly when it does not split into six values, and a record built from it carries `DeviceID` 16 |
| `LoraReceiver.Receive` | SmartRoadMonitor/IoT_code/receiver.py:181-225 | a line is ignored, with nothing forwarded, exactly when its stripped form does not start with `+RCV=`; every forwarded record carries `DeviceID` 16 |
| `LoraReceiver.Forwarded` | SmartRoadMonitor/IoT_code/receiver.py:181-221 | a record is passed to `send_data_to_api` exactly when the line is forwarded, and it is then the converted record, with `DeviceID` 16, of a line whose stripped form starts with `+RCV=` |
| `LoraReceiver.ValuesOfLine` | SmartRoadMonitor/IoT_code/receiver.py:185-192 | split/join round trip: re-splitting the rejoined payload gives `parts[2:-2]` back exactly, or `[""]` when that slice is empty |
| `LoraReceiver.ReceiveOfRcvLine` | SmartRoadMonitor/IoT_code/receiver.py:185-196 | a `+RCV` line with ten fields leads to the conversion of `parts[2:-2]`; any other field count is reported malformed |
| `LoraReceiver.ConvertOfFields` | SmartRoadMonitor/IoT_code/receiver.py:196-221 | for ten fields, the record is built exactly when each of fields 2..7 converts, and holds them converted in order with `DeviceID` 16 |
| `LoraReceiver.AcceptedIffTenFields` | SmartRoadMonitor/IoT_code/receiver.py:185-196 | a `+RCV` line is reported malformed, with nothing forwarded, exactly when it does not have ten comma-separated fields |
| `LoraReceiver.ForwardedRecord` | SmartRoadMonitor/IoT_code/receiver.py:196-221 | a record is forwarded exactly when the line is a ten-field `+RCV` line whose fields 2..7 all convert; so a conversion failure forwards nothing. The record is `DeviceID` 16 with fields 2..7 converted in order |
| `LoraReceiver.StripRcvLine` | SmartRoadMonitor/IoT_code/receiver.py:181 | stripping a `+RCV=` line can only shorten its last (SNR) field, which stays comma-free |
| `LoraReceiver.SplitRcvLine` | SmartRoadMonitor/IoT_code/receiver.py:185 | a `+RCV=` line with comma-free header and trailer fields splits into the two header fields, the payload's own fields, and the RSSI and SNR fields |
| `LoraReceiver.HeaderIgnored` | SmartRoadMonitor/IoT_code/receiver.py:185-189 | with comma-free address, length, RSSI and SNR fields, the recovered payload is the embedded payload, commas included, and the outcome depends on it alone |
| `LoraReceiver.HeaderIndependent` | SmartRoadMonitor/IoT_code/receiver.py:185-221 | two lines that differ only in address, length, RSSI or SNR lead to the same outcome |
| `LoraLink.Relay` | SmartRoadMonitor/IoT_code/receiver.py:133-134 | the radio reports a line only for an `AT+SEND` addressed to the receiving module, in the `+RCV=<addr>,<len>,<payload>,<RSSI>,<SNR>` shape |
| `LoraLink.NodesConfigured` | SmartRoadMonitor/IoT_code/receiver.py:59-71 | both nodes use the same network identifier and band, and the sensor node sends to the receiver's address 2, not its own address 1; this holds by construction, since both command lists are the same constants |
| `LoraLink.EndToEnd` | SmartRoadMonitor/IoT_code/receiver.py:136-137 | sender/receiver agreement: a reading sent by `Main_Sensor.py:302-312` with comma-free renderings reaches the receiver as exactly the sent payload. It then leads to a record with the sent values in the documented order, or to a conversion error, whatever the RSSI and SNR |
| `LoraLink.EndToEndFrame` | SmartRoadMonitor/IoT_code/Main_Sensor.py:302-312 | the same agreement from the UART bytes: for comma-free ASCII renderings (decimal renderings are), the frame `send_command` writes reads back as the `AT+SEND` command, and relaying it gives the receiver exactly the sent payload and the same record |

## Left out

- Hardware I/O is left out: the I2C reads and writes (`read_byte`, `write_byte`, `isDeviceConnected`, `readfrom_mem`), UART `write`/`read`/`any`, the PWM servo (`set_angle`), the DHT22 and the `qwiic_as7343` library. These are calls into drivers whose behaviour is not visible. The model starts from the bytes or strings such calls return. `readfrom_mem` is taken to return exactly the number of bytes asked for.
- Network: `connect_to_wifi` (its retry countdown and `RuntimeError`), `send_data_to_api` (`urequests.post`, `json.dumps`). These are I/O and library code; the model stops at the record passed to the API (`LoraReceiver.Forwarded`).
- Floating point: the Celsius conversion `raw * 0.02 - 273.15`, the spectral features of `compute_features`, the servo duty arithmetic, `float()` and the `.1f`/`.2f` renderings. Classification inputs are exact reals, not IEEE floats. Number conversion is the parameter `parseNum`. The six renderings are opaque strings, taken to be comma-free, which every decimal rendering is.
- The `while True` loops, `sleep` calls, the `send_command` drain loop and the top-level `KeyboardInterrupt`/`RuntimeError` handlers are timing and control shells with no logic of their own.
- UART stream behaviour: a UART read may return part of a line or several lines. The model takes one read to be one line. UTF-8 decoding (and its `UnicodeError`) is not modelled: the input is already a string.
- The crash described above is not modelled: formatting a `None` reading raises an uncaught exception. Classification is modelled on its own.
- `AtCommand.ReadLine` models the module reading an ASCII command line. What the RYLR998 module makes of a frame holding non-ASCII bytes is not modelled, because no caller sends non-ASCII text.
- The `isinstance(command, str)` test in `send_command` has a branch for commands passed as bytes. It is not modelled, because every caller passes a string.
- The commented-out mock-data mode of the receiver, which uses `random`, is not modelled.
- The `except Exception` ("General error") branch of the receive loop is not modelled, because none of the modelled steps can raise anything other than the conversion error.
- `LoraSender.ParseSendCommand` and `LoraLink.Relay` describe the RYLR998 module, not code of the repository. They serve as the reference the sender's command and the receiver's parser are checked against.
- The backend classifier and the "latest reading per device" aggregation are not part of this model: their source files are not among the modelled ones.
