# Air-quality station firmware: connectivity and sensor bus, modelled in Dafny

The firmware runs on an ESP32 board. It brings up a cellular modem with AT commands and
dials a PPP link. It then signs a JSON Web Token, connects to an MQTT broker with a bounded
number of retries, and publishes one message every ten seconds; the first failure resets the
board. The CO2 readings come from an SCD30 sensor on a two-wire bus. Every 2-byte word there
is protected by a Sensirion CRC-8.

The model covers these parts. Each module follows one part of the program:

- `Common` (common.dfy): `Option`, bytes, Python's substring test, and `str(n)` for
  non-negative integers.
- `Crc8` (crc8.dfy): `crc_calc`. The method runs the driver's nested loops over a register
  that is never masked until the end. It is proved equal to the 8-bit CRC (polynomial 0x31,
  initial value 0xFF), to the datasheet check value, and to detect every single-byte change.
- `Scd30` (scd30.dfy): the driver.
  - The read operations are methods that take the bytes the bus returned and also return
    the opcode they write before reading.
  - The two module-level command lists that `start_measurement` and
    `set_measurement_interval` extend in place are the fields of the class
    `CommandLists`.
- `ModemBringup` (modem.dfy): `demo()`.
  - The class `Modem` holds the registers `pp` and `pp_2`. `Turn` is one pass of the loop,
    including the polling of the PPP link, and `Demo` is the loop itself.
  - Both are proved against the function `Next`, and the lemmas about `Next` give the
    state machine's properties.
- `Base64` (base64.dfy): `b2a_base64` (section 4 of RFC 4648, with padding and a trailing
  newline) and `b42_urlsafe_encode` (the alphabet of section 5 of RFC 4648). Round-trip
  lemmas show they are injective.
- `Cloud` (cloud.dfy): the claims and segments of `create_jwt`, the connect-retry loop and the
  publish loop.

Behaviour of the code worth noting:

- `read_data_ready_flag` reports "ready" only when the second byte equals 1, not when it is
  nonzero.
- The first exception in a publish round resets the board.
- `main.py` does not feed a watchdog.
- `create_jwt` reads the clock twice, so `exp - iat` is `token_ttl` plus the ticks between
  the two readings.
- The token's segments keep the `=` padding.

## Model

| member | source | states |
|---|---|---|
| Common.ContainsMeaning | main.py:156 | the scan that models `t in s` holds exactly when `t` occurs in `s` at some position |
| Common.DecimalString | scd30.py:65 | `str(n)` is a non-empty string of decimal digits that starts with `0` only for 0 (no leading zeros) |
| Common.DecimalRoundTrip | scd30.py:65 | the digits of `str(n)`, read back, give `n` |
| Crc8.Checksum | scd30.py:44-56 | the CRC of a word is a byte, in 0..255 |
| Crc8.CrcCalc | scd30.py:44-56 | the nested loops, over a register that is only masked at the end, compute the CRC of `data[0]` and `data[1]` and read no other element |
| Crc8.ChecksumIsByteChecksum | scd30.py:48-56 | masking only once at the end gives the same result as the textbook CRC-8 (polynomial 0x31, initial value 0xFF, MSB first) whose register is masked to 8 bits after every shift |
| Crc8.DatasheetCheckValue | scd30.py:44-56 | the CRC of 0xBE, 0xEF is 0x92, the check value of the sensor's datasheet |
| Crc8.ZeroWordCheckValue | scd30.py:44-56 | the CRC of the zero word is 0x81 |
| Crc8.ByteChecksumInjective | scd30.py:44-56 | two words with the same CRC agree in both bytes or differ in both |
| Crc8.ChecksumDetectsByteChange | scd30.py:44-56 | changing exactly one byte of a word changes its CRC |
| Scd30.FramesValidIff | scd30.py:143-145 | the frame-by-frame check accepts exactly when every 3-byte frame carries the CRC of its two data bytes |
| Scd30.DataBytesAt | scd30.py:147 | the collected data bytes are the first two bytes of every frame, in order, and nothing else |
| Scd30.CorruptedFrameInvalid | scd30.py:144 | one changed byte anywhere in a valid frame, CRC byte included, makes the frame fail its check |
| Scd30.BigEndianWordBytes | scd30.py:149-151 | a word assembled from four bytes, most significant first, fits in 32 bits and gives back its four bytes |
| Scd30.CheckedDataBytes | scd30.py:141-147 | the frame loop stops at the first bad frame and yields nothing; when all frames are valid it yields exactly their data bytes, in order |
| Scd30.Words | scd30.py:149-151 | the word loop yields three words, word k being bytes 4k to 4k+3 of the data bytes, most significant first |
| Scd30.ReadMeasurement | scd30.py:125-159 | writes the read-measurement opcode; the two loops return exactly `MeasurementOf` the reply: None for a missing reply or one not 18 bytes long, "CRC mismatched" when a frame is bad, and otherwise the three words |
| Scd30.MeasurementRejectsBadFrame | scd30.py:143-145 | one bad frame, wherever it is, rejects the whole reply and no partial result is returned |
| Scd30.MeasurementWords | scd30.py:147-157 | a reply whose six frames are valid yields the words of bytes 0,1,3,4 (CO2), 6,7,9,10 (temperature) and 12,13,15,16 (humidity) |
| Scd30.MeasurementDetectsCorruption | scd30.py:141-145 | changing any one byte of an accepted reply makes it rejected |
| Scd30.FirmwareVersion | scd30.py:58-65 | writes the firmware-version opcode; "CRC mismatched" on a bad frame, IndexError on a short reply, and otherwise the two data bytes in decimal joined by a dot |
| Scd30.VersionTextReadsBack | scd30.py:65 | the version text holds exactly one dot, with the decimal digits of the major number before it and of the minor number after it |
| Scd30.ReadDataReadyFlag | scd30.py:67-87 | writes the data-ready opcode; the flag is true exactly when the frame is valid and its second byte equals 1; a bad CRC reads as "not ready" |
| Scd30.DataReadyDetectsCorruption | scd30.py:71-87 | a single changed byte in a valid reply makes it fail the CRC, so a corrupted reply never reads as "ready" |
| Scd30.GetMeasurementInterval | scd30.py:96-107 | writes the read-interval opcode, then validates the one frame of the reply and returns the reply itself, or "CRC mismatched" |
| Scd30.StartListAfter | scd30.py:89-93 | after n calls the start-measurement list holds the opcode followed by n copies of `0x00, 0x00` and their CRC; all are bytes |
| Scd30.IntervalListAfter | scd30.py:119-121 | after the accepted intervals the set-interval list holds the opcode followed by one 3-element group per call, and its elements 2 and 3 are 0 and the first interval |
| Scd30.CommandLists.constructor | scd30.py:15-17 | the lists start as the two opcodes |
| Scd30.CommandLists.StartMeasurement | scd30.py:89-94 | extends the module list in place by `0x00, 0x00, crc` and writes the whole list through the same byte conversion as every write; the other list is unchanged |
| Scd30.CommandLists.SetMeasurementInterval | scd30.py:109-123 | an interval outside 2..1800 raises before anything changes; otherwise the list is extended in place by `0x00, interval` and the CRC of elements 2 and 3, and the whole list is written with each element cut to its low byte |
| Scd30.StartMeasurementFrame | scd30.py:89-93 | the intended frame: the opcode, the argument 0x0000 and its valid CRC, five bytes |
| Scd30.StartFrameGrows | scd30.py:89-93 | the first call writes the intended frame; call n+1 writes 3n more bytes, so every later frame is wrong |
| Scd30.IntervalFrame | scd30.py:119-122 | the intended frame: the interval as a big-endian 16-bit argument with a valid CRC |
| Scd30.IntervalSeconds | scd30.py:96-107 | IndexError exactly on a short reply and "CRC mismatched" exactly on a bad frame; otherwise the interval in seconds |
| Scd30.IntervalRoundTrip | scd30.py:96-122 | reading back the argument of the intended frame yields the interval that was set |
| Scd30.WideIntervalTruncated | scd30.py:116-122 | every interval from 256 to 1800 s passes the range check, but the write keeps only the low byte of the list element that holds it; the CRC matches that byte, so the sensor gets a valid frame for `interval % 256` seconds, not `interval` |
| Scd30.SecondIntervalCrcIsStale | scd30.py:119-121 | after a second interval is set, the CRC appended for it is the CRC of the first interval, which differs from the CRC of the second when the two intervals differ in their low byte |
| ModemBringup.Exchange | main.py:136-180 | one exchange keeps the registers within their bounds: state at most 7 and cursor inside the current batch |
| ModemBringup.PollsFrom | main.py:185-192 | the polls made after poll i number more than i and at most 30 |
| ModemBringup.PollsMeaning | main.py:185-192 | state 5 polls until the first true answer, at most 30 times, and sees the link up exactly when one of the first 30 polls answers true |
| ModemBringup.Next | main.py:135-197 | one pass of the loop preserves the invariant: state 0..7 and `0 <= pp_2 < len(cmds)` between passes (0 outside the batches) |
| ModemBringup.Drive | main.py:135-197 | any number of passes preserves the invariant |
| ModemBringup.Modem.constructor | main.py:133-134 | both registers start at 0 |
| ModemBringup.Modem.Turn | main.py:136-197 | one pass moves the registers as `Next` says, sends the command of the current state, polls only in state 5, and returns only in state 7 |
| ModemBringup.Modem.Demo | main.py:135-197 | the loop leaves the registers as `Drive` says after the passes made and returns after the first pass that starts in state 7: no earlier pass started there, and when it does not return no pass started there |
| ModemBringup.NoAnswerChangesNothing | main.py:139-177 | a None answer changes neither `pp` nor `pp_2` |
| ModemBringup.QueryStates | main.py:136-165 | state 0 moves on exactly when the answer contains "AT", state 2 exactly on "+CREG: 0,5" or "+CREG: 0,1", and state 3 exactly on "+CGREG: 0,5" or "+CGREG: 0,1"; moving on resets `pp_2`, and otherwise nothing changes |
| ModemBringup.BatchStates | main.py:143-180 | in states 1 and 4 any answer, whatever it says, advances the cursor; after the last command of the batch the state moves on and the cursor returns to 0 |
| ModemBringup.StateMonotone | main.py:133-197 | `pp` never decreases and grows by at most one per pass |
| ModemBringup.FinalIsTerminal | main.py:195-197 | state 7 is never left |
| ModemBringup.DialledState | main.py:181-192 | state 5 moves on exactly when one of its 30 polls sees the link up, and is otherwise retried |
| ModemBringup.AcceptedPasses | main.py:133-180 | when every answer is accepted, passes 1 to 11 stay below state 5 and pass 12 ends in state 5 with the cursor at 0 |
| ModemBringup.HappyBringUp | main.py:133-197 | with accepted answers and the link up on the 13th pass, the machine reaches state 5 after 12 passes (1+5+1+1+4 exchanges) and state 7 after 14, and not before |
| Base64.CharOf | main.py:78 | each 6-bit value maps to a character of the standard alphabet that maps back to it |
| Base64.Encode | main.py:78 | the encoding has 4 characters per started group of 3 bytes, all from the alphabet or `=` |
| Base64.RoundTrip | main.py:78 | decoding the encoding gives back the bytes |
| Base64.KnownAnswers | main.py:78 | the encoding of "", "f", "fo" and "foo" is the one section 10 of RFC 4648 lists, which fixes the bit layout |
| Base64.LongKnownAnswers | main.py:78 | the encoding of "foob", "fooba" and "foobar" is the one section 10 of RFC 4648 lists |
| Base64.EncodePadding | main.py:78 | the encoding ends in two `=` after one leftover byte, one after two, and none otherwise; all other characters come from the alphabet |
| Base64.B2aBase64 | main.py:78 | `b2a_base64` output ends in a newline |
| Base64.Translate | main.py:78 | the translation keeps the length and maps `+` to `-` and `/` to `_`, character by character |
| Base64.UrlSafeEncode | main.py:77-78 | the result has 4 characters per started group of 3 bytes, all from the URL-safe alphabet or `=` |
| Base64.UrlSafeCharacters | main.py:77-78 | the result contains no `+`, `/`, newline or `.` |
| Base64.UrlSafeRoundTrip | main.py:77-78 | swapping the alphabet back and decoding gives back the payload |
| Base64.PaddingKept | main.py:77-78 | a one-byte payload encodes as "AA==": the padding is kept |
| Base64.UrlSafeEncodeUnpadded | main.py:77-78 | base64url as section 2 of RFC 7515 defines it: the same text without its padding, so no `=` |
| Base64.UnpaddedRoundTrip | main.py:77-78 | the unpadded text, padded again and decoded, gives back the payload |
| Cloud.CreateJwt | main.py:80-100 | the token holds only URL-safe characters, `=` and `.`, and its length is 2 past a multiple of 4: three whole segments and two dots |
| Cloud.ClaimsAt | main.py:85-93 | the audience is the project id, and `exp - iat` is the token lifetime plus the ticks between the two clock readings, so it equals the lifetime when both readings agree |
| Cloud.Segment | main.py:77-78 | a URL-safe segment holds no dot and decodes back to its payload |
| Cloud.ThreeSegments | main.py:97-100 | three dot-free texts joined by dots have dots only at the two joins, and cutting there gives the three texts back |
| Cloud.JoinedSegments | main.py:97-100 | three URL-safe segments joined by dots have dots only at the two joins, and the pieces between them decode to the three payloads |
| Cloud.JwtStructure | main.py:80-100 | the token's only dots are the two after the header and claims segments; its three segments decode to the serialised header, the serialised claims, and the signature of the text before the second dot, which is the first two segments and the dot between them |
| Cloud.ConnectWithRetries | main.py:206-223 | `get_mqtt_client` is called 1 to 20 times, stopping at the first success; each failure lowers the counter by one, and the board is reset exactly when all 20 calls fail, with the counter at 0 |
| Cloud.PublishLoop | main.py:259-272 | rounds run while they complete without an exception, and the first failed round resets the board |

## Left out

- The hardware and the network are left out: pin writes, the UART reads and writes, the I2C
  transfers (`i2c.read` is the reply parameter, `i2c.write` the frame or opcode a method
  returns; the `bytearray` conversion inside `i2c.write` is the function `Scd30.AsBytes`,
  which keeps the low 8 bits of each element without a range check, as MicroPython's
  `bytearray` does),
  `ppp.active`/`connect`, the sleeps, `gc`, and `machine.reset` (a result flag). NTP and
  the RTC (`timet`, `settime`) are left out too.
- The MQTT client (`get_mqtt_client`, `MQTTClient`, TLS, subscriptions, `publish`) is
  reduced to a success oracle. So is `compose_message`, which reads drivers that are not
  part of this model.
- `ujson.dumps` and `rsa.sign`/`rsa.PrivateKey` are left out; they are function parameters
  of `Cloud.CreateJwt`. The key is the tuple `*private_key` as a sequence of integers.
- `interpret_as_float` is left out: a measurement holds the three 32-bit words, not the
  IEEE-754 floats they encode.
- The logger and the printed warning strings are left out, as is the `logging` branch of
  the constructor.
- Modem answers are modelled as text. The source tests a `str` against the `bytes` that
  `uart.read()` returns; the model takes that test as a substring test.
- ModemBringup.Modem.Demo: runs the endless loop of `demo()` over a finite script of answers: it stops
  when the answers run out. Every pass takes one entry of the script, also in states 5 to 7
  where `demo()` reads no answer, so a script holds filler entries there.
- Crc8.CrcCalc: the register is 32 bits wide and the inputs below 2^16, where the source
  uses Python's unbounded integers. Every byte and every interval the driver accepts is
  below 2^16, and only the low byte of each input reaches the result.
- Scd30.CommandLists.SetMeasurementInterval: the default argument `interval=2` is not
  modelled: the model's callers pass the interval explicitly. `main.py` does not call
  `set_measurement_interval`.
- Cloud.ConnectWithRetries: `machine.reset()` is modelled as ending the loop; what the
  board does after the reset is not modelled.
- Cloud.PublishLoop: `machine.reset()` ends the loop here too, and the loop runs over the
  finite list of rounds given instead of forever.

## Findings

| source | as written | input that shows it | evidently intended | confidence | as-written member | corrected member |
|---|---|---|---|---|---|---|
| scd30.py:89-93 | `data = CMD_START_MEASUREMENT` binds the module list, and `extend`/`append` grow it on every call | a second `start_measurement()` writes 8 bytes: `00 10 00 00 81 00 00 81` | write the fixed 5-byte frame `00 10 00 00 81` on every call | high (not executed) | Scd30.StartFrameGrows | Scd30.StartMeasurementFrame |
| scd30.py:116-122 | the interval is appended as one list element after `0x00` | `set_measurement_interval(300)` passes the range check and writes `46 00 00 2C crc(00 2C)`, which sets the interval to 44 s | send the interval as a big-endian 16-bit argument (`0x01, 0x2C`) | high (not executed) | Scd30.WideIntervalTruncated | Scd30.IntervalFrame |
| scd30.py:119-121 | the CRC is taken over list elements 2 and 3, which the aliased list keeps at `0x00` and the first interval | setting 10 s and then 20 s appends `00 14 crc(00 0A)` | the CRC of the interval being sent | high (not executed) | Scd30.SecondIntervalCrcIsStale | Scd30.IntervalFrame |
| scd30.py:96-107 | returns the whole reply list, where the docstring promises the interval in seconds | the reply `00 02 crc` yields the list `[0, 2, crc]`, not 2 | return `data[0] * 256 + data[1]` | high (not executed) | Scd30.GetMeasurementInterval | Scd30.IntervalSeconds |
| main.py:77-78 | the URL-safe text keeps the `=` padding of `b2a_base64` | a one-byte payload `00` encodes as `AA==` | base64url without padding, as section 2 of RFC 7515 requires for a JWT | high (not executed) | Base64.PaddingKept | Base64.UrlSafeEncodeUnpadded |
