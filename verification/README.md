# AHT10 reader, LED indicator and I2C scanner, modelled in Dafny

The firmware runs on an STM32F411 board under Zephyr. It has three parts:

- **The AHT10 driver.** Initialisation issues a soft reset `0xBA`, then the configure command `0xE1 0x08 0x00`, then reads the status byte and checks its calibrated bit `0x08`. A measurement issues the trigger command `0xAC 0x33 0x00`, waits 80 ms, and busy-polls the status byte. Each busy status (bit `0x80` set) costs one 10 ms pause. The driver then reads a six-byte frame and unpacks two 20-bit fields: humidity from bytes 1-3 and temperature from bytes 3-5.
- **The LED firmware.** It classifies each reading onto three LEDs: red above 25 °C, blue below 20 °C, green above 60 % humidity. It sends every reading over the UART twice: as a JSON line and as a human-readable line.
- **The plain reader and the scanner.** The plain reader prints each reading scaled to hundredths, using C's `/` and `%`. The scanner visits every 7-bit I2C address. It probes the non-reserved ones, 0x08 to 0x77, with a zero-length write. It prints an 8 × 16 grid of the results and a count of the devices that answered.

## How the model is built

| module | file | what it holds |
|---|---|---|
| `Bus` | `bus.dfy` | the bus as a script of replies, one per transfer; a driver run as its returned value plus a trace of writes, reads and sleeps |
| `Frame` | `frame.dfy` | the 20-bit unpacking of the frame, its inverse, and the bit routing |
| `Units` | `units.dfy` | raw fields to percent and degrees Celsius, over exact reals |
| `Aht10` | `aht10.dfy` | initialisation, measurement and the busy-poll as pure functions of the script |
| `Leds` | `leds.dfy` | the pin writes and messages of one classification, and the set of LEDs they leave lit |
| `Options` | `option.dfy` | the result of a text reader: a value, or nothing when the text has the wrong form |
| `Decimal` | `decimal.dfy` | `%d`, `%lld` and `%02x` as text, each with a reference reader |
| `Display` | `display.dfy` | C's truncating division, the `%d.%02d` display as written, and as intended |
| `Telemetry` | `telemetry.dfy` | the two UART line templates, a reader that recovers their fields, and the 128-byte buffer |
| `Scanner` | `scanner.dfy` | the address sweep as a loop (`ScanBus`), and where every header, cell and newline sits in the grid |

- **The bus.** It is an immutable list of `Reply(ret, data)` values. Transfer *k* of a run receives reply *k*. A return code of 0 is success, exactly as the C code tests `ret != 0`. A read of *n* bytes fills the buffer from `data`; bytes the reply does not supply read as zero. A run that wants more transfers than the script holds ends as `OutOfScript`. This says nothing about the device: it only marks where the script stops.
- **The scanner's bus.** It is a function `probe` from address to the return code of the zero-length write.

What the code does not have:

- The busy-poll has no bound and no timeout error. A sensor that stays busy keeps the driver polling for as long as the script lasts (`Aht10.NeverTimesOut`).
- Initialisation reports an uncalibrated sensor as the return code -1. This value cannot be told apart from a bus error that is also -1. There is no separate calibration error and no driver state machine.
- The driver keeps no state between calls.

## Model

| member | source | states |
|---|---|---|
| Frame.HumidityField | i2c_aht10/src/main.c:113-115 | raw humidity is below 2^20. Its bits 19..12 are byte 1, bits 11..4 are byte 2, and bits 3..0 are the high nibble of byte 3 |
| Frame.TemperatureField | i2c_aht10/src/main.c:118-120 | raw temperature is below 2^20. Its bits 19..16 are the low nibble of byte 3, bits 15..8 are byte 4, and bits 7..0 are byte 5 |
| Frame.Decode | i2c_aht10/src/main.c:112-120 | both raw fields of any six-byte frame are below 2^20 |
| Frame.DecodePack | i2c_aht10/src/main.c:112-120 | packing any two 20-bit fields into bytes 1..5 and decoding gives the same fields back |
| Frame.PackDecode | i2c_aht10/src/main.c:112-120 | decoding a frame and packing the fields again behind its status byte gives the frame back |
| Frame.DecodeInjective | i2c_aht10/src/main.c:112-120 | two frames that decode to the same fields are equal in bytes 1..5, so the decode is a bijection on 40-bit payloads |
| Frame.DecodeIgnoresStatus | i2c_aht10/src/main.c:113-120 | changing byte 0 never changes the decoded fields |
| Frame.SharedByteSplit | i2c_aht10/src/main.c:113-120 | the high nibble of byte 3 reaches humidity only; its low nibble reaches temperature only |
| Frame.WorkedExample | i2c_aht10/src/main.c:113-120 | the frame 00 19 99 9A 66 66 decodes to raw humidity 0x19999 and raw temperature 0xA6666 |
| Units.Humidity | i2c_aht10/src/main.c:126 | humidity lies in [0, 100) percent, and is 0 exactly when the raw field is 0 |
| Units.Temperature | i2c_aht10/src/main.c:127 | temperature lies in [-50, 150) °C, and is -50 exactly when the raw field is 0 |
| Units.ToReading | i2c_aht10/src/main.c:126-127 | every decoded frame gives a reading inside both sensor ranges |
| Units.ConversionsInvert | i2c_aht10/src/main.c:126-127 | each conversion is undone exactly by its inverse, so no raw value is lost |
| Units.ConversionsMonotone | i2c_aht10/src/main.c:126-127 | both conversions are strictly increasing in the raw value |
| Units.FullScaleReading | i2c_aht10/src/main.c:126-127 | the largest raw value, 2^20 - 1, reads one step below 100 % and one step below 150 °C |
| Aht10.Init | i2c_aht10_led/src/main.c:144-187 | see the bullets below the table |
| Aht10.InitSucceedsIff | i2c_aht10_led/src/main.c:155-186 | initialisation returns 0 exactly when all three transfers succeed and the status byte has bit 0x08 set |
| Aht10.InitAfterTransfers | i2c_aht10_led/src/main.c:174-186 | once all three transfers succeed, the whole sequence was issued, and the result is 0 when bit 0x08 is set and -1 when it is clear |
| Aht10.InitReadsOnlyCalibratedBit | i2c_aht10_led/src/main.c:180-186 | replacing the status byte with any byte that has the same 0x08 bit (busy bit included) leaves the run unchanged |
| Aht10.InitRejectsUncalibrated | i2c_aht10/src/main.c:55-64 | statuses 0x00 and 0x80 are rejected with -1 after every transfer succeeded; 0x18 is accepted |
| Aht10.ReadData | i2c_aht10_led/src/main.c:190-202 | a measurement first writes 0xAC 0x33 0x00 to 0x38, and it yields a reading exactly when it returns 0; a failed trigger returns its own code at once, before the 80 ms pause |
| Aht10.BusyRun | i2c_aht10_led/src/main.c:208-218 | counts the consecutive successful busy statuses: all of them are busy, and the reply after them is not a successful busy status |
| Aht10.Retries | i2c_aht10_led/src/main.c:209-217 | *k* busy rounds are 2*k* events, alternating a one-byte status read and a 10 ms pause |
| Aht10.RetriesCounts | i2c_aht10_led/src/main.c:209-217 | *k* busy rounds hold exactly *k* retry pauses and *k* transfers |
| Aht10.PollClosedForm | i2c_aht10_led/src/main.c:208-225 | `Poll`, the do-while busy-poll followed by the frame read, equals the closed form on every script: *k* busy rounds, then one status read, then the frame read only if that status read succeeded |
| Aht10.ReadClosedForm | i2c_aht10_led/src/main.c:198-225 | after a successful trigger, a measurement is the trigger, the 80 ms pause, and then the closed-form poll |
| Aht10.MeasuredIff | i2c_aht10_led/src/main.c:198-241 | a reading is produced exactly when the trigger, the status read that ends the poll, and the frame read all succeed |
| Aht10.MeasuredShape | i2c_aht10_led/src/main.c:208-239 | see the bullets below the table |
| Aht10.FailurePropagates | i2c_aht10_led/src/main.c:198-225 | see the bullets below the table |
| Aht10.StatusOutcome | i2c_aht10_led/src/main.c:209-213 | a failed or missing final status read ends the run right after that read, with that read's code |
| Aht10.FrameOutcome | i2c_aht10_led/src/main.c:221-225 | `Fetch`, the frame read: after a successful final status read, exactly one six-byte read follows, and its reply decides the result |
| Aht10.TwoBusyStatuses | i2c_aht10_led/src/main.c:208-221 | statuses 0x80, 0x80, 0x00 give exactly two 10 ms retry pauses, then the frame read, then the frame's reading |
| Aht10.NeverTimesOut | i2c_aht10_led/src/main.c:208-218 | a sensor that always answers busy keeps the driver polling until the script ends; no timeout exists |
| Leds.ControlLeds | i2c_aht10_led/src/main.c:89-115 | see the bullets below the table |
| Leds.Lit | i2c_aht10_led/src/main.c:91-108 | whatever was lit before, the LEDs lit after a classification are exactly those the reading calls for |
| Leds.LitByWrites | i2c_aht10_led/src/main.c:92-108 | clearing all three LEDs and then switching some on leaves exactly the ones switched on, whatever was lit before |
| Leds.ApplyClearAll | i2c_aht10_led/src/main.c:92-94 | the three clearing writes leave every LED dark |
| Leds.NeverRedAndBlue | i2c_aht10_led/src/main.c:97-103 | red and blue are never lit together |
| Leds.ThresholdsAreStrict | i2c_aht10_led/src/main.c:97-105 | exactly 25 °C or exactly 20 °C with exactly 60 % humidity lights no LED |
| Leds.GreenIndependent | i2c_aht10_led/src/main.c:105-108 | green depends on the humidity alone, whatever the temperature |
| Leds.AllOffIffDark | i2c_aht10_led/src/main.c:111-114 | "All OFF" is printed exactly when the classification leaves every LED dark |
| Decimal.NatText | i2c_aht10_led/src/main.c:126 | `%d` of a non-negative value is at least one digit, all digits, with a leading 0 only for zero |
| Decimal.NatTextRoundTrip | i2c_aht10_led/src/main.c:126 | reading back the decimal text of a number gives the number |
| Decimal.NatTextInjective | i2c_aht10_led/src/main.c:126 | different numbers have different decimal texts |
| Decimal.IntTextRoundTrip | i2c_aht10_led/src/main.c:126 | `IntText`, as `%lld` prints: the text of every integer reads back as that integer, and it starts with '-' exactly when the integer is negative |
| Decimal.Int64TextLength | i2c_aht10_led/src/main.c:120-126 | a signed 64-bit value takes at most 20 characters, and at most 19 when it is not negative |
| Decimal.HexDigitValue | src/main.c:27 | each value below 16 has a lower-case hexadecimal digit, which reads back as that value |
| Decimal.Hex2RoundTrip | src/main.c:39 | the two hexadecimal digits of a byte read back as the byte |
| Display.Split | i2c_aht10/src/main.c:217-218 | the whole part and the fraction the display prints add back up to v (whole·100 + fraction = v); the fraction is below 100 in magnitude and never has the opposite sign to v |
| Display.TruncatedDivision | i2c_aht10/src/main.c:217-218 | C's remainder is smaller than the divisor in magnitude, and never has the opposite sign to the dividend |
| Display.TruncatedDivisionUnique | i2c_aht10/src/main.c:217-218 | any quotient and remainder pair that keeps those laws is C's pair |
| Display.SplitNonNegative | i2c_aht10/src/main.c:214-218 | for v ≥ 0 the fraction is in 0..99, whole·100 + fraction = v, and both agree with the mathematical `/` and `%` |
| Display.SplitNegative | i2c_aht10/src/main.c:214-218 | for v < 0 the fraction lies in -99..0 and the whole part is at most 0, while whole·100 + fraction = v still holds |
| Display.ZeroPad2OfFraction | i2c_aht10/src/main.c:217-218 | `ZeroPad2`, as `%02d` prints: for a fraction in 0..99 it gives the two decimal digits of the fraction, a leading zero included |
| Display.Fixed2 | i2c_aht10/src/main.c:217-218 | the intended display always has a dot followed by exactly two characters |
| Display.Fixed2RoundTrip | i2c_aht10/src/main.c:217-218 | the intended display of every scaled value, negatives included, reads back as that value |
| Display.UnsignedRoundTrip | i2c_aht10/src/main.c:217-218 | the unsigned part of the intended display reads back as the magnitude |
| Display.AsWrittenAgreesOnNonNegative | i2c_aht10/src/main.c:217-218 | for every v ≥ 0 the code's display equals the intended display |
| Display.AsWrittenReadsBackIff | i2c_aht10/src/main.c:217-218 | `AsWritten`, the code's `%d.%02d` of the split: its text reads back as v exactly when v ≥ 0 or v is a whole number of units; for every other v it does not read back as a number at all |
| Display.AsWrittenAgreesOnWholeNegative | i2c_aht10/src/main.c:217-218 | a negative whole number of units, such as -100, is printed as the intended display, "-1.00" |
| Display.AsWrittenUnreadable | i2c_aht10/src/main.c:217-218 | a negative v with a non-zero fraction is printed with a minus sign after the dot, so the text does not read back as a number |
| Display.AsWrittenDoubleSign | i2c_aht10/src/main.c:217 | the code prints -1234 hundredths as "-12.-34", which does not read back as a number; the intended display is "-12.34" |
| Display.AsWrittenLostSign | i2c_aht10/src/main.c:217 | the code prints -5 hundredths as "0.-5", which does not read back as a number; the intended display is "-0.05" |
| Telemetry.ParseRender | i2c_aht10_led/src/main.c:124-126 | whenever the next literal's first character never occurs in a field, reading a rendered line gives back its fields, in order |
| Telemetry.RenderParse | i2c_aht10_led/src/main.c:124-136 | any line the reader accepts is the rendering of exactly the fields it read, so a template admits one reading per line |
| Telemetry.RenderLength | i2c_aht10_led/src/main.c:124-126 | a rendered line is as long as its literals and fields together |
| Telemetry.EndsWithLastLiteral | i2c_aht10_led/src/main.c:125 | every rendered line ends with the template's last literal |
| Telemetry.IntTextIsNumber | i2c_aht10_led/src/main.c:126 | the uptime text uses only number characters |
| Telemetry.NumberFieldsSeparable | i2c_aht10_led/src/main.c:124-136 | number fields can be told apart in any template whose inner literals each start with a non-number character |
| Telemetry.NumberLine | i2c_aht10_led/src/main.c:124-136 | a three-number line reads back as its fields, has the length of literals plus fields, and ends with the last literal |
| Telemetry.JsonTemplateShape | i2c_aht10_led/src/main.c:125 | the JSON literals total 43 bytes, each inner literal starts with a non-number character, and the line ends in CR LF |
| Telemetry.HumanTemplateShape | i2c_aht10_led/src/main.c:135 | the human-readable literals total 31 bytes (the degree sign is two bytes); otherwise as for the JSON template |
| Telemetry.Formatted | i2c_aht10_led/src/main.c:124-126 | the buffer `snprintf` fills is at most 128 bytes and ends in a NUL; the bytes before the NUL are a prefix of the line, and they are the whole line exactly when the line is shorter than 128 bytes; a line of 128 bytes or more keeps exactly 127 bytes |
| Telemetry.Transmit | i2c_aht10_led/src/main.c:124-131 | the loop sends `buffer[i]` for every i below the line's length. A line shorter than 128 bytes goes out unchanged. A 128-byte line goes out as its first 127 bytes and a NUL. Only a longer line reads past the end of the buffer |
| Telemetry.SentWholeIff | i2c_aht10_led/src/main.c:124-131 | the line goes out exactly as formatted when, and only when, it is shorter than 128 bytes or is a 128-byte line whose last byte is already a NUL |
| Telemetry.JsonLineSent | i2c_aht10_led/src/main.c:120-131 | see the bullets below the table |
| Telemetry.HumanLineSent | i2c_aht10_led/src/main.c:134-140 | likewise for `HumanLine`, the human-readable line: fields read back in order, at most 63 bytes, ends in CR LF, goes out whole |
| Telemetry.SendUartDataInRange | i2c_aht10_led/src/main.c:118-141 | see the bullets below the table |
| Scanner.Cell | src/main.c:31-44 | every cell is exactly three characters, whatever the address and the probe result |
| Scanner.ColumnIsRemainder | src/main.c:26-48 | the column is `addr % 16`; it is 15 exactly when `(addr + 1) % 16 == 0` |
| Scanner.AckCountBound | src/main.c:31-41 | at most one device is counted per probed address, so at most 112 in all |
| Scanner.ProbeListContents | src/main.c:24-35 | probe *j* is the zero-length write to address 0x08 + *j*, so the probes go in ascending order from 0x08 |
| Scanner.AddressOps | src/main.c:31-53 | visiting one address adds its probe to the write list only if the address is non-reserved, and adds exactly one 1 ms pause; it adds one transfer for the probe and no other event |
| Scanner.CellsThreeWide | src/main.c:31-44 | every cell of a scan is three characters wide |
| Scanner.LayoutLength | src/main.c:24-54 | after 16*r* + *c* addresses the grid holds *r* rows of 53 characters, then the current row's header and 3*c* cell characters |
| Scanner.LayoutPrefix | src/main.c:24-54 | the grid printed so far is a prefix of every grid printed later |
| Scanner.GridSize | src/main.c:24-54 | the finished grid is 424 characters: eight rows of 53 |
| Scanner.HeaderAt | src/main.c:26-28 | row *r* opens at offset 53*r* with address 16*r* in hexadecimal and ": ", in every text printed once that address is visited |
| Scanner.CellAt | src/main.c:31-44 | the cell of address 16*r* + *c* sits at offset 53*r* + 4 + 3*c*, and it is that address's own cell of its own probe result |
| Scanner.NewlineAt | src/main.c:48-50 | row *r* closes with a newline at offset 53*r* + 52 once the row is complete |
| Scanner.VisitAddress | src/main.c:24-53 | one loop iteration performs the address's bus step, prints its header, cell and newline, and counts 1 exactly when a probed address acknowledged |
| Scanner.ScanStep | src/main.c:24-54 | one iteration keeps the loop's account: the count, the text and the bus operations all describe the addresses visited so far |
| Scanner.StepsCounts | src/main.c:24-53 | the bus operations of the first *n* iterations hold exactly the zero-length writes to the non-reserved addresses below *n*, in ascending order, one 1 ms pause per address, and no other event |
| Scanner.ScanAddresses | src/main.c:24-54 | `for addr` over the first *n* addresses: the bus operations are `Steps(n)`, the count is the number of probed addresses below *n* that acknowledged, and the text is the banner, the column header and the grid so far |
| Scanner.SummaryCount | src/main.c:56 | `Summary`, the closing line: the count sits in decimal between the fixed text around it, and it reads back from the line |
| Scanner.ScanBus | src/main.c:14-57 | see the bullets below the table |

Rows whose third column says "see the bullets below the table" state the following:

- **Aht10.Init**
  - The trace is a prefix of: write `0xBA`, 20 ms, write `0xE1 0x08 0x00`, 10 ms, read 1 byte, all at 0x38.
  - One reply is used per transfer, in order.
  - The trace always ends with a transfer, never with a pause.
  - When any of the three transfers fails, initialisation stops there and returns that transfer's non-zero code; the status read is included.
- **Aht10.MeasuredShape**
  - A reading is the decode of a frame read right after a status byte with the busy bit clear.
  - The trace is the trigger, 80 ms, *k* rounds of a status read plus a 10 ms pause, the final status read, and the frame read.
  - It holds exactly *k* retry pauses.
- **Aht10.FailurePropagates**
  - One reply is used per transfer.
  - Every transfer before the last one succeeded.
  - A failed measurement returns the last transfer's non-zero code.
- **Leds.ControlLeds**
  - The three LEDs are cleared first, and only switch-ons follow.
  - Red is switched on iff temperature > 25, blue iff temperature < 20, and green iff humidity > 60.
  - "All OFF" is printed iff nothing is switched on.
- **Telemetry.JsonLineSent**
  - This is about `JsonLine`, for an in-range reading.
  - The JSON line reads back as temperature, humidity and timestamp, in that order.
  - It is at most 75 bytes and ends in CR LF.
  - It fits the buffer, so it goes out whole.
- **Telemetry.SendUartDataInRange**
  - This is about `SendUartData`, the whole of `send_uart_data`.
  - For an in-range reading both lines go out whole, the JSON line first.
  - Each line ends in CR LF.
  - Each line carries its own uptime.
- **Scanner.ScanBus**
  - The bus operations are exactly `Steps(128)`: address by address in ascending order, the zero-length write if the address is non-reserved, then a 1 ms pause.
  - The writes are exactly the 112 zero-length probes of 0x08..0x77, in ascending order.
  - The scan issues 240 events: 112 transfers, all of them those writes, and 128 pauses of 1 ms. It never touches a reserved address and never reads.
  - The count is the number of probed addresses that acknowledged, and at most 112.
  - The text is the banner, the column header, the grid of all 128 addresses, and the summary with the count.

## Left out

- The Zephyr glue is left out: device lookup and readiness checks, the three `main` loops and their `k_sleep` pacing, and the `printk`/`LOG` messages. All of it is platform I/O. Three kinds of output are modelled: the scanner's output, the LED status lines of `control_leds`, and the number part of the plain reader's display line (`v / 100` and `v % 100`, i2c_aht10/src/main.c:217-218).
- `init_leds` and the LED self-test are left out. They are GPIO configuration; only the pin writes of a classification are modelled.
- No clock is modelled. Sleeps are trace events carrying their nominal milliseconds.
- Binary32 arithmetic is left out: the float conversions, the float-to-int casts of the plain reader, and the digits `%.2f` prints.
  - Conversions are computed over exact reals.
  - The display split takes the scaled integer as its input.
  - The two `%.2f` texts of a UART line are inputs. They are assumed to be at most six number characters, which holds for readings in range.
- `k_uptime_get` becomes two independent inputs, one per UART line, because the C code calls it once per line.
- `uart_poll_out` is modelled only as the bytes a line contributes. The driver's error messages are left out.
- Aht10.ReadData: the model does not state whether the busy-poll terminates. The C loop has no bound, so the model follows it over a finite script and ends a run that is still polling as `OutOfScript`.
- Scanner.HeaderAt, Scanner.CellAt, Scanner.NewlineAt: these are stated for any number of visited addresses past the one concerned. They are not restated separately for the finished grid. The finished grid is the case n = 128.
- Telemetry.Transmit: a line longer than 128 bytes is recorded only as `Overrun` with its length. The model does not say what the C loop reads past the end of the 128-byte array, which is undefined behaviour. A line of exactly 128 bytes stays inside the array and is modelled in full.
- Timing of the two-wire bus, clock stretching, and acknowledgement at the electrical level are abstracted into the return code of each transfer.

## Findings

| source | as written | input that shows it | evidently intended | confidence | as-written member | corrected member |
|---|---|---|---|---|---|---|
| i2c_aht10/src/main.c:217-218 | prints `v / 100` with `%d`, then `v % 100` with `%02d`, where C truncates toward zero, so a negative `v` gives a negative remainder | any negative v that is not a whole number of units; for example, a temperature of -12.34 °C (v = -1234) prints "-12.-34"; -0.05 °C (v = -5) prints "0.-5", losing the sign before the dot | a sign, then the magnitude's whole part, a dot and two fraction digits: "-12.34" and "-0.05" | high (not executed) | Display.AsWritten, shown for every affected value by Display.AsWrittenReadsBackIff and Display.AsWrittenUnreadable, and on the two inputs by Display.AsWrittenDoubleSign and Display.AsWrittenLostSign | Display.Fixed2, proved by Display.Fixed2RoundTrip and agreeing with the code on v ≥ 0 (Display.AsWrittenAgreesOnNonNegative) |
