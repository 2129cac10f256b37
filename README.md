# DHT11 station on an MSP430: a Dafny model

The firmware in `Projeto_final/Projeto_final.c` runs on an MSP430F5529. It
polls a DHT11 temperature and humidity sensor over a single-wire line and
shows the readings on a character LCD behind a PCF8574 I2C backpack
(address 0x27, HD44780-style controller in 4-bit mode). Two buttons step
through four views: a label, the temperature in degrees Celsius, the
humidity in percent, and the temperature in Fahrenheit with one decimal.

This project models the sequential logic of that firmware and proves what
it promises:

- `bits.dfy` (`Bits`): the C byte operations the firmware uses (`|`, `&`
  and shifts) on integers 0..255, and the facts about them the other
  modules need.
- `dht11.dfy` (`Dht11`): the 40-symbol frame and the 5 bytes
  `decode_message` packs from it, most significant bit first. It also
  defines the 8-bit wrap-around checksum. It proves that decoding is the
  weighted sum of the symbols, that decoding and encoding are mutual
  inverses, and that the checksum accepts exactly the sealed frames and
  detects any single corrupted byte.
- `views.dfy` (`Views`): the view index `tela`, the two button updates, and
  the text each view shows. The model writes the `sprintf` output with a
  small decimal formatter for non-negative values.
- `i2c.dfy` (`I2c`): `i2cSend` as an abstract transaction. The device's
  acknowledgement is an input. The result is the sequence of steps taken
  and the return code. A `Bus` object records every byte written.
- `lcd.dfy` (`Lcd`): `lcd_send_nibble`, `lcd_cmd`, `lcd_data`, `lcd_puts`
  and `lcd_init` as methods that append to the bus trace. The controller
  side is a reference definition: a nibble is latched on each falling edge
  of the enable pin, and nibbles are paired into bytes in 4-bit mode. It
  proves that the writes of every routine, as issued, deliver exactly the
  bytes it is given, in order.
- `firmware.dfy` (`Firmware`): the globals `data` and `received_message`
  and `main`'s local `tela` as fields of a `Station`, one pass of the `for(;;)` loop, and a
  finite run of passes. It proves what the writes of one pass deliver to
  the display: one clear per button press, the line-one address command
  (0x80), then the text of the selected view for the frame just decoded.

`Lcd.Latched`, `Lcd.Assemble`, `Dht11.Encode` and `Dht11.Seal` are not
code from the firmware. They are reference definitions of the other side of
each wire: what the display controller latches and assembles from the bus
writes, and the frame a sensor sends for a reading. The lemmas relate the
firmware's operations to them.

Both buttons are checked on every pass, one `if` after the other (lines
96 and 103). A pass can therefore apply a forward step and then a backward
step, clearing the display twice. The model follows the code, not a
description in which only one index change happens per pass.
`Views.BothButtonsCancel` states the result: pressing both buttons in one
pass leaves the view unchanged.

## Model

| member | source | states |
|---|---|---|
| Dht11.Symbol | Projeto_final/Projeto_final.c:78-83 | the stored symbol is 1 exactly when the line reads high at the sample point, otherwise 0 |
| Firmware.Station.SampleFrame | Projeto_final/Projeto_final.c:72-83 | the 40 slots 0..39 of `received_message` hold the symbol of the level read in that slot, all 0 or 1 |
| Dht11.PackPrefixIsWeightedSum | Projeto_final/Projeto_final.c:247-250 | with 0/1 symbols, ORing `bit << (7 - j)` into the 8-bit byte is adding it: after `j` rounds the byte is the sum of the first `j` weighted symbols and no bit is lost to truncation |
| Dht11.DecodeIsWeightedSum | Projeto_final/Projeto_final.c:243-251 | byte `i` of the decoded frame is the sum over `j` of `bit[8i+j] << (7-j)` |
| Dht11.DecodeEncode | Projeto_final/Projeto_final.c:243-251 | encoding 5 bytes as 40 symbols, most significant bit first, and decoding gives the bytes back |
| Dht11.EncodeDecode | Projeto_final/Projeto_final.c:243-251 | decoding 40 0/1 symbols and encoding the bytes gives the symbols back, so distinct frames decode to distinct bytes |
| Dht11.Decode | Projeto_final/Projeto_final.c:243-251 | the frame `decode_message` leaves in `data`: five bytes, byte `i` built from symbols `8i` to `8i+7`; its meaning is stated by the lemmas around it |
| Dht11.DecodedByteIsMsb | Projeto_final/Projeto_final.c:243-251 | a decoded byte is its group of 8 symbols read as a binary number, first symbol most significant |
| Firmware.Station.DecodeMessage | Projeto_final/Projeto_final.c:238-252 | all 5 bytes of `data` are overwritten with the decoding of `received_message`; their old contents do not matter |
| Dht11.Checksum | Projeto_final/Projeto_final.c:94 | the value stored in `checksum` is a byte that differs from `data[0]+data[1]+data[2]+data[3]` by a multiple of 256: the sum wrapped to 8 bits |
| Dht11.ChecksumOk | Projeto_final/Projeto_final.c:112 | the test `checksum != data[4]` fails exactly when `data[4]` and the sum of the first four bytes agree modulo 256 |
| Dht11.ChecksumOkIffSealed | Projeto_final/Projeto_final.c:94 | a frame passes the test exactly when its last byte is the 8-bit wrap-around sum of the first four |
| Dht11.SealedAccepted | Projeto_final/Projeto_final.c:112 | every sealed frame is accepted, and a payload followed by any other byte is rejected |
| Dht11.CorruptedByteDetected | Projeto_final/Projeto_final.c:112 | changing any one byte of an accepted frame makes it rejected |
| Firmware.SealedFrameAccepted | Projeto_final/Projeto_final.c:72-94 | a sealed frame, sampled correctly, decodes to exactly the bytes sent and is accepted |
| Views.CRem | Projeto_final/Projeto_final.c:98 | C's `%` keeps the sign of the dividend, stays within the divisor, and differs from the dividend by a multiple of the divisor, which together fix its value |
| Views.Forward | Projeto_final/Projeto_final.c:98 | the forward step keeps `tela` in 0..3 |
| Views.Backward | Projeto_final/Projeto_final.c:105 | the backward step keeps `tela` in 0..3 |
| Views.BackwardUndoesForward | Projeto_final/Projeto_final.c:96-108 | a backward step undoes a forward step |
| Views.ForwardUndoesBackward | Projeto_final/Projeto_final.c:96-108 | a forward step undoes a backward step |
| Views.BothButtonsCancel | Projeto_final/Projeto_final.c:96-108 | both buttons pressed in one pass leave `tela` unchanged |
| Views.AfterButtons | Projeto_final/Projeto_final.c:96-108 | the forward check, then the backward check, keep `tela` in 0..3, and pressing neither or both leaves it unchanged |
| Views.ForwardTimesCycles | Projeto_final/Projeto_final.c:98 | `n` forward steps from view `t` reach view `(t + n) mod 4` |
| Views.ViewSequenceFromZero | Projeto_final/Projeto_final.c:98-105 | from view 0, five forward steps give 1, 2, 3, 0, 1, and one backward step gives 3 |
| Views.Decimal | Projeto_final/Projeto_final.c:118 | `%d` of a non-negative value is a non-empty string of digits, one digit exactly below 10, no leading zero |
| Views.ParseDecimalOfDecimal | Projeto_final/Projeto_final.c:118-126 | the digits printed read back as the value printed |
| Views.FahrenheitTenths | Projeto_final/Projeto_final.c:124-125 | `f = c*18 + 320` is even, at least 320 for a non-negative reading, and splits into `f/10` and a single digit `f%10` that recombine to `f` |
| Views.Render | Projeto_final/Projeto_final.c:112-128 | the text chosen by the checksum test and `tela`: it is "Checksum erro" exactly when the checksum test fails, empty exactly when the frame is accepted and `tela` is outside 0..3, and "Medicoes:" for an accepted frame in view 0 |
| Views.ChecksumErrorOverridesView | Projeto_final/Projeto_final.c:112-113 | a rejected frame shows "Checksum erro" whatever the view |
| Views.WholeViewsReadBack | Projeto_final/Projeto_final.c:117-122 | with a valid frame, view 1 shows "Temp: ", the `%d` digits of `data[2]` (no leading zero), then " C", and view 2 shows "Umid: ", the `%d` digits of `data[0]`, then " %"; the digits read back as the byte |
| Views.FahrenheitReadsBack | Projeto_final/Projeto_final.c:123-127 | with a valid frame, view 3 shows the `%d` digits of `f / 10` (no leading zero), a point, the single digit `f % 10` and "F", with `f = c*18 + 320`; together they read back as `f` |
| Views.ExampleFrame | Projeto_final/Projeto_final.c:112-127 | the frame 45, 0, 23, 0, 68 is accepted and shows "Medicoes:", "Temp: 23 C", "Umid: 45 %" and "Temp: 73.4F" |
| Views.FahrenheitExamples | Projeto_final/Projeto_final.c:124-126 | 25 degrees Celsius shows "Temp: 77.0F" and 0 shows "Temp: 32.0F" |
| Firmware.RenderPrintable | Projeto_final/Projeto_final.c:112-127 | every text a view shows is printable ASCII, so it contains no NUL |
| Firmware.PutsSendsAll | Projeto_final/Projeto_final.c:164-166 | for a printable text, `lcd_puts` sends every character |
| Firmware.ShownText | Projeto_final/Projeto_final.c:110-129 | showing a view delivers the line-one address command (0x80), then every character of the rendered text, and nothing else |
| Firmware.ButtonsThen | Projeto_final/Projeto_final.c:96-108 | the button checks deliver one clear instruction per press, ahead of what follows |
| Firmware.PassReceived | Projeto_final/Projeto_final.c:70-131 | one pass delivers the clears for the presses, the line-one address command (0x80), then the text of the newly selected view for the frame just decoded |
| Firmware.RunStep | Projeto_final/Projeto_final.c:68-132 | a run one pass longer starts that pass from the view the shorter run ended on, and appends its writes after the shorter run's |
| Firmware.Station.constructor | Projeto_final/Projeto_final.c:61-66 | start-up issues exactly the writes of `lcd_init`, leaves the zero-initialised globals `data` (5 bytes) and `received_message` (40 slots) all zero, and starts on view 0 |
| Firmware.Station.HandleButtons | Projeto_final/Projeto_final.c:96-108 | `tela` moves as the two independent checks say, with one clear command per press |
| Firmware.Station.Show | Projeto_final/Projeto_final.c:110-129 | writes the line-one address command (0x80), then the text `Render` gives for the checksum result and `tela` |
| Firmware.Station.Pass | Projeto_final/Projeto_final.c:69-131 | one pass: sample, decode, check the checksum, handle the buttons, show; the new state and the bus writes are stated in full |
| Firmware.Station.Run | Projeto_final/Projeto_final.c:68-132 | a run of passes ends on the view `ViewAfterRun` gives and appends exactly `RunWrites` |
| I2c.Transaction | Projeto_final/Projeto_final.c:186-205 | a transaction sets the address, starts, waits for the transmit buffer, loads the byte, and always ends with a stop request and the wait for it; the second wait for the transmit buffer happens exactly when the device acknowledged, giving 8 steps, and a NACK gives 7 |
| I2c.Bus.Send | Projeto_final/Projeto_final.c:186-205 | the byte is recorded, and the result is 1 exactly when the device did not acknowledge, otherwise 0 |
| Bits.HighNibble | Projeto_final/Projeto_final.c:153 | `b & 0xF0` is the high nibble of `b`, in place |
| Bits.LowNibbleUp | Projeto_final/Projeto_final.c:154 | `(b << 4) & 0xF0` is the low nibble of `b`, moved to the high nibble |
| Lcd.FrameOps | Projeto_final/Projeto_final.c:143-147 | the ORs of backlight, register select and enable build the frame byte: data lines from the nibble, backlight on, RS as asked, enable as asked |
| Lcd.FrameByte | Projeto_final/Projeto_final.c:143-146 | the frame byte carries the nibble's high four bits on the data lines and, below them, the backlight, the enable strobe when asked and register select for data |
| Lcd.SendNibble | Projeto_final/Projeto_final.c:142-150 | appends exactly two writes to 0x27: the frame with enable set, then the same frame with enable clear |
| Lcd.NibbleWritesShape | Projeto_final/Projeto_final.c:142-150 | both writes carry the nibble and the backlight, RS set exactly for data, RW never set; enable is up in the first write and down in the second |
| Lcd.Cmd | Projeto_final/Projeto_final.c:152-156 | appends the four writes of the byte with RS clear, high nibble first |
| Lcd.Data | Projeto_final/Projeto_final.c:158-162 | appends the four writes of the byte with RS set, high nibble first |
| Lcd.ByteWritesRecombine | Projeto_final/Projeto_final.c:152-162 | the high nibbles of writes 1 and 3 recombine to the byte sent |
| Lcd.CString | Projeto_final/Projeto_final.c:165 | the characters `lcd_puts` walks: a prefix of the string without NUL, ending at the first NUL or at the end |
| Lcd.CStringUnique | Projeto_final/Projeto_final.c:165 | that prefix is the only prefix with those properties |
| Lcd.Puts | Projeto_final/Projeto_final.c:164-166 | appends one `lcd_data` per character, in order, up to the terminator |
| Lcd.Init | Projeto_final/Projeto_final.c:168-184 | appends the mode nibbles 0x30, 0x30, 0x30 and 0x20, then the commands 0x28, 0x0C, 0x06 and 0x01 |
| Lcd.InitLength | Projeto_final/Projeto_final.c:168-182 | `lcd_init` makes 4 x 2 + 4 x 4 = 24 writes |
| Lcd.InitCommandsWrites | Projeto_final/Projeto_final.c:178-181 | the commands of `lcd_init` are function set, display on, entry mode and clear, in that order |
| Lcd.LatchedNibble | Projeto_final/Projeto_final.c:142-150 | the two writes of `lcd_send_nibble` latch exactly one nibble, with the register select asked for |
| Lcd.LatchedByte | Projeto_final/Projeto_final.c:152-162 | the writes of `lcd_cmd` or `lcd_data` latch the high nibble, then the low nibble |
| Lcd.CmdReceived | Projeto_final/Projeto_final.c:152-156 | `lcd_cmd(c)` delivers exactly the instruction `c` |
| Lcd.ByteStreamReceived | Projeto_final/Projeto_final.c:164-166 | a sequence of `lcd_data` (or `lcd_cmd`) calls delivers exactly those bytes, in order |
| Lcd.PutsReceived | Projeto_final/Projeto_final.c:164-166 | `lcd_puts(s)` delivers the characters of `s` before its terminator, in order, as characters |
| Lcd.FourNibblesLatched | Projeto_final/Projeto_final.c:170-177 | four `lcd_send_nibble` calls latch four nibbles, in order |
| Lcd.ModeNibblesLatched | Projeto_final/Projeto_final.c:170-177 | the mode nibbles latch 3, 3, 3, then 2, which switches to 4-bit mode |
| Lcd.InitLatched | Projeto_final/Projeto_final.c:168-184 | `lcd_init` latches the four mode nibbles, then what its commands deliver |
| Lcd.InitCommandsReceived | Projeto_final/Projeto_final.c:178-181 | in 4-bit mode the commands of `lcd_init` deliver function set, display on, entry mode and clear, in that order |

## Left out

- Peripheral set-up in `main` (watchdog, ports, pull-ups, USCI
  configuration, lines 33-59): register writes with no computed result.
- Every delay (`__delay_cycles`, `delay_us`): timing only.
- The busy-waits on the sensor line, the button release and the USCI flags.
  Each wait is an abstract step that eventually completes. In the sampling
  loop the line level at each sample point is an input. Termination on
  real hardware is not modelled.
- `start_signal` (lines 207-236): it only drives and releases the sensor
  line.
- The sensor's pulse timing: a bit's value is the level read at the sample
  point, given as an input per slot.
- `sprintf`: `Views.Decimal` stands in for `%d` on non-negative values.
- Signedness of `char`: `data` and `checksum` are 0..255. The checksum
  comparison does not depend on signedness, because both sides wrap the
  same way.
- Views.Render: prints the bytes of `data` as unsigned values, as an
  unsigned `char` would. `Views.WholeViewsReadBack`,
  `Views.FahrenheitReadsBack` and the texts the display receives describe
  only that case. With a signed `char`, a byte above 127 prints as a
  negative number. For a temperature byte from 128 to 238, view 3 then
  computes a negative `f`; from 239 to 255, a different positive one.
- The return code of `i2cSend` is ignored by the LCD routines, as in the
  source.
- Lcd.Latched: reads every write the bus records, and `I2c.Bus.Send`
  records a write whether or not the expander acknowledged it. So
  `Lcd.CmdReceived`, `Lcd.ByteStreamReceived`, `Lcd.PutsReceived`,
  `Lcd.InitLatched`, `Lcd.InitCommandsReceived`, `Firmware.ShownText`,
  `Firmware.ButtonsThen` and `Firmware.PassReceived` describe the writes as
  issued. The display gets those bytes only when every write is
  acknowledged. The model does not state what the display receives after
  a NACK.
- The `for(;;)` loop is modelled by `Firmware.Station.Run` over a finite
  sequence of passes.
- Firmware.Station.Run: states the view and the bus trace after the run,
  not `data` and `received_message`. `Firmware.Station.Pass` states those
  for each pass.
