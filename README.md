# AHT10 sensor driver and serial text helpers

A Dafny model of the two small libraries of a Raspberry Pi Pico firmware:

- `Aht10` drives an AHT10 temperature and humidity sensor over I2C. It
  sends three fixed 3-byte command frames (soft reset, calibration,
  measurement), waits a fixed time, reads a 6-byte reply and unpacks two
  20-bit raw magnitudes from it. It turns these into percent relative
  humidity and degrees Celsius.
- `PortaSerial` wraps a UART handle. It sends a character, a NUL-terminated
  text, or a text followed by `"\r\n"`. It reads one character, or one line
  into a caller buffer. It drains pending input and restarts the port.

Layout:

- `bits.dfy` (`Bits`): the C operators used by the decoder (`<<` on
  `uint32_t`, `>>`, `|`, `&`), stated on integers, with lemmas tying `|` and
  `&` to sums and remainders.
- `aht10_protocol.dfy` (`Aht10Protocol`):
  - the device address and the command frames;
  - the reply decoder and its inverse (`Pack`);
  - the exact real conversions;
  - the bus-event datatype and the shape of the initialisation and
    measurement sequences.
- `aht10.dfy` (`Aht10Driver`): the `Aht10` class. Its methods update the
  three mutable fields of the driver and append what they do on the bus to a
  ghost trace of events.
- `pico_uart.dfy` (`PicoUart`): the SDK UART as an object.
  - `rx` is the receive line, as what successive polls find: a character,
    or `Idle` for a timed wait that elapsed with nothing.
  - `tx` holds the characters sent.
  - `calls` logs the configuration calls.
- `serial_text.dfy` (`SerialText`):
  - `Scan`/`ReadLine`, the line reader as a function of the receive line;
  - `CString`, the characters of a NUL-terminated text;
  - `AfterDrain`, what draining leaves;
  - lemmas on what the reader stores, where it stops and when it times out.
- `portaserial.dfy` (`PortaSerialDriver`): the `PortaSerial` class. Its
  loops are proved against the `SerialText` functions.

How the reply is split:

- The decoder takes the HIGH nibble of reply byte 3 as the low four bits of
  the humidity. It takes the LOW nibble as the top four bits of the
  temperature (`Aht10/src/Aht10.cpp:56-57`).
- The reply `00 19 99 95 33 33` decodes to a humidity of 0x19999, about 10 %
  (`Aht10Protocol.ExampleReply`). No reply can decode to 100 % or more,
  because every raw magnitude is below 2^20.

## Model

| member | source | states |
|---|---|---|
| Bits.Shl | Aht10/src/Aht10.h:49-50 | `<<` on a `uint32_t` is the product reduced modulo 2^32; when the product fits, as it does for every shift of a reply byte, nothing is lost |
| Bits.Shr | Aht10/src/Aht10.cpp:56 | `>>` on a byte drops the low k bits: the result r satisfies r·2^k ≤ x < (r+1)·2^k |
| Bits.OrDisjoint | Aht10/src/Aht10.cpp:56-57 | `|` of a multiple of 2^k and a value below 2^k is their sum, so the decoder's `|` joins bit fields without overlap |
| Bits.AndLowMask | Aht10/src/Aht10.cpp:56-57 | `&` with the mask 2^k - 1 keeps exactly the low k bits (the remainder modulo 2^k) |
| Aht10Protocol.CalibrationFrame | Aht10/src/Aht10.h:26-28 | the calibration frame is exactly 0xE1, 0x08, 0x00 |
| Aht10Protocol.MeasureFrame | Aht10/src/Aht10.h:29-31 | the measurement frame is exactly 0xAC, 0x33, 0x00 |
| Aht10Protocol.SoftResetFrame | Aht10/src/Aht10.h:32-34 | the soft-reset frame is exactly 0xBA, 0x00, 0x00 |
| Aht10Protocol.HumidityRaw | Aht10/src/Aht10.cpp:56 | computed with the source's shifts and masks, the humidity equals buf[1]·2^12 + buf[2]·2^4 + (high nibble of buf[3]) and is below 2^20 |
| Aht10Protocol.TemperatureRaw | Aht10/src/Aht10.cpp:57 | computed with the source's shifts and masks, the temperature equals (low nibble of buf[3])·2^16 + buf[4]·2^8 + buf[5] and is below 2^20 |
| Aht10Protocol.Pack | Aht10/src/Aht10.cpp:56-57 | lays out a status byte and two 20-bit magnitudes as a 6-byte reply whose first byte is the status |
| Aht10Protocol.StatusIgnored | Aht10/src/Aht10.cpp:54-58 | two replies that differ only in byte 0 decode to the same humidity and temperature |
| Aht10Protocol.DecodePack | Aht10/src/Aht10.cpp:56-57 | decoding the packing of any h, t below 2^20 gives back exactly h and t |
| Aht10Protocol.PackDecode | Aht10/src/Aht10.cpp:56-57 | every 6-byte reply is the packing of its status byte and its two decoded magnitudes, so the layout loses no bit of bytes 1..5 |
| Aht10Protocol.ExampleReply | Aht10/src/Aht10.cpp:56-57 | the reply 00 19 99 95 33 33 decodes to humidity 0x19999 (just under 10 %) and temperature 0x53333 (just under 15 degrees) |
| Aht10Protocol.UmidadeRelativa | Aht10/src/Aht10.cpp:34-37 | humidity is raw·100/2^20 over exact reals and lies in [0, 100) for a 20-bit raw value |
| Aht10Protocol.TemperaturaCelsius | Aht10/src/Aht10.cpp:29-32 | temperature is raw·200/2^20 − 50 over exact reals and lies in [−50, 150) for a 20-bit raw value |
| Aht10Protocol.ConversionsMonotonic | Aht10/src/Aht10.cpp:29-37 | both conversions are non-decreasing, and strictly increasing, in the raw value |
| Aht10Protocol.InitSequenceShape | Aht10/src/Aht10.cpp:14-27 | the initialisation writes exactly two frames, soft reset then calibration, at the device address; it reads nothing and sleeps 2 × 20 ms between the two writes |
| Aht10Protocol.MeasureSequenceShape | Aht10/src/Aht10.cpp:60-73 | a measurement writes only the measurement frame; it then sleeps 80 ms and then reads the reply once, all at the same address |
| Aht10Driver.Aht10.constructor | Aht10/src/Aht10.cpp:3-12 | stores the bus, pins and address (EnderecoPadrao, 0x38, when none is given, as Aht10/src/Aht10.h:12-15 declares); no reading is available and both samples are 0 |
| Aht10Driver.Aht10.Inicializar | Aht10/src/Aht10.cpp:14-27 | clears the flag and both samples; the trace grows by bus init, both pins to I2C, reset frame, 20 ms, 20 ms, calibration frame |
| Aht10Driver.Aht10.Resetar | Aht10/src/Aht10.cpp:86-95 | appends the soft-reset write and a 20 ms sleep, and nothing else |
| Aht10Driver.Aht10.Calibrar | Aht10/src/Aht10.cpp:75-84 | appends exactly the calibration write |
| Aht10Driver.Aht10.EnviarComandoMedicao | Aht10/src/Aht10.cpp:39-47 | appends exactly the measurement write |
| Aht10Driver.Aht10.EnviarComandos | Aht10/src/Aht10.cpp:97-100 | appends one write of the given frame to the device address |
| Aht10Driver.Aht10.LerDados | Aht10/src/Aht10.cpp:49-52 | fills the 6-byte buffer with whatever the bus hands back and records that reply as one read |
| Aht10Driver.Aht10.ProcessarDados | Aht10/src/Aht10.cpp:54-58 | both sample fields become the decoding of the buffer, so both are 20-bit; no other field changes |
| Aht10Driver.Aht10.Disponivel | Aht10/src/Aht10.cpp:60-73 | always returns true with the flag set; the trace grows by exactly measurement write, 80 ms, one 6-byte read; both samples are the decoding of that one reply |
| Aht10Driver.Aht10.ObterUmidadeRelativa | Aht10/src/Aht10.cpp:34-37 | the humidity of the stored sample, in [0, 100) when the samples are 20-bit |
| Aht10Driver.Aht10.ObterTemperaturaCelsius | Aht10/src/Aht10.cpp:29-32 | the temperature of the stored sample, in [−50, 150) when the samples are 20-bit |
| SerialText.CString | PortaSerial/src/PortaSerial.cpp:54-64 | the characters a NUL-terminated text walk visits: a prefix of the text with no NUL in it, followed in the text by a NUL whenever there is one |
| SerialText.FimLinhaText | PortaSerial/src/PortaSerial.h:14 | the line end, stored as a NUL-terminated text, sends exactly carriage return then line feed |
| SerialText.Scan | PortaSerial/src/PortaSerial.cpp:103-135 | the reader's loop from any point: keeps what is already stored as a prefix and stores at most limit characters; uses up only a front part of the line; reports Full exactly when the buffer is full; times out with nothing only if it started with nothing |
| SerialText.ScanContent | PortaSerial/src/PortaSerial.cpp:123-134 | from any point, what the loop adds is the characters used up, in order, with carriage returns removed, up to a delimiter that is not stored |
| SerialText.ScanStops | PortaSerial/src/PortaSerial.cpp:103-134 | from any point, a read that stops at the delimiter has used it up as its last poll; one that fills the buffer has used up, last, the character that filled it, or nothing if the buffer was already full |
| SerialText.ScanQuiet | PortaSerial/src/PortaSerial.cpp:107-121 | from any point, the silence counter matches the run of empty waits at the end of what was seen; a read ends by timing out exactly on the 20th consecutive empty wait |
| SerialText.ReadLineContent | PortaSerial/src/PortaSerial.cpp:103-135 | the stored line is the received characters in order without '\r', up to the first delimiter or until the buffer is full or the line goes silent; it holds at most limit characters; the read stops right after the delimiter (its last used-up poll) or right after the character that filled the buffer, and with limit 0 uses up nothing |
| SerialText.ReadLineTimeout | PortaSerial/src/PortaSerial.cpp:107-121 | a read that does not time out never sees 20 empty waits in a row; a read that times out ends on the 20th consecutive empty wait (or the line ran dry first), and a character resets the count |
| SerialText.ReadLineNoRoom | PortaSerial/src/PortaSerial.cpp:103 | with a buffer of one character nothing is read and the NUL is written |
| SerialText.AfterDrain | PortaSerial/src/PortaSerial.cpp:158-171 | draining removes a front part of the line made only of waiting characters, and stops at an empty poll or the end |
| PortaSerialDriver.PortaSerial.constructor | PortaSerial/src/PortaSerial.cpp:11-19 | stores the UART handle, baud rate and both pins |
| PortaSerialDriver.PortaSerial.Iniciar | PortaSerial/src/PortaSerial.cpp:21-33 | fails without a UART; otherwise makes the stdio deinit and init calls and then fails exactly when the baud rate is 0 |
| PortaSerialDriver.PortaSerial.EnviarCaractere | PortaSerial/src/PortaSerial.cpp:35-47 | succeeds exactly when there is a UART, and then sends exactly that character |
| PortaSerialDriver.PortaSerial.EnviarTexto | PortaSerial/src/PortaSerial.cpp:49-67 | fails on a null text; sends exactly the characters before the first NUL, in order; fails without a UART only if there is a character to send |
| PortaSerialDriver.PortaSerial.EnviarTextoComNovaLinha | PortaSerial/src/PortaSerial.cpp:69-75 | succeeds exactly when there are a text and a UART; sends the text and then "\r\n"; sends no line end when the text fails |
| PortaSerialDriver.PortaSerial.HaDadosDisponiveis | PortaSerial/src/PortaSerial.cpp:142-148 | false without a UART; otherwise true exactly when draining would remove something |
| PortaSerialDriver.PortaSerial.LerCaractere | PortaSerial/src/PortaSerial.cpp:77-85 | succeeds exactly when a character is waiting and then takes it off the line; otherwise hands the argument back and changes nothing |
| PortaSerialDriver.PortaSerial.LerTexto | PortaSerial/src/PortaSerial.cpp:87-140 | returns 0 and touches nothing without a buffer, room or UART; otherwise stores ReadLine's line, returns its length (below tamanhoMaximo), NUL-terminates it unless it timed out with nothing, writes nothing past the NUL, and leaves the line where ReadLine stops |
| PortaSerialDriver.PortaSerial.LerLinha | PortaSerial/src/PortaSerial.cpp:100-139 | the loop and terminator of the line reader on a present UART and buffer meet ReadLine |
| PortaSerialDriver.PortaSerial.LerAteParar | PortaSerial/src/PortaSerial.cpp:100-135 | the reader's loop, started at index 0 with a silent count of 0, stores exactly ReadLine's line from index 0, leaves every later cell alone, leaves the line at ReadLine's rest, and reports that a NUL is due unless it timed out with nothing |
| PortaSerialDriver.PortaSerial.AguardarCaractere | PortaSerial/src/PortaSerial.cpp:104-134 | one pass of the loop: either it ends the read with exactly the stored characters, rest of the line and NUL decision that Scan gives from the state before the pass, or it leaves an index, silence count and line from which Scan gives the same outcome, having used up a poll or added to the silence count; cells from the new index on are untouched |
| PortaSerialDriver.PortaSerial.LimparBuffer | PortaSerial/src/PortaSerial.cpp:158-171 | does nothing without a UART; otherwise leaves the line as AfterDrain says and sends nothing |
| PortaSerialDriver.PortaSerial.Reiniciar | PortaSerial/src/PortaSerial.cpp:173-181 | fails without a UART; otherwise deinitialises the UART and then behaves as Iniciar |

## Left out

- I2C and UART hardware effects are not modelled. This covers `i2c_init`, `gpio_set_function`, `stdio_uart_init_full`, `uart_deinit` and real sleep timing. Each appears only as an event in a trace or a call log.
- The return values of `i2c_write_blocking` and `i2c_read_blocking` are ignored by the source. The model never fails a bus step, and a read may return any six bytes.
- Aht10Driver.Aht10.ObterUmidadeRelativa: computed over exact reals. The source's single-precision `float` rounding is not modelled.
- Aht10Driver.Aht10.ObterTemperaturaCelsius: the same, over exact reals, without `float` rounding.
- The I2C controller handle `i2c_inst_t*` is an opaque number. The pins stay bytes, as in the source.
- PortaSerialDriver.PortaSerial.EnviarCaractere: the busy-wait on `uart_is_writable` before each character is not modelled. The transmitter counts as always free.
- `podeTransmitir` (PortaSerial/src/PortaSerial.cpp:150-156) is not modelled. It only forwards the writability query, and writability is not part of the UART model.
- `enviarValor` in PortaSerial/src/PortaSerial.h depends on `snprintf("%g")` of a double. Its own logic is just a call to enviarTexto on the result.
- `stdio_uart_deinit` acts on the stdio UART, not on the chosen one. The model records it in the chosen UART's call log anyway, so the configuration calls of one port can be read in order.
- `FIM_LINHA` is a static constant in the source. `EnviarTextoComNovaLinha` builds a fresh 3-character array holding the same bytes.
- The receive line is a finite list of polls followed by permanent silence. Characters that would arrive during a wait are the next `Char` polls. Exact microsecond timing within a wait is not modelled.
- `main.cpp` is not part of this model. It is display and loop glue around the two libraries.
