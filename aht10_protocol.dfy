/**
 * The AHT10 wire protocol: the device address, the three command frames, the
 * layout of the 6-byte measurement reply and the conversion of its two 20-bit
 * raw magnitudes into relative humidity and degrees Celsius.
 *
 * Reply layout (byte 0 is the status byte and is not decoded):
 *   humidity    = byte1[7..0] byte2[7..0] byte3[7..4]
 *   temperature = byte3[3..0] byte4[7..0] byte5[7..0]
 */
module Aht10Protocol {
  import opened Bits

  type Byte = Uint8

  const EnderecoPadrao: Byte := 0x38

  const CmdCalibration: Byte := 0xE1
  const CmdCalibrationArg: Byte := 0x08
  const CmdCalibrationArg2: Byte := 0x00
  const CmdMeasure: Byte := 0xAC
  const CmdMeasureArg: Byte := 0x33
  const CmdMeasureArg2: Byte := 0x00
  const CmdSoftReset: Byte := 0xBA
  const CmdSoftResetArg: Byte := 0x00
  const CmdSoftResetArg2: Byte := 0x00

  /** Bus clock the driver asks for, in Hz. */
  const I2cBaudrate: nat := 100000
  /** Settle time after the soft reset, in ms (slept twice by the initialisation). */
  const ResetSettleMs: nat := 20
  /** Conversion time between the measurement command and the read, in ms. */
  const MeasureSettleMs: nat := 80
  /** Size of the measurement reply, in bytes. */
  const ReplyLength: nat := 6

  /** 2^20: one more than the largest raw magnitude. */
  const RawRange: nat := 0x10_0000

  function CalibrationFrame(): (f: seq<Byte>)
    ensures f == [0xE1, 0x08, 0x00]
  {
    [CmdCalibration, CmdCalibrationArg, CmdCalibrationArg2]
  }

  function MeasureFrame(): (f: seq<Byte>)
    ensures f == [0xAC, 0x33, 0x00]
  {
    [CmdMeasure, CmdMeasureArg, CmdMeasureArg2]
  }

  function SoftResetFrame(): (f: seq<Byte>)
    ensures f == [0xBA, 0x00, 0x00]
  {
    [CmdSoftReset, CmdSoftResetArg, CmdSoftResetArg2]
  }

  /**
   * The humidity magnitude, computed with the operators of the driver:
   * `(uint32_t)buf[1] << 12 | (uint32_t)buf[2] << 4 | ((buf[3] >> 4) & 0x0F)`,
   * with `>>` on a byte as Shr.
   */
  function HumidityRaw(buf: seq<Byte>): (h: Uint32)
    requires |buf| == ReplyLength
    ensures h == buf[1] as int * 0x1000 + buf[2] as int * 0x10 + buf[3] as int / 0x10
    ensures h < RawRange
  {
    var b1: int, b2: int, b3: int := buf[1], buf[2], buf[3];
    Pow2Values();
    var hi := Shl(buf[1], 12);
    var mid := Shl(buf[2], 4);
    var nibble := Shr(buf[3], 4);
    assert nibble == b3 / 0x10;
    var lo := And(nibble, 0x0F);
    AndMask(nibble, 0, nibble, 4);
    OrAdd(hi, mid, b1, 12);
    OrAdd(hi + mid, lo, b1 * 0x100 + b2, 4);
    Or(Or(hi, mid), lo)
  }

  /**
   * The temperature magnitude, computed with the operators of the driver:
   * `(uint32_t)(buf[3] & 0x0F) << 16 | (uint32_t)buf[4] << 8 | buf[5]`.
   */
  function TemperatureRaw(buf: seq<Byte>): (t: Uint32)
    requires |buf| == ReplyLength
    ensures t == (buf[3] as int % 0x10) * 0x1_0000 + buf[4] as int * 0x100 + buf[5] as int
    ensures t < RawRange
  {
    var b3: int, b4: int, b5: int := buf[3], buf[4], buf[5];
    Pow2Values();
    var nibble := b3 % 0x10;
    AndMask(b3, b3 / 0x10, nibble, 4);
    var hi := Shl(And(buf[3], 0x0F), 16);
    var mid := Shl(buf[4], 8);
    OrAdd(hi, mid, nibble, 16);
    OrAdd(hi + mid, b5, nibble * 0x100 + b4, 8);
    Or(Or(hi, mid), buf[5])
  }

  /** A reply carrying the given status byte and raw magnitudes, laid out as the device sends it. */
  function Pack(status: Byte, h: nat, t: nat): (buf: seq<Byte>)
    requires h < RawRange && t < RawRange
    ensures |buf| == ReplyLength && buf[0] == status
  {
    [status, h / 0x1000, (h / 0x10) % 0x100, (h % 0x10) * 0x10 + t / 0x1_0000, (t / 0x100) % 0x100, t % 0x100]
  }

  /** The status byte plays no part in decoding. */
  lemma StatusIgnored(buf: seq<Byte>, other: seq<Byte>)
    requires |buf| == ReplyLength && |other| == ReplyLength
    requires buf[1..] == other[1..]
    ensures HumidityRaw(buf) == HumidityRaw(other)
    ensures TemperatureRaw(buf) == TemperatureRaw(other)
  {
    assert buf[1] == other[1] && buf[2] == other[2] && buf[3] == other[3];
    assert buf[4] == other[4] && buf[5] == other[5];
  }

  /** A 20-bit humidity split into the byte, byte and nibble Pack lays out. */
  lemma HumidityDigits(h: nat)
    requires h < RawRange
    ensures h / 0x1000 < 0x100
    ensures h == (h / 0x1000) * 0x1000 + ((h / 0x10) % 0x100) * 0x10 + h % 0x10
  {
    var q := h / 0x10;
    assert h == q * 0x10 + h % 0x10;
    assert q == (q / 0x100) * 0x100 + q % 0x100;
    assert q / 0x100 == h / 0x1000;
  }

  /** A 20-bit temperature split into the nibble, byte and byte Pack lays out. */
  lemma TemperatureDigits(t: nat)
    requires t < RawRange
    ensures t / 0x1_0000 < 0x10
    ensures t == (t / 0x1_0000) * 0x1_0000 + ((t / 0x100) % 0x100) * 0x100 + t % 0x100
  {
    var q := t / 0x100;
    assert t == q * 0x100 + t % 0x100;
    assert q == (q / 0x100) * 0x100 + q % 0x100;
    assert q / 0x100 == t / 0x1_0000;
  }

  /** The shared byte: its high nibble and low nibble come back apart. */
  lemma SharedByte(hi: nat, lo: nat)
    requires hi < 0x10 && lo < 0x10
    ensures (hi * 0x10 + lo) / 0x10 == hi && (hi * 0x10 + lo) % 0x10 == lo
  {
  }

  /** Decoding a packed reply gives back both magnitudes. */
  lemma DecodePack(status: Byte, h: nat, t: nat)
    requires h < RawRange && t < RawRange
    ensures HumidityRaw(Pack(status, h, t)) == h
    ensures TemperatureRaw(Pack(status, h, t)) == t
  {
    var buf := Pack(status, h, t);
    HumidityDigits(h);
    TemperatureDigits(t);
    SharedByte(h % 0x10, t / 0x1_0000);
    assert buf[3] / 0x10 == h % 0x10 && buf[3] % 0x10 == t / 0x1_0000;
  }

  /** The humidity fields of a reply come back out of the magnitude they make up. */
  lemma HumidityFields(h: nat, b1: nat, b2: nat, hi: nat)
    requires b1 < 0x100 && b2 < 0x100 && hi < 0x10
    requires h == (b1 * 0x100 + b2) * 0x10 + hi
    ensures h / 0x1000 == b1 && (h / 0x10) % 0x100 == b2 && h % 0x10 == hi
  {
    assert h / 0x10 == b1 * 0x100 + b2;
    assert h == b1 * 0x1000 + (b2 * 0x10 + hi);
  }

  /** The temperature fields of a reply come back out of the magnitude they make up. */
  lemma TemperatureFields(t: nat, lo: nat, b4: nat, b5: nat)
    requires lo < 0x10 && b4 < 0x100 && b5 < 0x100
    requires t == (lo * 0x100 + b4) * 0x100 + b5
    ensures t / 0x1_0000 == lo && (t / 0x100) % 0x100 == b4 && t % 0x100 == b5
  {
    assert t / 0x100 == lo * 0x100 + b4;
    assert t == lo * 0x1_0000 + (b4 * 0x100 + b5);
  }

  /** Every reply is the packing of its own status byte and decoded magnitudes. */
  lemma PackDecode(buf: seq<Byte>)
    requires |buf| == ReplyLength
    ensures Pack(buf[0], HumidityRaw(buf), TemperatureRaw(buf)) == buf
  {
    var b1: nat, b2: nat, b3: nat, b4: nat, b5: nat := buf[1], buf[2], buf[3], buf[4], buf[5];
    var hi, lo := b3 / 0x10, b3 % 0x10;
    HumidityFields(HumidityRaw(buf), b1, b2, hi);
    TemperatureFields(TemperatureRaw(buf), lo, b4, b5);
    var p := Pack(buf[0], HumidityRaw(buf), TemperatureRaw(buf));
    assert p[3] == hi * 0x10 + lo == buf[3];
    assert p[1] == buf[1] && p[2] == buf[2] && p[4] == buf[4] && p[5] == buf[5];
  }

  /**
   * A worked reply: byte 3 (0x95) gives its high nibble to the humidity and
   * its low nibble to the temperature, so about 10 % and 15 degrees.
   */
  lemma ExampleReply()
    ensures var buf: seq<Byte> := [0x00, 0x19, 0x99, 0x95, 0x33, 0x33];
      && HumidityRaw(buf) == 0x1_9999
      && TemperatureRaw(buf) == 0x5_3333
      && 9.99 < UmidadeRelativa(HumidityRaw(buf)) < 10.0
      && 14.99 < TemperaturaCelsius(TemperatureRaw(buf)) < 15.0
  {
  }

  /** Relative humidity in percent, over exact reals: raw * 100 / 2^20. */
  function UmidadeRelativa(raw: Uint32): (pct: real)
    ensures raw < RawRange ==> 0.0 <= pct < 100.0
    ensures pct * (RawRange as real) == (raw as real) * 100.0
  {
    (raw as real * 100.0) / (RawRange as real)
  }

  /** Temperature in degrees Celsius, over exact reals: raw * 200 / 2^20 - 50. */
  function TemperaturaCelsius(raw: Uint32): (c: real)
    ensures raw < RawRange ==> -50.0 <= c < 150.0
    ensures (c + 50.0) * (RawRange as real) == (raw as real) * 200.0
  {
    (raw as real * 200.0) / (RawRange as real) - 50.0
  }

  /** Both conversions are strictly increasing in the raw magnitude. */
  lemma ConversionsMonotonic(a: Uint32, b: Uint32)
    ensures a <= b ==> UmidadeRelativa(a) <= UmidadeRelativa(b)
    ensures a <= b ==> TemperaturaCelsius(a) <= TemperaturaCelsius(b)
    ensures a < b ==> UmidadeRelativa(a) < UmidadeRelativa(b)
    ensures a < b ==> TemperaturaCelsius(a) < TemperaturaCelsius(b)
  {
  }

  /**
   * A bus-level step of the driver. `Read` carries the bytes that came back.
   * `Sleep` is a blocking wait of at least the given number of milliseconds.
   */
  datatype Event =
    | BusInit(bus: nat, baudrate: nat)
    | PinFunctionI2c(pin: Byte)
    | Write(bus: nat, address: Byte, bytes: seq<Byte>)
    | Sleep(ms: nat)
    | Read(bus: nat, address: Byte, bytes: seq<Byte>)

  /** The frames written, in order. */
  function Writes(trace: seq<Event>): seq<seq<Byte>>
  {
    if trace == [] then []
    else (if trace[0].Write? then [trace[0].bytes] else []) + Writes(trace[1..])
  }

  /** The replies read, in order. */
  function Reads(trace: seq<Event>): seq<seq<Byte>>
  {
    if trace == [] then []
    else (if trace[0].Read? then [trace[0].bytes] else []) + Reads(trace[1..])
  }

  /** The total time slept, in ms. */
  function SleptMs(trace: seq<Event>): nat
  {
    if trace == [] then 0
    else (if trace[0].Sleep? then trace[0].ms else 0) + SleptMs(trace[1..])
  }

  /** What the initialisation does on the bus: set it up, reset, wait, calibrate. */
  function InitSequence(bus: nat, sda: Byte, scl: Byte, address: Byte): seq<Event>
  {
    [BusInit(bus, I2cBaudrate), PinFunctionI2c(sda), PinFunctionI2c(scl),
     Write(bus, address, SoftResetFrame()), Sleep(ResetSettleMs),
     Sleep(ResetSettleMs),
     Write(bus, address, CalibrationFrame())]
  }

  /** What one measurement does on the bus: command, conversion wait, 6-byte read. */
  function MeasureSequence(bus: nat, address: Byte, reply: seq<Byte>): seq<Event>
  {
    [Write(bus, address, MeasureFrame()), Sleep(MeasureSettleMs), Read(bus, address, reply)]
  }

  lemma {:induction false} WritesAppend(a: seq<Event>, b: seq<Event>)
    ensures Writes(a + b) == Writes(a) + Writes(b)
  {
    if a != [] {
      assert (a + b)[1..] == a[1..] + b;
      WritesAppend(a[1..], b);
    } else {
      assert a + b == b;
    }
  }

  lemma {:induction false} ReadsAppend(a: seq<Event>, b: seq<Event>)
    ensures Reads(a + b) == Reads(a) + Reads(b)
  {
    if a != [] {
      assert (a + b)[1..] == a[1..] + b;
      ReadsAppend(a[1..], b);
    } else {
      assert a + b == b;
    }
  }

  lemma {:induction false} SleptMsAppend(a: seq<Event>, b: seq<Event>)
    ensures SleptMs(a + b) == SleptMs(a) + SleptMs(b)
  {
    if a != [] {
      assert (a + b)[1..] == a[1..] + b;
      SleptMsAppend(a[1..], b);
    } else {
      assert a + b == b;
    }
  }

  /**
   * The initialisation writes exactly the reset frame and then the calibration
   * frame, reads nothing, and waits 40 ms between the two writes.
   */
  lemma InitSequenceShape(bus: nat, sda: Byte, scl: Byte, address: Byte)
    ensures var s := InitSequence(bus, sda, scl, address);
      && Writes(s) == [[0xBA, 0x00, 0x00], [0xE1, 0x08, 0x00]]
      && Reads(s) == []
      && s[3] == Write(bus, address, [0xBA, 0x00, 0x00])
      && s[6] == Write(bus, address, [0xE1, 0x08, 0x00])
      && SleptMs(s[4..6]) == 2 * ResetSettleMs
  {
    var setup := [BusInit(bus, I2cBaudrate), PinFunctionI2c(sda), PinFunctionI2c(scl)];
    var reset := [Write(bus, address, SoftResetFrame())];
    var waits := [Sleep(ResetSettleMs), Sleep(ResetSettleMs)];
    var calib := [Write(bus, address, CalibrationFrame())];
    var s := InitSequence(bus, sda, scl, address);
    assert s == setup + reset + waits + calib;
    assert s[4..6] == waits;
    SetupQuiet(bus, sda, scl);
    WaitsQuiet();
    OneWrite(bus, address, SoftResetFrame());
    OneWrite(bus, address, CalibrationFrame());
    WritesAppend(setup, reset);
    WritesAppend(setup + reset, waits);
    WritesAppend(setup + reset + waits, calib);
    ReadsAppend(setup, reset);
    ReadsAppend(setup + reset, waits);
    ReadsAppend(setup + reset + waits, calib);
  }

  /** Setting up the bus and the pins neither writes nor reads. */
  lemma SetupQuiet(bus: nat, sda: Byte, scl: Byte)
    ensures var setup := [BusInit(bus, I2cBaudrate), PinFunctionI2c(sda), PinFunctionI2c(scl)];
      Writes(setup) == [] && Reads(setup) == []
  {
    var setup := [BusInit(bus, I2cBaudrate), PinFunctionI2c(sda), PinFunctionI2c(scl)];
    assert setup[1..] == [PinFunctionI2c(sda), PinFunctionI2c(scl)];
    assert setup[1..][1..] == [PinFunctionI2c(scl)];
    assert setup[1..][1..][1..] == [];
    assert Writes(setup[1..][1..]) == [] && Reads(setup[1..][1..]) == [];
    assert Writes(setup[1..]) == [] && Reads(setup[1..]) == [];
  }

  /** The two reset waits neither write nor read, and last 40 ms together. */
  lemma WaitsQuiet()
    ensures var waits := [Sleep(ResetSettleMs), Sleep(ResetSettleMs)];
      Writes(waits) == [] && Reads(waits) == [] && SleptMs(waits) == 2 * ResetSettleMs
  {
    var waits := [Sleep(ResetSettleMs), Sleep(ResetSettleMs)];
    assert waits[1..] == [Sleep(ResetSettleMs)];
    assert waits[1..][1..] == [];
    assert Writes(waits[1..][1..]) == [] && Reads(waits[1..][1..]) == [] && SleptMs(waits[1..][1..]) == 0;
    assert Writes(waits[1..]) == [] && Reads(waits[1..]) == [] && SleptMs(waits[1..]) == ResetSettleMs;
  }

  /** A single write shows up as exactly its frame. */
  lemma OneWrite(bus: nat, address: Byte, frame: seq<Byte>)
    ensures Writes([Write(bus, address, frame)]) == [frame] && Reads([Write(bus, address, frame)]) == []
  {
    assert [Write(bus, address, frame)][1..] == [];
  }

  /**
   * One measurement writes exactly the measurement frame, then waits 80 ms,
   * then reads the reply once, all at the same address.
   */
  lemma MeasureSequenceShape(bus: nat, address: Byte, reply: seq<Byte>)
    ensures var s := MeasureSequence(bus, address, reply);
      && Writes(s) == [[0xAC, 0x33, 0x00]]
      && Reads(s) == [reply]
      && s[0] == Write(bus, address, [0xAC, 0x33, 0x00])
      && s[1] == Sleep(80)
      && s[2] == Read(bus, address, reply)
  {
    var s := MeasureSequence(bus, address, reply);
    assert s[1..] == [Sleep(MeasureSettleMs), Read(bus, address, reply)];
    assert s[1..][1..] == [Read(bus, address, reply)];
    assert s[1..][1..][1..] == [];
    assert Writes(s[1..][1..]) == [] && Reads(s[1..][1..]) == [reply];
    assert Writes(s[1..]) == [] && Reads(s[1..]) == [reply];
  }
}
