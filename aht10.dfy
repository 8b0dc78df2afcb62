/**
 * The AHT10 driver object. Its three mutable fields are the ones the driver
 * updates (the "reading available" flag and the two raw samples); everything
 * it does on the I2C bus, and every blocking wait, is appended to a ghost
 * trace of protocol events.
 */
module Aht10Driver {
  import opened Bits
  import opened Aht10Protocol

  class Aht10 {
    /** The I2C controller the sensor hangs on, as an opaque handle. */
    const controladorI2c: nat
    const pinoSda: Byte
    const pinoScl: Byte
    const enderecoI2c: Byte
    var leituraDisponivel: bool
    var amostragemTemperatura: Uint32
    var amostragemUmidade: Uint32
    /** Everything the driver has done on the bus, oldest first. */
    ghost var trace: seq<Event>

    /** Both samples are 20-bit magnitudes. */
    ghost predicate Valid()
      reads this
    {
      amostragemTemperatura < RawRange && amostragemUmidade < RawRange
    }

    /** The bytes of the most recent read, if the trace ends with one. */
    ghost function LastReply(): seq<Byte>
      reads this
    {
      if trace != [] && trace[|trace| - 1].Read? then trace[|trace| - 1].bytes else []
    }

    constructor (controladorI2c: nat, pinoSda: Byte, pinoScl: Byte, endereco: Byte := EnderecoPadrao)
      ensures Valid()
      ensures this.controladorI2c == controladorI2c && this.pinoSda == pinoSda && this.pinoScl == pinoScl
      ensures enderecoI2c == endereco
      ensures !leituraDisponivel && amostragemTemperatura == 0 && amostragemUmidade == 0
      ensures trace == []
    {
      this.controladorI2c := controladorI2c;
      this.pinoSda := pinoSda;
      this.pinoScl := pinoScl;
      enderecoI2c := endereco;
      leituraDisponivel := false;
      amostragemTemperatura := 0;
      amostragemUmidade := 0;
      trace := [];
    }

    /**
     * Sets up the bus and both pins, clears the state, resets the device,
     * waits once more and sends the calibration command.
     */
    method Inicializar()
      modifies this
      ensures Valid()
      ensures !leituraDisponivel && amostragemTemperatura == 0 && amostragemUmidade == 0
      ensures trace == old(trace) + InitSequence(controladorI2c, pinoSda, pinoScl, enderecoI2c)
    {
      trace := trace + [BusInit(controladorI2c, I2cBaudrate), PinFunctionI2c(pinoSda), PinFunctionI2c(pinoScl)];
      leituraDisponivel := false;
      amostragemTemperatura := 0;
      amostragemUmidade := 0;
      Resetar();
      SleepMs(ResetSettleMs);
      Calibrar();
    }

    /** Relative humidity of the last sample, in percent. */
    function ObterUmidadeRelativa(): (pct: real)
      reads this
      ensures Valid() ==> 0.0 <= pct < 100.0
      ensures pct * (RawRange as real) == (amostragemUmidade as real) * 100.0
    {
      UmidadeRelativa(amostragemUmidade)
    }

    /** Temperature of the last sample, in degrees Celsius. */
    function ObterTemperaturaCelsius(): (c: real)
      reads this
      ensures Valid() ==> -50.0 <= c < 150.0
      ensures (c + 50.0) * (RawRange as real) == (amostragemTemperatura as real) * 200.0
    {
      TemperaturaCelsius(amostragemTemperatura)
    }

    method EnviarComandoMedicao()
      modifies this`trace
      ensures trace == old(trace) + [Write(controladorI2c, enderecoI2c, [0xAC, 0x33, 0x00])]
    {
      EnviarComandos(MeasureFrame());
    }

    /** Reads the 6-byte reply into buf; the bus may hand back any bytes at all. */
    method LerDados(buf: array<Byte>)
      requires buf.Length == ReplyLength
      modifies this`trace, buf
      ensures trace == old(trace) + [Read(controladorI2c, enderecoI2c, buf[..])]
    {
      buf[0], buf[1], buf[2], buf[3], buf[4], buf[5] := *, *, *, *, *, *;
      trace := trace + [Read(controladorI2c, enderecoI2c, buf[..])];
    }

    /** Decodes a reply into the two sample fields. */
    method ProcessarDados(buf: array<Byte>)
      requires buf.Length == ReplyLength
      modifies this`amostragemUmidade, this`amostragemTemperatura
      ensures Valid()
      ensures amostragemUmidade == HumidityRaw(buf[..])
      ensures amostragemTemperatura == TemperatureRaw(buf[..])
    {
      amostragemUmidade := HumidityRaw(buf[..]);
      amostragemTemperatura := TemperatureRaw(buf[..]);
    }

    /**
     * One measurement: command, 80 ms conversion wait, 6-byte read, decode.
     * Always reports success, whatever came back from the bus.
     */
    method Disponivel() returns (ok: bool)
      modifies this
      ensures ok && leituraDisponivel && Valid()
      ensures |LastReply()| == ReplyLength
      ensures trace == old(trace) + MeasureSequence(controladorI2c, enderecoI2c, LastReply())
      ensures amostragemUmidade == HumidityRaw(LastReply())
      ensures amostragemTemperatura == TemperatureRaw(LastReply())
    {
      leituraDisponivel := false;
      EnviarComandoMedicao();
      SleepMs(MeasureSettleMs);
      var buf := new Byte[ReplyLength];
      LerDados(buf);
      ProcessarDados(buf);
      leituraDisponivel := true;
      ok := leituraDisponivel;
    }

    method Calibrar()
      modifies this`trace
      ensures trace == old(trace) + [Write(controladorI2c, enderecoI2c, [0xE1, 0x08, 0x00])]
    {
      EnviarComandos(CalibrationFrame());
    }

    /** Sends the soft-reset command and waits for the device to settle. */
    method Resetar()
      modifies this`trace
      ensures trace == old(trace) + [Write(controladorI2c, enderecoI2c, [0xBA, 0x00, 0x00]), Sleep(20)]
    {
      EnviarComandos(SoftResetFrame());
      SleepMs(ResetSettleMs);
    }

    /** Writes one command frame to the device address. */
    method EnviarComandos(comandos: seq<Byte>)
      modifies this`trace
      ensures trace == old(trace) + [Write(controladorI2c, enderecoI2c, comandos)]
    {
      trace := trace + [Write(controladorI2c, enderecoI2c, comandos)];
    }

    /** The board's blocking millisecond wait. */
    method SleepMs(ms: nat)
      modifies this`trace
      ensures trace == old(trace) + [Sleep(ms)]
    {
      trace := trace + [Sleep(ms)];
    }
  }
}
