/**
 * The serial helper object: a UART handle (possibly absent), the baud rate
 * and the two pins it was built with. Every operation first checks that a
 * UART was given; what it does on the line is stated against the functions
 * of SerialText.
 */
module PortaSerialDriver {
  import opened Bits
  import opened PicoUart
  import opened SerialText

  class PortaSerial {
    const uartEscolhida: Uart?
    const taxaBaud: Uint32
    const pinoTx: Uint32
    const pinoRx: Uint32

    constructor (uartEscolhida: Uart?, taxaBaud: Uint32, pinoTx: Uint32, pinoRx: Uint32)
      ensures this.uartEscolhida == uartEscolhida && this.taxaBaud == taxaBaud
      ensures this.pinoTx == pinoTx && this.pinoRx == pinoRx
    {
      this.uartEscolhida := uartEscolhida;
      this.taxaBaud := taxaBaud;
      this.pinoTx := pinoTx;
      this.pinoRx := pinoRx;
    }

    /**
     * Hands the standard output over to the chosen UART. Fails without a UART,
     * and also, after configuring, when the baud rate is zero.
     */
    method Iniciar() returns (ok: bool)
      modifies uartEscolhida
      ensures ok == (uartEscolhida != null && taxaBaud != 0)
      ensures uartEscolhida != null ==>
        && uartEscolhida.calls == old(uartEscolhida.calls) + [StdioDeinit, StdioInitFull(taxaBaud, pinoTx, pinoRx)]
        && uartEscolhida.rx == old(uartEscolhida.rx) && uartEscolhida.tx == old(uartEscolhida.tx)
    {
      if uartEscolhida == null {
        return false;
      }
      uartEscolhida.Configure(StdioDeinit);
      uartEscolhida.Configure(StdioInitFull(taxaBaud, pinoTx, pinoRx));
      if taxaBaud == 0 {
        return false;
      }
      return true;
    }

    /** Sends one character once the transmitter is free. */
    method EnviarCaractere(caractere: char) returns (ok: bool)
      modifies uartEscolhida
      ensures ok == (uartEscolhida != null)
      ensures uartEscolhida != null ==>
        && uartEscolhida.tx == old(uartEscolhida.tx) + [caractere]
        && uartEscolhida.rx == old(uartEscolhida.rx) && uartEscolhida.calls == old(uartEscolhida.calls)
    {
      if uartEscolhida == null {
        return false;
      }
      uartEscolhida.PutcRaw(caractere);
      return true;
    }

    /**
     * Sends the characters of a NUL-terminated text, one at a time. Fails
     * without a text, and without a UART as soon as there is a character to
     * send; an empty text is sent successfully even without a UART.
     */
    method EnviarTexto(texto: array?<char>) returns (ok: bool)
      requires texto != null ==> '\0' in texto[..]
      modifies uartEscolhida
      ensures ok == (texto != null && (uartEscolhida != null || CString(texto[..]) == []))
      ensures uartEscolhida != null ==>
        && uartEscolhida.tx == old(uartEscolhida.tx) + (if texto == null then [] else CString(texto[..]))
        && uartEscolhida.rx == old(uartEscolhida.rx) && uartEscolhida.calls == old(uartEscolhida.calls)
    {
      if texto == null {
        return false;
      }
      ghost var s := CString(texto[..]);
      var i := 0;
      while texto[i] != '\0'
        invariant 0 <= i <= |s| < texto.Length
        invariant uartEscolhida == null ==> i == 0
        invariant uartEscolhida != null ==>
          && uartEscolhida.tx == old(uartEscolhida.tx) + s[..i]
          && uartEscolhida.rx == old(uartEscolhida.rx) && uartEscolhida.calls == old(uartEscolhida.calls)
        decreases texto.Length - i
      {
        assert texto[..][i] == texto[i];
        var enviado := EnviarCaractere(texto[i]);
        if !enviado {
          return false;
        }
        assert s[..i + 1] == s[..i] + [texto[i]];
        i := i + 1;
      }
      assert texto[..][i] == '\0';
      assert s[..i] == s;
      return true;
    }

    /** Sends a text followed by FimLinha; both must go out for success. */
    method EnviarTextoComNovaLinha(texto: array?<char>) returns (ok: bool)
      requires texto != null ==> '\0' in texto[..]
      modifies uartEscolhida
      ensures ok == (texto != null && uartEscolhida != null)
      ensures uartEscolhida != null ==>
        && uartEscolhida.tx == old(uartEscolhida.tx) + (if texto == null then [] else CString(texto[..]) + FimLinha)
        && uartEscolhida.rx == old(uartEscolhida.rx) && uartEscolhida.calls == old(uartEscolhida.calls)
    {
      ok := EnviarTexto(texto);
      if !ok {
        return false;
      }
      ghost var texto1 := CString(texto[..]);
      ghost var tx1 := if uartEscolhida != null then uartEscolhida.tx else [];
      var fimLinha := new char[3]['\r', '\n', '\0'];
      assert fimLinha[..] == ['\r', '\n', '\0'];
      FimLinhaText();
      ok := EnviarTexto(fimLinha);
      assert uartEscolhida != null ==> uartEscolhida.tx == tx1 + FimLinha;
      assert texto1 == CString(texto[..]);
    }

    /** A character is waiting on the chosen UART: exactly when draining would take something. */
    predicate HaDadosDisponiveis(): (r: bool)
      reads this, uartEscolhida
      ensures uartEscolhida == null ==> !r
      ensures uartEscolhida != null ==> (r <==> AfterDrain(uartEscolhida.rx) != uartEscolhida.rx)
    {
      uartEscolhida != null && uartEscolhida.IsReadable()
    }

    /**
     * Takes the waiting character, if there is one; otherwise fails and
     * hands `caractere` back unchanged.
     */
    method LerCaractere(caractere: char) returns (ok: bool, lido: char)
      modifies uartEscolhida
      ensures ok == old(HaDadosDisponiveis())
      ensures ok ==> lido == old(uartEscolhida.rx)[0].c && uartEscolhida.rx == old(uartEscolhida.rx)[1..]
      ensures !ok ==> lido == caractere
      ensures uartEscolhida != null ==>
        && (!ok ==> uartEscolhida.rx == old(uartEscolhida.rx))
        && uartEscolhida.tx == old(uartEscolhida.tx) && uartEscolhida.calls == old(uartEscolhida.calls)
    {
      lido := caractere;
      if !HaDadosDisponiveis() {
        return false, lido;
      }
      lido := uartEscolhida.Getc();
      ok := true;
    }

    /**
     * Reads one line into destino, a buffer of tamanhoMaximo characters, as
     * ReadLine describes; the line is NUL-terminated unless nothing arrived
     * before the silence limit. Returns the number of characters stored, and
     * 0 without touching anything when there is no buffer, no room or no UART.
     */
    method LerTexto(destino: array?<char>, tamanhoMaximo: nat, delimitador: char := '\n') returns (n: nat)
      requires destino != null ==> tamanhoMaximo <= destino.Length
      modifies destino, uartEscolhida
      ensures destino == null || tamanhoMaximo == 0 || uartEscolhida == null ==>
        && n == 0
        && (destino != null ==> destino[..] == old(destino[..]))
        && (uartEscolhida != null ==> uartEscolhida.rx == old(uartEscolhida.rx))
      ensures destino != null && tamanhoMaximo > 0 && uartEscolhida != null ==>
        var o := ReadLine(old(uartEscolhida.rx), tamanhoMaximo - 1, delimitador);
        && n == |o.stored| < tamanhoMaximo
        && destino[..n] == o.stored
        && (o.Terminated() ==> destino[n] == '\0' && destino[n + 1..] == old(destino[n + 1..]))
        && (!o.Terminated() ==> destino[..] == old(destino[..]))
        && uartEscolhida.rx == o.rest
      ensures uartEscolhida != null ==>
        uartEscolhida.tx == old(uartEscolhida.tx) && uartEscolhida.calls == old(uartEscolhida.calls)
    {
      if destino == null || tamanhoMaximo == 0 || uartEscolhida == null {
        return 0;
      }
      n := LerLinha(uartEscolhida, destino, tamanhoMaximo - 1, delimitador);
    }

    /** The line reader on a present UART and a buffer with room for limite characters and the NUL. */
    static method LerLinha(u: Uart, destino: array<char>, limite: nat, delimitador: char) returns (n: nat)
      requires limite < destino.Length
      modifies destino, u
      ensures var o := ReadLine(old(u.rx), limite, delimitador);
        && n == |o.stored|
        && destino[..n] == o.stored
        && (o.Terminated() ==> destino[n] == '\0' && destino[n + 1..] == old(destino[n + 1..]))
        && (!o.Terminated() ==> destino[..] == old(destino[..]))
        && u.rx == o.rest
      ensures u.tx == old(u.tx) && u.calls == old(u.calls)
    {
      var indice, terminou := LerAteParar(u, destino, limite, delimitador);
      if !terminou {
        assert destino[..] == old(destino[..]);
        return 0;
      }
      ghost var lidos := destino[..indice];
      destino[indice] := '\0';
      n := indice;
      assert destino[..n] == lidos;
      assert destino[n + 1..] == old(destino[n + 1..]);
    }

    /**
     * The loop of the line reader: fills destino from index 0 and reports
     * whether a NUL is due, i.e. whether the read did not time out with nothing.
     */
    static method LerAteParar(u: Uart, destino: array<char>, limite: nat, delimitador: char) returns (indice: nat, terminou: bool)
      requires limite < destino.Length
      modifies destino, u
      ensures var o := ReadLine(old(u.rx), limite, delimitador);
        && indice == |o.stored| && destino[..indice] == o.stored
        && terminou == o.Terminated() && u.rx == o.rest
      ensures forall j :: indice <= j < destino.Length ==> destino[j] == old(destino[j])
      ensures u.tx == old(u.tx) && u.calls == old(u.calls)
    {
      ghost var alvo := ReadLine(u.rx, limite, delimitador);
      ghost var guardados: seq<char> := [];
      indice := 0;
      var tempoSemDadosUs: nat := 0;
      while indice < limite
        invariant indice <= limite && tempoSemDadosUs < TempoMaximoSemDadosUs
        invariant |guardados| == indice && destino[..indice] == guardados
        invariant Scan(u.rx, limite, delimitador, guardados, tempoSemDadosUs) == alvo
        invariant forall j :: indice <= j < destino.Length ==> destino[j] == old(destino[j])
        invariant u.tx == old(u.tx) && u.calls == old(u.calls)
        decreases |u.rx|, TempoMaximoSemDadosUs - tempoSemDadosUs
      {
        var parou, comNul;
        indice, tempoSemDadosUs, parou, comNul, guardados :=
          AguardarCaractere(u, destino, indice, tempoSemDadosUs, limite, delimitador, guardados);
        if parou {
          return indice, comNul;
        }
      }
      terminou := true;
    }

    /**
     * One pass of the line reader's loop: waits for a character, then either
     * stops (silence limit or delimiter), skips a carriage return, or stores
     * the character at indice. parou says the loop ends here, and comNul
     * whether a NUL is then due.
     */
    static method AguardarCaractere(u: Uart, destino: array<char>, indice: nat, tempoSemDadosUs: nat, limite: nat,
                                    delimitador: char, ghost guardados: seq<char>)
      returns (novoIndice: nat, novoTempoUs: nat, parou: bool, comNul: bool, ghost novos: seq<char>)
      requires indice < limite < destino.Length && tempoSemDadosUs < TempoMaximoSemDadosUs
      requires |guardados| == indice && destino[..indice] == guardados
      modifies destino, u
      ensures indice <= novoIndice <= limite && |novos| == novoIndice && destino[..novoIndice] == novos
      ensures forall j :: novoIndice <= j < destino.Length ==> destino[j] == old(destino[j])
      ensures u.tx == old(u.tx) && u.calls == old(u.calls)
      ensures var o := Scan(old(u.rx), limite, delimitador, guardados, tempoSemDadosUs);
        parou ==> o.stored == novos && o.rest == u.rx && comNul == o.Terminated()
      ensures !parou ==>
        && novoTempoUs < TempoMaximoSemDadosUs
        && Scan(u.rx, limite, delimitador, novos, novoTempoUs) == Scan(old(u.rx), limite, delimitador, guardados, tempoSemDadosUs)
        && (|u.rx| < |old(u.rx)| || (|u.rx| == |old(u.rx)| && novoTempoUs > tempoSemDadosUs))
    {
      ghost var antes := u.rx;
      novos := guardados;
      novoIndice := indice;
      comNul := true;
      var dadosDisponiveis := u.IsReadableWithinUs(AguardoCaractereTextoUs);
      if !dadosDisponiveis {
        ScanWait(antes, limite, delimitador, guardados, tempoSemDadosUs);
        novoTempoUs := tempoSemDadosUs + AguardoCaractereTextoUs;
        parou := novoTempoUs >= TempoMaximoSemDadosUs;
        if parou && indice == 0 {
          comNul := false;
        }
        return;
      }
      ScanChar(antes, limite, delimitador, guardados, tempoSemDadosUs);
      novoTempoUs := 0;
      var caractereLido := u.Getc();
      if caractereLido == delimitador {
        parou := true;
        return;
      }
      parou := false;
      if caractereLido == '\r' {
        return;
      }
      destino[indice] := caractereLido;
      novos := guardados + [caractereLido];
      novoIndice := indice + 1;
      assert destino[..novoIndice] == novos;
    }

    /** Throws away every character already waiting, up to the first empty poll. */
    method LimparBuffer()
      modifies uartEscolhida
      ensures uartEscolhida != null ==>
        && uartEscolhida.rx == AfterDrain(old(uartEscolhida.rx))
        && uartEscolhida.tx == old(uartEscolhida.tx) && uartEscolhida.calls == old(uartEscolhida.calls)
    {
      if uartEscolhida == null {
        return;
      }
      while HaDadosDisponiveis()
        invariant AfterDrain(uartEscolhida.rx) == AfterDrain(old(uartEscolhida.rx))
        invariant uartEscolhida.tx == old(uartEscolhida.tx) && uartEscolhida.calls == old(uartEscolhida.calls)
        decreases |uartEscolhida.rx|
      {
        var leituraOk, descartado := LerCaractere('\0');
        if !leituraOk {
          break;
        }
      }
    }

    /** Shuts the chosen UART down and starts it again as Iniciar does. */
    method Reiniciar() returns (ok: bool)
      modifies uartEscolhida
      ensures ok == (uartEscolhida != null && taxaBaud != 0)
      ensures uartEscolhida != null ==>
        && uartEscolhida.calls == old(uartEscolhida.calls) + [Deinit, StdioDeinit, StdioInitFull(taxaBaud, pinoTx, pinoRx)]
        && uartEscolhida.rx == old(uartEscolhida.rx) && uartEscolhida.tx == old(uartEscolhida.tx)
    {
      if uartEscolhida == null {
        return false;
      }
      uartEscolhida.Configure(Deinit);
      ok := Iniciar();
    }
  }
}
