/**
 * The part of the board's UART that the serial helper talks to, reduced to
 * what can be observed: the receive line as a sequence of polls, the
 * transmitted characters, and the (re)configuration calls made on it.
 *
 * The receive line is a list of what successive polls find: `Char(c)`, a
 * character c is waiting, or `Idle`, nothing arrives during one timed wait.
 * An exhausted list means the line stays silent from then on.
 */
module PicoUart {
  import opened Bits

  datatype Poll = Char(c: char) | Idle

  /** Configuration calls: stdio_uart_deinit, stdio_uart_init_full, uart_deinit. */
  datatype Call =
    | StdioDeinit
    | StdioInitFull(baudrate: Uint32, txPin: Uint32, rxPin: Uint32)
    | Deinit

  class Uart {
    var rx: seq<Poll>
    var tx: seq<char>
    var calls: seq<Call>

    constructor (incoming: seq<Poll>)
      ensures rx == incoming && tx == [] && calls == []
    {
      rx := incoming;
      tx := [];
      calls := [];
    }

    /** uart_is_readable: a character is waiting right now. */
    predicate IsReadable()
      reads this
    {
      rx != [] && rx[0].Char?
    }

    /**
     * uart_is_readable_within_us: true at once if a character is waiting;
     * otherwise the wait elapses, using up one `Idle` poll of the line.
     */
    method IsReadableWithinUs(us: nat) returns (ready: bool)
      modifies this`rx
      ensures ready == old(IsReadable())
      ensures rx == if ready || old(rx) == [] then old(rx) else old(rx)[1..]
    {
      ready := IsReadable();
      if !ready && rx != [] {
        rx := rx[1..];
      }
    }

    /** uart_getc on a line that has a character waiting. */
    method Getc() returns (c: char)
      requires IsReadable()
      modifies this`rx
      ensures c == old(rx)[0].c && rx == old(rx)[1..]
    {
      c := rx[0].c;
      rx := rx[1..];
    }

    /** uart_putc_raw; waiting for the transmitter to be free is not modelled. */
    method PutcRaw(c: char)
      modifies this`tx
      ensures tx == old(tx) + [c]
    {
      tx := tx + [c];
    }

    method Configure(call: Call)
      modifies this`calls
      ensures calls == old(calls) + [call]
    {
      calls := calls + [call];
    }
  }
}
