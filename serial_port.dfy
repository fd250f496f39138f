/** The serial line to the board (pyserial's `Serial`, opened with
    `timeout=0`). Everything the board will ever send is fixed in advance as
    `input`; `pos` is the read cursor and `arrived` how much of `input` has
    reached the host so far, so a read returns only bytes that are already
    there. Writes append to `output`. */
module SerialPort {

  /** A byte on the wire, written as the character with the same code so
      that protocol literals can be written as strings. */
  type byte = c: char | c < '\U{100}'

  function Min(a: nat, b: nat): nat { if a <= b then a else b }

  function Max(a: nat, b: nat): nat { if a <= b then b else a }

  class Port {
    /** Every byte the board sends, in order. */
    const input: seq<byte>
    /** How many of them the host has read. */
    var pos: nat
    /** How many of them have reached the host. */
    var arrived: nat
    /** Every byte the host has written, in order. */
    var output: seq<byte>
    var isOpen: bool

    ghost predicate Valid()
      reads this
    {
      pos <= arrived <= |input|
    }

    /** The bytes the board has sent that the host has not read yet,
        whether or not they have arrived. */
    ghost function Remaining(): seq<byte>
      reads this
      requires Valid()
    {
      input[pos..]
    }

    /** Opens the port; `waiting` bytes are already in the receive buffer. */
    constructor (input: seq<byte>, waiting: nat)
      requires waiting <= |input|
      ensures Valid()
      ensures this.input == input && pos == 0 && arrived == waiting
      ensures output == [] && isOpen
    {
      this.input := input;
      pos := 0;
      arrived := waiting;
      output := [];
      isOpen := true;
    }

    method Write(data: seq<byte>)
      modifies this
      ensures output == old(output) + data
      ensures pos == old(pos) && arrived == old(arrived) && isOpen == old(isOpen)
    {
      output := output + data;
    }

    /** `read(size)` on a port opened with `timeout=0`: up to `size` of the
        bytes that have arrived, possibly none. */
    method Read(size: nat) returns (data: seq<byte>)
      requires Valid()
      modifies this
      ensures arrived == old(arrived) && output == old(output) && isOpen == old(isOpen)
      ensures Valid()
      ensures data == input[old(pos)..Min(old(pos) + size, arrived)]
      ensures pos == old(pos) + |data|
    {
      data := input[pos..Min(pos + size, arrived)];
      pos := pos + |data|;
    }

    /** `read(1)` repeated until it returns a byte: waits for the next byte
        to arrive and takes it. */
    method ReadByte() returns (b: byte)
      requires Valid() && pos < |input|
      modifies this
      ensures Valid()
      ensures b == input[old(pos)] && pos == old(pos) + 1
      ensures arrived == Max(old(arrived), pos)
      ensures output == old(output) && isOpen == old(isOpen)
    {
      b := input[pos];
      pos := pos + 1;
      arrived := Max(arrived, pos);
    }

    method Close()
      modifies this
      ensures !isOpen
      ensures pos == old(pos) && arrived == old(arrived) && output == old(output)
    {
      isOpen := false;
    }
  }
}
