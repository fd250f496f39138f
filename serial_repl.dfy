/** The serial connection of src/mpy_device/serial_repl.py: one MicroPython
    board behind a serial port, driven through its raw REPL. Every read is
    proved to consume what the functions of RawRepl say it consumes. */
module SerialReplDevice {
  import opened Options
  import opened Text
  import opened SerialPort
  import opened Banner
  import opened RawRepl

  class SerialRepl {
    const serial: Port
    var mpyVersion: Option<string>
    var gitHash: Option<string>
    var buildDate: Option<string>
    var boardType: Option<string>

    /** Opens the port, interrupts whatever the board is running with two
        `\x03` and drops every byte that has already arrived. */
    constructor (input: seq<byte>, waiting: nat)
      requires waiting <= |input|
      ensures fresh(serial) && serial.Valid() && serial.isOpen
      ensures serial.input == input && serial.pos == waiting && serial.arrived == waiting
      ensures serial.output == [CTRL_C, CTRL_C]
      ensures mpyVersion == None && gitHash == None && buildDate == None && boardType == None
    {
      serial := new Port(input, waiting);
      mpyVersion, gitHash, buildDate, boardType := None, None, None, None;
      new;
      serial.Write([CTRL_C, CTRL_C]);
      Flush();
    }

    /** Reads until a read comes back empty: everything that has arrived
        is consumed, and nothing that has not. */
    method Flush()
      requires serial.Valid()
      modifies serial
      ensures serial.Valid() && serial.pos == serial.arrived == old(serial.arrived)
      ensures serial.output == old(serial.output) && serial.isOpen == old(serial.isOpen)
    {
      var data := serial.Read(FLUSH_SIZE);
      while data != []
        invariant serial.Valid() && serial.arrived == old(serial.arrived)
        invariant serial.output == old(serial.output) && serial.isOpen == old(serial.isOpen)
        invariant data == [] ==> serial.pos == serial.arrived
        decreases serial.arrived - serial.pos + (if data == [] then 0 else 1)
      {
        data := serial.Read(FLUSH_SIZE);
      }
    }

    /** Reads one byte at a time until what it has read ends with `until`,
        and returns what came before `until`. The terminator must come:
        otherwise the loop never ends. */
    method ReadUntil(until: seq<byte>) returns (r: seq<byte>)
      requires serial.Valid() && Until(serial.Remaining(), until).Some?
      modifies serial
      ensures serial.Valid()
      ensures var n := Until(old(serial.Remaining()), until).value;
              serial.pos == old(serial.pos) + n && r + until == old(serial.Remaining())[..n]
      ensures serial.arrived == Max(old(serial.arrived), serial.pos)
      ensures serial.output == old(serial.output) && serial.isOpen == old(serial.isOpen)
    {
      ghost var s := serial.Remaining();
      ghost var n := Until(s, until).value;
      var buf: seq<byte> := [];
      while LastPart(buf, |until|) != until
        invariant serial.Valid() && serial.pos == old(serial.pos) + |buf|
        invariant |buf| <= n && buf == s[..|buf|]
        invariant serial.arrived == Max(old(serial.arrived), serial.pos)
        invariant serial.output == old(serial.output) && serial.isOpen == old(serial.isOpen)
        decreases n - |buf|
      {
        ReadUntilContinues(s, until, |buf|);
        var c := serial.ReadByte();
        assert s[..|buf| + 1] == buf + [c];
        buf := buf + [c];
      }
      ReadUntilStops(s, until, |buf|);
      UntilConsumed(s, until);
      r := DropLast(buf, |until|);
      assert buf == r + until;
    }

    /** One line, without its CRLF. */
    method ReadLine() returns (line: string)
      requires serial.Valid() && NextLine(serial.Remaining()).Some?
      modifies serial
      ensures serial.Valid()
      ensures var (l, n) := NextLine(old(serial.Remaining())).value;
              line == l && serial.pos == old(serial.pos) + n
      ensures serial.arrived == Max(old(serial.arrived), serial.pos)
      ensures serial.output == old(serial.output) && serial.isOpen == old(serial.isOpen)
    {
      ghost var s := serial.Remaining();
      var r := ReadUntil(CRLF);
      ghost var n := Until(s, CRLF).value;
      assert r == (r + CRLF)[..n - 2] == s[..n - 2];
      line := r;
    }

    /** The lines the generator readlines(num) yields, read to the end. */
    method ReadLines(num: nat) returns (lines: seq<string>)
      requires serial.Valid() && LinesOf(serial.Remaining(), num).Some?
      modifies serial
      ensures serial.Valid()
      ensures var (ls, n) := LinesOf(old(serial.Remaining()), num).value;
              lines == ls && serial.pos == old(serial.pos) + n
      ensures serial.arrived == Max(old(serial.arrived), serial.pos)
      ensures serial.output == old(serial.output) && serial.isOpen == old(serial.isOpen)
    {
      ghost var s := serial.Remaining();
      ghost var c: nat := 0;
      lines := [];
      for i := 0 to num
        invariant serial.Valid() && serial.pos == old(serial.pos) + c && c <= |s|
        invariant serial.Remaining() == s[c..]
        invariant LinesOf(s, i).Some? && LinesOf(s, i).value.0 == lines && LinesOf(s, i).value.1 == c
        invariant serial.arrived == Max(old(serial.arrived), serial.pos)
        invariant serial.output == old(serial.output) && serial.isOpen == old(serial.isOpen)
      {
        LinesOfPrefix(s, num, i);
        ghost var p := serial.pos;
        var line := ReadLine();
        ghost var n := NextLine(s[c..]).value.1;
        ghost var c1 := c + n;
        LinesOfNext(s, i, lines, c, line, n);
        DropDrop(s, c, n, c1);
        DropDrop(serial.input, p, n, serial.pos);
        lines := lines + [line];
        c := c1;
      }
    }

    /** re.match of the banner pattern; on a match the four fields take its
        groups, otherwise they stay as they were. */
    method SetInfoFromString(line: string) returns (matched: bool)
      modifies this
      ensures matched <==> MatchBanner(line).Some?
      ensures matched ==> var info := MatchBanner(line).value;
                          && mpyVersion == Some(info.version) && gitHash == Some(info.gitHash)
                          && buildDate == Some(info.date) && boardType == Some(info.board)
      ensures !matched ==> mpyVersion == old(mpyVersion) && gitHash == old(gitHash)
                           && buildDate == old(buildDate) && boardType == old(boardType)
    {
      var m := MatchBanner(line);
      if m.Some? {
        mpyVersion := Some(m.value.version);
        gitHash := Some(m.value.gitHash);
        buildDate := Some(m.value.date);
        boardType := Some(m.value.board);
        return true;
      }
      return false;
    }

    /** Sends `\x01` and waits for the raw REPL prompt. */
    method EnterRawRepl()
      requires serial.Valid() && Until(serial.Remaining(), RAW_BANNER).Some?
      modifies serial
      ensures serial.Valid()
      ensures serial.pos == old(serial.pos) + Until(old(serial.Remaining()), RAW_BANNER).value
      ensures serial.output == old(serial.output) + [ENTER_RAW_REPL]
      ensures serial.arrived == Max(old(serial.arrived), serial.pos) && serial.isOpen == old(serial.isOpen)
    {
      serial.Write([ENTER_RAW_REPL]);
      var prompt := ReadUntil(RAW_BANNER);
    }

    method Close()
      modifies serial
      ensures !serial.isOpen
      ensures serial.pos == old(serial.pos) && serial.arrived == old(serial.arrived)
      ensures serial.output == old(serial.output)
    {
      serial.Close();
    }

    /** Sends the command and `\x04`, then reads the three parts of the
        reply: a non-empty error part is the error, otherwise the output
        is the result. The whole reply must come. */
    method Exec(command: seq<byte>) returns (r: Outcome<seq<byte>>)
      requires serial.Valid() && ExecFrame(serial.Remaining()).Some?
      modifies serial
      ensures serial.Valid()
      ensures var f := ExecFrame(old(serial.Remaining())).value;
              r == ExecResult(f) && serial.pos == old(serial.pos) + f.consumed
      ensures serial.output == old(serial.output) + command + [COMMAND_TERMINATION]
      ensures serial.arrived == Max(old(serial.arrived), serial.pos) && serial.isOpen == old(serial.isOpen)
    {
      ghost var s := serial.Remaining();
      ghost var p := serial.pos;
      serial.Write(command + [COMMAND_TERMINATION]);
      var ok := ReadUntil(OK);
      ghost var n1 := serial.pos - p;
      assert serial.Remaining() == s[n1..];
      var ret := ReadUntil(EOT);
      ghost var n2 := serial.pos - p - n1;
      assert serial.Remaining() == s[n1 + n2..];
      var err := ReadUntil(EOT);
      ExecFrameOfReads(s, n1, n2, serial.pos - p - n1 - n2, ret, err);
      if err != [] {
        return DeviceError(err);
      }
      return Done(ret);
    }

    /** Runs `print(expression)` and strips what it prints. */
    method Eval(expression: seq<byte>) returns (r: Outcome<string>)
      requires serial.Valid() && ExecFrame(serial.Remaining()).Some?
      modifies serial
      ensures serial.Valid()
      ensures var f := ExecFrame(old(serial.Remaining())).value;
              r == EvalResult(ExecResult(f)) && serial.pos == old(serial.pos) + f.consumed
      ensures serial.output == old(serial.output) + EvalCommand(expression) + [COMMAND_TERMINATION]
      ensures serial.arrived == Max(old(serial.arrived), serial.pos) && serial.isOpen == old(serial.isOpen)
    {
      var ret := Exec(EvalCommand(expression));
      match ret
      case Done(out) => r := Done(Strip(out));
      case DeviceError(message) => r := DeviceError(message);
      case StopIteration => r := StopIteration;
    }
  }
}
