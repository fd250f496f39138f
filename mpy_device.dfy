/** The board connection of src/mpy_device.py: like the serial REPL class,
    but it does not interrupt the board when it connects, it can enter the
    friendly REPL, it runs whole files, and it is a context manager that
    enters the raw REPL on entry and closes the port on exit. */
module Device {
  import opened Options
  import opened Text
  import opened SerialPort
  import opened Banner
  import opened RawRepl

  class MpyDevice {
    const serial: Port
    var mpyVersion: Option<string>
    var gitHash: Option<string>
    var buildDate: Option<string>
    var boardType: Option<string>

    /** Opens the port and drops every byte that has already arrived. */
    constructor (input: seq<byte>, waiting: nat)
      requires waiting <= |input|
      ensures fresh(serial) && serial.Valid() && serial.isOpen
      ensures serial.input == input && serial.pos == waiting && serial.arrived == waiting
      ensures serial.output == []
      ensures mpyVersion == None && gitHash == None && buildDate == None && boardType == None
    {
      serial := new Port(input, waiting);
      mpyVersion, gitHash, buildDate, boardType := None, None, None, None;
      new;
      Flush();
    }

    /** Reads until a read comes back empty: everything that has arrived
        is consumed, and nothing that has not. */
    method Flush()
      requires serial.Valid()
      modifies serial
      ensures serial.Valid() && serial.pos == serial.arrived == old(serial.arrived)
      ensures serial.output == old(serial.output) && serial.isOpen == old(serial.isOpen)
    {
      var data := serial.Read(FLUSH_SIZE);
      while data != []
        invariant serial.Valid() && serial.arrived == old(serial.arrived)
        invariant serial.output == old(serial.output) && serial.isOpen == old(serial.isOpen)
        invariant data == [] ==> serial.pos == serial.arrived
        decreases serial.arrived - serial.pos + (if data == [] then 0 else 1)
      {
        data := serial.Read(FLUSH_SIZE);
      }
    }

    /** Reads one byte at a time until what it has read ends with `until`,
        and returns what came before `until`. The terminator must come:
        otherwise the loop never ends. */
    method ReadUntil(until: seq<byte>) returns (r: seq<byte>)
      requires serial.Valid() && Until(serial.Remaining(), until).Some?
      modifies serial
      ensures serial.Valid()
      ensures var n := Until(old(serial.Remaining()), until).value;
              serial.pos == old(serial.pos) + n && r + until == old(serial.Remaining())[..n]
      ensures serial.arrived == Max(old(serial.arrived), serial.pos)
      ensures serial.output == old(serial.output) && serial.isOpen == old(serial.isOpen)
    {
      ghost var s := serial.Remaining();
      ghost var n := Until(s, until).value;
      var buf: seq<byte> := [];
      while LastPart(buf, |until|) != until
        invariant serial.Valid() && serial.pos == old(serial.pos) + |buf|
        invariant |buf| <= n && buf == s[..|buf|]
        invariant serial.arrived == Max(old(serial.arrived), serial.pos)
        invariant serial.output == old(serial.output) && serial.isOpen == old(serial.isOpen)
        decreases n - |buf|
      {
        ReadUntilContinues(s, until, |buf|);
        var c := serial.ReadByte();
        assert s[..|buf| + 1] == buf + [c];
        buf := buf + [c];
      }
      ReadUntilStops(s, until, |buf|);
      UntilConsumed(s, until);
      r := DropLast(buf, |until|);
      assert buf == r + until;
    }

    /** One line, without its CRLF. */
    method ReadLine() returns (line: string)
      requires serial.Valid() && NextLine(serial.Remaining()).Some?
      modifies serial
      ensures serial.Valid()
      ensures var (l, n) := NextLine(old(serial.Remaining())).value;
              line == l && serial.pos == old(serial.pos) + n
      ensures serial.arrived == Max(old(serial.arrived), serial.pos)
      ensures serial.output == old(serial.output) && serial.isOpen == old(serial.isOpen)
    {
      ghost var s := serial.Remaining();
      var r := ReadUntil(CRLF);
      ghost var n := Until(s, CRLF).value;
      assert r == (r + CRLF)[..n - 2] == s[..n - 2];
      line := r;
    }

    /** The lines the generator readlines(num) yields, read to the end. */
    method ReadLines(num: nat) returns (lines: seq<string>)
      requires serial.Valid() && LinesOf(serial.Remaining(), num).Some?
      modifies serial
      ensures serial.Valid()
      ensures var (ls, n) := LinesOf(old(serial.Remaining()), num).value;
              lines == ls && serial.pos == old(serial.pos) + n
      ensures serial.arrived == Max(old(serial.arrived), serial.pos)
      ensures serial.output == old(serial.output) && serial.isOpen == old(serial.isOpen)
    {
      ghost var s := serial.Remaining();
      ghost var c: nat := 0;
      lines := [];
      for i := 0 to num
        invariant serial.Valid() && serial.pos == old(serial.pos) + c && c <= |s|
        invariant serial.Remaining() == s[c..]
        invariant LinesOf(s, i).Some? && LinesOf(s, i).value.0 == lines && LinesOf(s, i).value.1 == c
        invariant serial.arrived == Max(old(serial.arrived), serial.pos)
        invariant serial.output == old(serial.output) && serial.isOpen == old(serial.isOpen)
      {
        LinesOfPrefix(s, num, i);
        ghost var p := serial.pos;
        var line := ReadLine();
        ghost var n := NextLine(s[c..]).value.1;
        ghost var c1 := c + n;
        LinesOfNext(s, i, lines, c, line, n);
        DropDrop(s, c, n, c1);
        DropDrop(serial.input, p, n, serial.pos);
        lines := lines + [line];
        c := c1;
      }
    }

    /** re.match of the banner pattern; on a match the four fields take its
        groups, otherwise they stay as they were. */
    method SetInfoFromString(line: string) returns (matched: bool)
      modifies this
      ensures matched <==> MatchBanner(line).Some?
      ensures matched ==> var info := MatchBanner(line).value;
                          && mpyVersion == Some(info.version) && gitHash == Some(info.gitHash)
                          && buildDate == Some(info.date) && boardType == Some(info.board)
      ensures !matched ==> mpyVersion == old(mpyVersion) && gitHash == old(gitHash)
                           && buildDate == old(buildDate) && boardType == old(boardType)
    {
      var m := MatchBanner(line);
      if m.Some? {
        mpyVersion := Some(m.value.version);
        gitHash := Some(m.value.gitHash);
        buildDate := Some(m.value.date);
        boardType := Some(m.value.board);
        return true;
      }
      return false;
    }

    /** Sends `\x02`, then takes lines from readlines(4) until one is a
        banner, and checks that the help line and the prompt follow it. A
        `next` on the exhausted generator raises StopIteration. */
    method EnterRepl() returns (r: Outcome<()>)
      requires serial.Valid() && EnterReplRun(serial.Remaining()).Some?
      modifies this, serial
      ensures serial.Valid()
      ensures var g := EnterReplRun(old(serial.Remaining())).value;
              && r == g.outcome && serial.pos == old(serial.pos) + g.consumed
              && (g.info.Some? ==> var info := g.info.value;
                                   && mpyVersion == Some(info.version) && gitHash == Some(info.gitHash)
                                   && buildDate == Some(info.date) && boardType == Some(info.board))
              && (g.info.None? ==> mpyVersion == old(mpyVersion) && gitHash == old(gitHash)
                                   && buildDate == old(buildDate) && boardType == old(boardType))
      ensures serial.output == old(serial.output) + [ENTER_REPL]
      ensures serial.arrived == Max(old(serial.arrived), serial.pos) && serial.isOpen == old(serial.isOpen)
    {
      ghost var rem := serial.Remaining();
      ghost var g := EnterReplRun(rem).value;
      ghost var c: nat := 0;
      ghost var banner: Option<Info> := None;
      serial.Write([ENTER_REPL]);
      var used: nat := 0;
      var found := false;
      while !found
        invariant used <= 4 && Continues(g, c, ReplRest(rem, used, banner))
        invariant serial.Valid() && serial.pos == old(serial.pos) + c && serial.Remaining() == rem
        invariant found <==> banner.Some?
        invariant !found ==> mpyVersion == old(mpyVersion) && gitHash == old(gitHash)
                             && buildDate == old(buildDate) && boardType == old(boardType)
        invariant found ==> && mpyVersion == Some(banner.value.version) && gitHash == Some(banner.value.gitHash)
                            && buildDate == Some(banner.value.date) && boardType == Some(banner.value.board)
        invariant serial.output == old(serial.output) + [ENTER_REPL]
        invariant serial.arrived == Max(old(serial.arrived), serial.pos) && serial.isOpen == old(serial.isOpen)
        decreases 4 - used
      {
        if used == 4 {
          return StopIteration;
        }
        ghost var n;
        found, n, banner := TryBannerLine(used);
        ContinuesAfter(g, c, n, ReplRest(serial.Remaining(), used + 1, banner));
        rem, c, used := serial.Remaining(), c + n, used + 1;
      }
      r := ExpectGreeting(used, banner.value);
    }

    /** One turn of the banner loop: `set_info_from_string(next(lines))`
        with `used` of the four lines already taken. */
    method TryBannerLine(used: nat) returns (found: bool, ghost n: nat, ghost banner: Option<Info>)
      requires serial.Valid() && used < 4 && SeekBanner(serial.Remaining(), used).Some?
      modifies this, serial
      ensures serial.Valid() && serial.pos == old(serial.pos) + n
      ensures SeekBanner(old(serial.Remaining()), used) == After(n, ReplRest(serial.Remaining(), used + 1, banner))
      ensures found <==> banner.Some?
      ensures !found ==> mpyVersion == old(mpyVersion) && gitHash == old(gitHash)
                         && buildDate == old(buildDate) && boardType == old(boardType)
      ensures found ==> && mpyVersion == Some(banner.value.version) && gitHash == Some(banner.value.gitHash)
                        && buildDate == Some(banner.value.date) && boardType == Some(banner.value.board)
      ensures serial.output == old(serial.output)
      ensures serial.arrived == Max(old(serial.arrived), serial.pos) && serial.isOpen == old(serial.isOpen)
    {
      ghost var rem := serial.Remaining();
      ghost var p := serial.pos;
      var line := ReadLine();
      n := NextLine(rem).value.1;
      LineParts(NextLine(rem));
      DropDrop(serial.input, p, n, serial.pos);
      found := SetInfoFromString(line);
      banner := MatchBanner(line);
      if !found {
        SeekBannerSkips(rem, used, line, n);
      } else {
        SeekBannerFinds(rem, used, line, n, banner.value);
      }
    }

    /** The two `next(lines)` after the banner: the help line, then the
        prompt, with `used` of the four lines already taken. */
    method ExpectGreeting(used: nat, ghost info: Info) returns (r: Outcome<()>)
      requires serial.Valid() && used <= 4 && CheckGreeting(serial.Remaining(), used, info).Some?
      modifies serial
      ensures serial.Valid()
      ensures var e := CheckGreeting(old(serial.Remaining()), used, info).value;
              r == e.outcome && serial.pos == old(serial.pos) + e.consumed
      ensures serial.output == old(serial.output)
      ensures serial.arrived == Max(old(serial.arrived), serial.pos) && serial.isOpen == old(serial.isOpen)
    {
      if used == 4 {
        return StopIteration;
      }
      ghost var rem := serial.Remaining();
      ghost var p := serial.pos;
      var help := ReadLine();
      ghost var n2 := NextLine(rem).value.1;
      LineParts(NextLine(rem));
      if help != HELP_LINE {
        CheckGreetingMismatch(rem, used, info, help, n2);
        return DeviceError("Enter REPL response mismatch");
      }
      if used == 3 {
        CheckGreetingExhausted(rem, info, n2);
        return StopIteration;
      }
      DropDrop(serial.input, p, n2, serial.pos);
      assert NextLine(rem[n2..]).Some?;
      var prompt := ReadLine();
      ghost var n3 := NextLine(rem[n2..]).value.1;
      LineParts(NextLine(rem[n2..]));
      if prompt != PROMPT {
        CheckGreetingNoPrompt(rem, used, info, n2, prompt, n3);
        return DeviceError("Error starting REPL");
      }
      CheckGreetingStarts(rem, used, info, n2, n3);
      return Done(());
    }

    /** Sends `\x01` and waits for the raw REPL prompt. */
    method EnterRawRepl()
      requires serial.Valid() && Until(serial.Remaining(), RAW_BANNER).Some?
      modifies serial
      ensures serial.Valid()
      ensures serial.pos == old(serial.pos) + Until(old(serial.Remaining()), RAW_BANNER).value
      ensures serial.output == old(serial.output) + [ENTER_RAW_REPL]
      ensures serial.arrived == Max(old(serial.arrived), serial.pos) && serial.isOpen == old(serial.isOpen)
    {
      serial.Write([ENTER_RAW_REPL]);
      var prompt := ReadUntil(RAW_BANNER);
    }

    /** `with device:` enters the raw REPL, and returns the device. */
    method Enter()
      requires serial.Valid() && Until(serial.Remaining(), RAW_BANNER).Some?
      modifies serial
      ensures serial.Valid()
      ensures serial.pos == old(serial.pos) + Until(old(serial.Remaining()), RAW_BANNER).value
      ensures serial.output == old(serial.output) + [ENTER_RAW_REPL]
      ensures serial.arrived == Max(old(serial.arrived), serial.pos) && serial.isOpen == old(serial.isOpen)
    {
      EnterRawRepl();
    }

    /** The end of the `with` block closes the port, however the block ends. */
    method Exit()
      modifies serial
      ensures !serial.isOpen
      ensures serial.pos == old(serial.pos) && serial.arrived == old(serial.arrived)
      ensures serial.output == old(serial.output)
    {
      Close();
    }

    method Close()
      modifies serial
      ensures !serial.isOpen
      ensures serial.pos == old(serial.pos) && serial.arrived == old(serial.arrived)
      ensures serial.output == old(serial.output)
    {
      serial.Close();
    }

    /** Sends the command and `\x04`, then reads the three parts of the
        reply: a non-empty error part is the error, otherwise the output
        is the result. The whole reply must come. */
    method Exec(command: seq<byte>) returns (r: Outcome<seq<byte>>)
      requires serial.Valid() && ExecFrame(serial.Remaining()).Some?
      modifies serial
      ensures serial.Valid()
      ensures var f := ExecFrame(old(serial.Remaining())).value;
              r == ExecResult(f) && serial.pos == old(serial.pos) + f.consumed
      ensures serial.output == old(serial.output) + command + [COMMAND_TERMINATION]
      ensures serial.arrived == Max(old(serial.arrived), serial.pos) && serial.isOpen == old(serial.isOpen)
    {
      ghost var s := serial.Remaining();
      ghost var p := serial.pos;
      serial.Write(command + [COMMAND_TERMINATION]);
      var ok := ReadUntil(OK);
      ghost var n1 := serial.pos - p;
      assert serial.Remaining() == s[n1..];
      var ret := ReadUntil(EOT);
      ghost var n2 := serial.pos - p - n1;
      assert serial.Remaining() == s[n1 + n2..];
      var err := ReadUntil(EOT);
      ExecFrameOfReads(s, n1, n2, serial.pos - p - n1 - n2, ret, err);
      if err != [] {
        return DeviceError(err);
      }
      return Done(ret);
    }

    /** Runs `print(expression)` and strips what it prints. */
    method Eval(expression: seq<byte>) returns (r: Outcome<string>)
      requires serial.Valid() && ExecFrame(serial.Remaining()).Some?
      modifies serial
      ensures serial.Valid()
      ensures var f := ExecFrame(old(serial.Remaining())).value;
              r == EvalResult(ExecResult(f)) && serial.pos == old(serial.pos) + f.consumed
      ensures serial.output == old(serial.output) + EvalCommand(expression) + [COMMAND_TERMINATION]
      ensures serial.arrived == Max(old(serial.arrived), serial.pos) && serial.isOpen == old(serial.isOpen)
    {
      var ret := Exec(EvalCommand(expression));
      match ret
      case Done(out) => r := Done(Strip(out));
      case DeviceError(message) => r := DeviceError(message);
      case StopIteration => r := StopIteration;
    }

    /** Runs a file already on the board. The command carries a `\x04` of
        its own, so two are sent. */
    method Execfile(filename: seq<byte>) returns (r: Outcome<seq<byte>>)
      requires serial.Valid() && ExecFrame(serial.Remaining()).Some?
      modifies serial
      ensures serial.Valid()
      ensures var f := ExecFrame(old(serial.Remaining())).value;
              r == ExecResult(f) && serial.pos == old(serial.pos) + f.consumed
      ensures serial.output == old(serial.output) + ExecfileCommand(filename) + [COMMAND_TERMINATION]
      ensures serial.arrived == Max(old(serial.arrived), serial.pos) && serial.isOpen == old(serial.isOpen)
    {
      r := Exec(ExecfileCommand(filename));
    }
  }
}
