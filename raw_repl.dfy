/** What the host reads from a MicroPython board over the serial raw REPL,
    as functions of the remaining input: the `read_until` search, the
    three-part reply to a command, the firmware banner and the greeting the
    friendly REPL prints. The serial classes are proved against these. */
module RawRepl {
  import opened Options
  import opened Text
  import opened SerialPort
  import opened Banner

  const CTRL_A: byte := '\U{01}'
  const CTRL_B: byte := '\U{02}'
  const CTRL_C: byte := '\U{03}'
  const CTRL_D: byte := '\U{04}'

  const ENTER_REPL: byte := CTRL_B
  const ENTER_RAW_REPL: byte := CTRL_A
  const COMMAND_TERMINATION: byte := CTRL_D

  /** How many bytes `flush` asks for per read. */
  const FLUSH_SIZE: nat := 1024

  /** The prompt the board prints once it is in raw REPL mode. */
  const RAW_BANNER: seq<byte> := "raw REPL; CTRL-B to exit\r\n>"
  const OK: seq<byte> := "OK"
  const EOT: seq<byte> := [CTRL_D]
  const CRLF: seq<byte> := "\r\n"

  const HELP_LINE: seq<byte> := "Type \"help()\" for more information."
  const PROMPT: seq<byte> := ">>> "

  // ---------------------------------------------------------------------
  // Python slices with a negative bound, `buf[-k:]` and `buf[:-k]`. For
  // k == 0 they are `buf[0:]` (all of it) and `buf[:0]` (nothing).

  function LastPart(buf: seq<byte>, k: nat): (r: seq<byte>)
    ensures k == 0 ==> r == buf
    ensures 0 < k <= |buf| ==> r == buf[|buf| - k..]
    ensures k > |buf| ==> r == buf
  {
    if k == 0 || k >= |buf| then buf else buf[|buf| - k..]
  }

  function DropLast(buf: seq<byte>, k: nat): (r: seq<byte>)
    ensures k == 0 ==> r == []
    ensures 0 < k <= |buf| ==> r == buf[..|buf| - k]
    ensures k > |buf| ==> r == []
  {
    if k == 0 || k >= |buf| then [] else buf[..|buf| - k]
  }

  /** The loop test of `read_until` against the suffix test it stands for:
      they agree except when the terminator is empty and the buffer is not,
      which the loop never reaches because it stops on the empty buffer. */
  lemma {:induction false} LastPartIsSuffix(buf: seq<byte>, t: seq<byte>)
    requires t != [] || buf == []
    ensures LastPart(buf, |t|) == t <==> EndsWith(buf, t)
  {
    if |t| > |buf| {
      assert LastPart(buf, |t|) != t by { assert |LastPart(buf, |t|)| != |t|; }
    }
  }

  // ---------------------------------------------------------------------
  // read_until: how much of the remaining input it consumes.

  /** The first `m` bytes of `s` end with `t`. */
  predicate EndsAt(s: seq<byte>, t: seq<byte>, m: nat)
    requires m <= |s|
  {
    |t| <= m && s[m - |t|..m] == t
  }

  function UntilFrom(s: seq<byte>, t: seq<byte>, n: nat): (r: Option<nat>)
    requires n <= |s|
    ensures r.Some? ==> n <= r.value <= |s| && EndsAt(s, t, r.value)
    decreases |s| - n
  {
    if EndsAt(s, t, n) then Some(n)
    else if n == |s| then None
    else UntilFrom(s, t, n + 1)
  }

  /** No prefix between `n` and the one UntilFrom names ends with `t`; when
      it names none, no prefix from `n` on does. */
  lemma {:induction false} UntilFromFirst(s: seq<byte>, t: seq<byte>, n: nat)
    requires n <= |s|
    ensures forall m :: n <= m <= |s| && m < Limit(UntilFrom(s, t, n), |s|) ==> !EndsAt(s, t, m)
    decreases |s| - n
  {
    var r := UntilFrom(s, t, n);
    if EndsAt(s, t, n) {
      assert Limit(r, |s|) == n;
    } else if n == |s| {
      forall m | n <= m <= |s| ensures !EndsAt(s, t, m) {
        assert m == n;
      }
    } else {
      UntilFromFirst(s, t, n + 1);
      assert r == UntilFrom(s, t, n + 1);
      forall m | n <= m <= |s| && m < Limit(r, |s|) ensures !EndsAt(s, t, m) {
        if m > n {
          assert n + 1 <= m;
        }
      }
    }
  }


  /** The length of the shortest prefix of `s` that ends with `t`, if any
      prefix does. */
  function Until(s: seq<byte>, t: seq<byte>): (r: Option<nat>)
    ensures r.Some? ==> |t| <= r.value <= |s| && EndsAt(s, t, r.value)
  {
    UntilFrom(s, t, 0)
  }

  /** Until names the shortest such prefix, and None means there is none. */
  lemma {:induction false} UntilFirst(s: seq<byte>, t: seq<byte>)
    ensures Until(s, t).Some? ==> forall m :: 0 <= m < Until(s, t).value ==> !EndsAt(s, t, m)
    ensures Until(s, t).None? ==> forall m :: 0 <= m <= |s| ==> !EndsAt(s, t, m)
  {
    UntilFromFirst(s, t, 0);
    var r := Until(s, t);
    if r.Some? {
      forall m | 0 <= m < r.value ensures !EndsAt(s, t, m) {
        assert m < Limit(UntilFrom(s, t, 0), |s|);
      }
    } else {
      forall m | 0 <= m <= |s| ensures !EndsAt(s, t, m) {
        assert m < Limit(UntilFrom(s, t, 0), |s|);
      }
    }
  }

  /** The shortest prefix ending with `t` is the one Until names. */
  lemma {:induction false} UntilIs(s: seq<byte>, t: seq<byte>, n: nat)
    requires n <= |s| && EndsAt(s, t, n)
    requires forall m :: 0 <= m < n ==> !EndsAt(s, t, m)
    ensures Until(s, t) == Some(n)
  {
    var r := Until(s, t);
    UntilFirst(s, t);
    assert r.Some?;
    assert !(r.value < n);
    assert !(n < r.value);
  }

  /** What read_until consumes is what it returns followed by the
      terminator. */
  lemma {:induction false} UntilConsumed(s: seq<byte>, t: seq<byte>)
    requires Until(s, t).Some?
    ensures var n := Until(s, t).value;
            s[..n] == s[..n - |t|] + t
  {
    var n := Until(s, t).value;
    assert EndsAt(s, t, n);
    var k := n - |t|;
    forall i | 0 <= i < n
      ensures s[..n][i] == (s[..k] + t)[i]
    {
      if k <= i {
        assert t[i - k] == s[k..n][i - k];
      }
    }
    assert s[..n] == s[..k] + t;
  }

  /** The test the read_until loop makes on what it has read so far is the
      test EndsAt makes on the same prefix. */
  lemma {:induction false} EndsAtIsLastPart(s: seq<byte>, t: seq<byte>, m: nat)
    requires m <= |s| && (t != [] || m == 0)
    ensures EndsAt(s, t, m) <==> LastPart(s[..m], |t|) == t
  {
    LastPartIsSuffix(s[..m], t);
    if |t| <= m {
      assert s[..m][m - |t|..] == s[m - |t|..m];
    }
  }

  /** An empty terminator is found before anything is read. */
  lemma {:induction false} UntilOfNothing(s: seq<byte>)
    ensures Until(s, []) == Some(0)
  {
    assert EndsAt(s, [], 0);
  }

  /** While the bytes read do not end with the terminator, read_until has
      not yet reached the end of the shortest prefix that does. */
  lemma {:induction false} ReadUntilContinues(s: seq<byte>, t: seq<byte>, m: nat)
    requires Until(s, t).Some? && m <= Until(s, t).value
    requires LastPart(s[..m], |t|) != t
    ensures m < Until(s, t).value
  {
    UntilOfNothing(s);
    EndsAtIsLastPart(s, t, m);
  }

  /** Once they do, read_until has read exactly that prefix. */
  lemma {:induction false} ReadUntilStops(s: seq<byte>, t: seq<byte>, m: nat)
    requires Until(s, t).Some? && m <= Until(s, t).value
    requires LastPart(s[..m], |t|) == t
    ensures m == Until(s, t).value
  {
    UntilOfNothing(s);
    EndsAtIsLastPart(s, t, m);
    UntilFirst(s, t);
  }

  /** When the last byte of `t` occurs neither in `a` nor earlier in `t`,
      the search stops right after the first copy of `t`, whatever follows. */
  lemma {:induction false} UntilOfFirst(a: seq<byte>, t: seq<byte>, b: seq<byte>, s: seq<byte>)
    requires s == a + t + b
    requires t != [] && t[|t| - 1] !in a && t[|t| - 1] !in t[..|t| - 1]
    ensures Until(s, t) == Some(|a| + |t|)
  {
    var n := |a| + |t|;
    assert s[..n] == a + t;
    forall j | 0 <= j < n - 1
      ensures s[j] != t[|t| - 1]
    {
      if j < |a| {
        assert s[j] == a[j];
      } else {
        assert s[j] == t[..|t| - 1][j - |a|];
      }
    }
    forall m | 0 <= m < n
      ensures !EndsAt(s, t, m)
    {
      if |t| <= m {
        assert s[..m][m - |t|..][|t| - 1] == s[m - 1];
      }
    }
    UntilIs(s, t, n);
  }

  // ---------------------------------------------------------------------
  // exec: the reply to a command in raw REPL mode.

  /** The bytes an exec consumes, the output chunk and the error chunk. */
  datatype Frame = Frame(consumed: nat, out: seq<byte>, err: seq<byte>)

  /** Skip through `OK`, take the output up to `\x04`, then the error up
      to the next `\x04`; None when one of the three never comes. */
  function ExecFrame(s: seq<byte>): (r: Option<Frame>)
    ensures r.Some? ==> r.value.consumed <= |s|
    ensures r.Some? ==> CTRL_D !in r.value.out && CTRL_D !in r.value.err
  {
    match Until(s, OK)
    case None => None
    case Some(n1) =>
      var afterOk := s[n1..];
      match Until(afterOk, EOT)
      case None => None
      case Some(n2) =>
        var afterOut := afterOk[n2..];
        match Until(afterOut, EOT)
        case None => None
        case Some(n3) =>
          NoEotBefore(afterOk, n2);
          NoEotBefore(afterOut, n3);
          Some(Frame(n1 + n2 + n3, afterOk[..n2 - 1], afterOut[..n3 - 1]))
  }

  /** Before the first `\x04` there is none. */
  lemma {:induction false} NoEotBefore(s: seq<byte>, n: nat)
    requires Until(s, EOT) == Some(n)
    ensures CTRL_D !in s[..n - 1]
  {
    UntilFirst(s, EOT);
    forall m | 0 <= m < n - 1
      ensures s[m] != CTRL_D
    {
      assert !EndsAt(s, EOT, m + 1);
    }
  }

  /** The frame of an input whose three searches are known. */
  lemma {:induction false} ExecFrameOfParts(s: seq<byte>, n1: nat, s2: seq<byte>, n2: nat, s3: seq<byte>, n3: nat)
    requires Until(s, OK) == Some(n1) && s2 == s[n1..]
    requires Until(s2, EOT) == Some(n2) && s3 == s2[n2..]
    requires Until(s3, EOT) == Some(n3)
    ensures 1 <= n2 && 1 <= n3
    ensures ExecFrame(s) == Some(Frame(n1 + n2 + n3, s2[..n2 - 1], s3[..n3 - 1]))
  {
  }

  /** The frame read_until's three results make: what each call returns
      followed by its terminator is what that call consumes. */
  lemma {:induction false} ExecFrameOfReads(s: seq<byte>, n1: nat, n2: nat, n3: nat, out: seq<byte>, err: seq<byte>)
    requires n1 <= |s| && Until(s, OK) == Some(n1)
    requires n2 <= |s| - n1 && Until(s[n1..], EOT) == Some(n2) && out + EOT == s[n1..][..n2]
    requires Until(s[n1 + n2..], EOT) == Some(n3) && err + EOT == s[n1 + n2..][..n3]
    ensures ExecFrame(s) == Some(Frame(n1 + n2 + n3, out, err))
  {
    assert s[n1..][n2..] == s[n1 + n2..];
    ExecFrameOfParts(s, n1, s[n1..], n2, s[n1 + n2..], n3);
    assert out == (out + EOT)[..n2 - 1] == s[n1..][..n2 - 1];
    assert err == (err + EOT)[..n3 - 1] == s[n1 + n2..][..n3 - 1];
  }

  /** Skipping through the first `OK`. */
  lemma {:induction false} UntilOkOfReply(a: seq<byte>, tail: seq<byte>, s: seq<byte>)
    requires s == a + OK + tail && 'K' !in a
    ensures Until(s, OK) == Some(|a| + 2) && s[|a| + 2..] == tail
  {
    UntilOfFirst(a, OK, tail, s);
  }

  /** Taking a chunk up to the first `\x04`. */
  lemma {:induction false} UntilEotOfChunk(chunk: seq<byte>, tail: seq<byte>, s: seq<byte>)
    requires s == chunk + EOT + tail && CTRL_D !in chunk
    ensures Until(s, EOT) == Some(|chunk| + 1)
    ensures s[|chunk| + 1..] == tail && s[..|chunk|] == chunk
  {
    UntilOfFirst(chunk, EOT, tail, s);
  }

  /** A reply made of anything without a `K`, then `OK`, the output,
      `\x04`, the error and `\x04` again is split back into its parts. */
  lemma {:induction false} ExecFrameOfReply(a: seq<byte>, out: seq<byte>, err: seq<byte>, rest: seq<byte>)
    requires 'K' !in a && CTRL_D !in out && CTRL_D !in err
    ensures ExecFrame(a + OK + out + EOT + err + EOT + rest)
            == Some(Frame(|a| + |out| + |err| + 4, out, err))
  {
    var s := a + OK + out + EOT + err + EOT + rest;
    var tail2 := err + EOT + rest;
    var tail := out + EOT + tail2;
    assert s == a + OK + tail;
    UntilOkOfReply(a, tail, s);
    UntilEotOfChunk(out, tail2, tail);
    UntilEotOfChunk(err, rest, tail2);
    ExecFrameOfParts(s, |a| + 2, tail, |out| + 1, tail2, |err| + 1);
  }

  /** The result of a command, or why it has none. */
  datatype Outcome<+T> = Done(value: T) | DeviceError(message: string) | StopIteration

  /** A non-empty error chunk becomes the error; otherwise the output is the
      result. */
  function ExecResult(f: Frame): (r: Outcome<seq<byte>>)
    ensures r.DeviceError? <==> f.err != []
    ensures r.DeviceError? ==> r.message == f.err
    ensures r.Done? ==> r.value == f.out
    ensures !r.StopIteration?
  {
    if f.err != [] then DeviceError(f.err) else Done(f.out)
  }

  /** The text exec sends for `eval(expression)`. */
  function EvalCommand(expression: seq<byte>): seq<byte> {
    "print(" + expression + ")"
  }

  /** eval strips whatever exec returns; errors pass through. */
  function EvalResult(o: Outcome<seq<byte>>): (r: Outcome<string>)
    ensures o.Done? <==> r.Done?
    ensures o.Done? ==> Stripped(r.value) && |r.value| <= |o.value|
    ensures !o.Done? ==> r == o
  {
    match o
    case Done(out) => Done(Strip(out))
    case DeviceError(m) => DeviceError(m)
    case StopIteration => StopIteration
  }

  /** A printed value with whitespace around it comes back as the value. */
  lemma {:induction false} EvalResultOfPadded(a: seq<byte>, m: seq<byte>, b: seq<byte>)
    requires AllSpace(a) && AllSpace(b) && Stripped(m)
    ensures EvalResult(Done(a + m + b)) == Done(m)
  {
    StripOfPadded(a, m, b);
  }

  /** The text exec sends for `execfile(filename)`: the format string
      already ends with `\x04`. */
  function ExecfileCommand(filename: seq<byte>): seq<byte> {
    "exec(open(\"" + filename + "\").read())" + EOT
  }

  // ---------------------------------------------------------------------
  // enter_repl: the greeting of the friendly REPL, read as lines from the
  // generator readlines(4); a fifth `next` raises StopIteration.

  /** readline: the text before the next CRLF, and how much it consumes. */
  function NextLine(s: seq<byte>): (r: Option<(string, nat)>)
    ensures r.Some? ==> 2 <= r.value.1 <= |s|
  {
    match Until(s, CRLF)
    case None => None
    case Some(n) => Some((s[..n - 2], n))
  }

  /** A line read is the pair of its text and its length. */
  lemma {:induction false} LineParts(r: Option<(string, nat)>)
    requires r.Some?
    ensures r == Some((r.value.0, r.value.1))
  {
  }

  /** A line without a line feed, then CRLF, is read as one line. */
  lemma {:induction false} NextLineOf(line: seq<byte>, rest: seq<byte>, s: seq<byte>)
    requires s == line + CRLF + rest && '\n' !in line
    ensures NextLine(s) == Some((line, |line| + 2)) && s[|line| + 2..] == rest
  {
    UntilOfFirst(line, CRLF, rest, s);
    assert s[..|line|] == line;
  }

  /** `num` lines read one after the other, as `list(readlines(num))`
      reads them: the lines and how much they consume; None when a line
      never ends. The last line is read where the others stop. */
  function LinesOf(s: seq<byte>, num: nat): (r: Option<(seq<string>, nat)>)
    ensures r.Some? ==> |r.value.0| == num && r.value.1 <= |s|
  {
    if num == 0 then Some(([], 0))
    else
      match LinesOf(s, num - 1)
      case None => None
      case Some((lines, c)) =>
        match NextLine(s[c..])
        case None => None
        case Some((line, n)) => Some((lines + [line], c + n))
  }

  /** One more line read after the first `i` extends them by that line
      and the bytes it takes. */
  lemma {:induction false} LinesOfNext(s: seq<byte>, i: nat, lines: seq<string>, c: nat, line: string, n: nat)
    requires LinesOf(s, i) == Some((lines, c)) && NextLine(s[c..]) == Some((line, n))
    ensures LinesOf(s, i + 1) == Some((lines + [line], c + n))
  {
  }

  /** When `num` lines can be read, so can the first `i` of them, and a
      line follows them while `i < num`. */
  lemma {:induction false} LinesOfPrefix(s: seq<byte>, num: nat, i: nat)
    requires i <= num && LinesOf(s, num).Some?
    ensures LinesOf(s, i).Some?
    ensures i < num ==> NextLine(s[LinesOf(s, i).value.1..]).Some?
    decreases num - i
  {
    if i < num {
      LinesOfPrefix(s, num, i + 1);
    }
  }

  /** The text of lines each followed by CRLF. */
  function LinesText(lines: seq<seq<byte>>): seq<byte> {
    if lines == [] then [] else LinesText(lines[..|lines| - 1]) + lines[|lines| - 1] + CRLF
  }

  /** Lines without a line feed, each sent with CRLF, are read back as
      they were sent, whatever follows them. */
  lemma {:induction false} LinesOfText(lines: seq<seq<byte>>, rest: seq<byte>)
    requires forall k :: 0 <= k < |lines| ==> '\n' !in lines[k]
    ensures LinesOf(LinesText(lines) + rest, |lines|) == Some((lines, |LinesText(lines)|))
  {
    if lines != [] {
      var k := |lines| - 1;
      var init := LinesText(lines[..k]);
      var tail := lines[k] + CRLF + rest;
      var s := LinesText(lines) + rest;
      assert s == init + tail;
      LinesOfText(lines[..k], tail);
      assert s[|init|..] == tail;
      NextLineOf(lines[k], rest, tail);
      LinesOfNext(s, k, lines[..k], |init|, lines[k], |lines[k]| + 2);
      SplitLast(lines);
      assert |LinesText(lines)| == |init| + (|lines[k]| + 2);
    }
  }

  /** How enter_repl ends: the input it consumed, the banner it matched, if
      any, and its result. */
  datatype Greeting = Greeting(consumed: nat, info: Option<Info>, outcome: Outcome<()>)

  /** The same ending, after `n` more bytes consumed in front of it. */
  function After(n: nat, g: Option<Greeting>): Option<Greeting> {
    match g
    case None => None
    case Some(e) => Some(e.(consumed := n + e.consumed))
  }

  /** The loop `while not set_info_from_string(next(lines))`, with `used`
      of the four lines already taken; None when a line never ends. */
  function SeekBanner(s: seq<byte>, used: nat): (r: Option<Greeting>)
    requires used <= 4
    decreases 4 - used
  {
    if used == 4 then Some(Greeting(0, None, StopIteration))
    else
      match NextLine(s)
      case None => None
      case Some((line, n)) =>
        match MatchBanner(line)
        case None => After(n, SeekBanner(s[n..], used + 1))
        case Some(info) => After(n, CheckGreeting(s[n..], used + 1, info))
  }

  /** The two checks after the banner line: the help line, then the
      prompt. */
  function CheckGreeting(s: seq<byte>, used: nat, info: Info): (r: Option<Greeting>)
    requires used <= 4
    ensures r.Some? ==> r.value.info == Some(info)
  {
    if used == 4 then Some(Greeting(0, Some(info), StopIteration))
    else
      match NextLine(s)
      case None => None
      case Some((help, n)) =>
        if help != HELP_LINE then
          Some(Greeting(n, Some(info), DeviceError("Enter REPL response mismatch")))
        else if used + 1 == 4 then Some(Greeting(n, Some(info), StopIteration))
        else
          match NextLine(s[n..])
          case None => None
          case Some((prompt, n2)) =>
            if prompt != PROMPT then
              Some(Greeting(n + n2, Some(info), DeviceError("Error starting REPL")))
            else Some(Greeting(n + n2, Some(info), Done(())))
  }

  function EnterReplRun(s: seq<byte>): Option<Greeting> {
    SeekBanner(s, 0)
  }

  /** What is left of enter_repl with `used` lines taken: the search for
      the banner, or, once it is found, the checks after it. */
  function ReplRest(s: seq<byte>, used: nat, banner: Option<Info>): Option<Greeting>
    requires used <= 4
  {
    match banner
    case None => SeekBanner(s, used)
    case Some(info) => CheckGreeting(s, used, info)
  }

  /** `x` ends as `g` does, `c` bytes into the input `g` was read from:
      what the enter_repl loop knows about the part still to come. */
  predicate Continues(g: Greeting, c: nat, x: Option<Greeting>) {
    x.Some? && c + x.value.consumed == g.consumed && x.value.info == g.info && x.value.outcome == g.outcome
  }

  /** Reading `n` more bytes moves them from what is to come to what has
      been consumed. */
  lemma {:induction false} ContinuesAfter(g: Greeting, c: nat, n: nat, y: Option<Greeting>)
    requires Continues(g, c, After(n, y))
    ensures Continues(g, c + n, y)
  {
  }

  /** A line the banner pattern does not match is skipped. */
  lemma {:induction false} SeekBannerSkips(s: seq<byte>, used: nat, line: string, n: nat)
    requires used < 4 && NextLine(s) == Some((line, n)) && MatchBanner(line).None?
    ensures SeekBanner(s, used) == After(n, SeekBanner(s[n..], used + 1))
  {
  }

  /** The first line the banner pattern matches ends the search. */
  lemma {:induction false} SeekBannerFinds(s: seq<byte>, used: nat, line: string, n: nat, info: Info)
    requires used < 4 && NextLine(s) == Some((line, n)) && MatchBanner(line) == Some(info)
    ensures SeekBanner(s, used) == After(n, CheckGreeting(s[n..], used + 1, info))
  {
  }

  /** Help line then prompt: the REPL has started. */
  lemma {:induction false} CheckGreetingStarts(s: seq<byte>, used: nat, info: Info, n2: nat, n3: nat)
    requires used < 3 && NextLine(s) == Some((HELP_LINE, n2))
    requires NextLine(s[n2..]) == Some((PROMPT, n3))
    ensures CheckGreeting(s, used, info) == Some(Greeting(n2 + n3, Some(info), Done(())))
  {
  }

  /** Any other line where the help line belongs is a mismatch. */
  lemma {:induction false} CheckGreetingMismatch(s: seq<byte>, used: nat, info: Info, help: string, n2: nat)
    requires used < 4 && NextLine(s) == Some((help, n2)) && help != HELP_LINE
    ensures CheckGreeting(s, used, info)
            == Some(Greeting(n2, Some(info), DeviceError("Enter REPL response mismatch")))
  {
  }

  /** Any other line where the prompt belongs: the REPL did not start. */
  lemma {:induction false} CheckGreetingNoPrompt(s: seq<byte>, used: nat, info: Info, n2: nat, prompt: string, n3: nat)
    requires used < 3 && NextLine(s) == Some((HELP_LINE, n2))
    requires NextLine(s[n2..]) == Some((prompt, n3)) && prompt != PROMPT
    ensures CheckGreeting(s, used, info)
            == Some(Greeting(n2 + n3, Some(info), DeviceError("Error starting REPL")))
  {
  }

  /** The banner as the fourth line: the help line is the fifth `next`,
      which raises StopIteration. */
  lemma {:induction false} CheckGreetingExhausted(s: seq<byte>, info: Info, n2: nat)
    requires NextLine(s) == Some((HELP_LINE, n2))
    ensures CheckGreeting(s, 3, info) == Some(Greeting(n2, Some(info), StopIteration))
  {
  }

  lemma {:induction false} AfterSome(n: nat, g: Option<Greeting>, e: Greeting)
    requires g == Some(e)
    ensures After(n, g) == Some(e.(consumed := n + e.consumed))
  {
  }

  /** When the first line is a banner, enter_repl ends as the checks after
      it end, having also consumed that line. */
  lemma {:induction false} EnterReplAfterBanner(s: seq<byte>, line: string, info: Info, n1: nat, e: Greeting)
    requires NextLine(s) == Some((line, n1)) && MatchBanner(line) == Some(info)
    requires CheckGreeting(s[n1..], 1, info) == Some(e)
    ensures EnterReplRun(s) == Some(e.(consumed := n1 + e.consumed))
  {
    SeekBannerFinds(s, 0, line, n1, info);
    AfterSome(n1, CheckGreeting(s[n1..], 1, info), e);
  }

  /** Four lines without a banner exhaust readlines(4): the fifth `next`
      raises StopIteration and no field is set. */
  lemma {:induction false} EnterReplGivesUp(s: seq<byte>, lines: seq<string>, ns: seq<nat>)
    requires |lines| == 4 && |ns| == 4
    requires forall k :: 0 <= k < 4 ==> MatchBanner(lines[k]).None?
    requires NextLine(s) == Some((lines[0], ns[0]))
    requires NextLine(s[ns[0]..]) == Some((lines[1], ns[1]))
    requires NextLine(s[ns[0]..][ns[1]..]) == Some((lines[2], ns[2]))
    requires NextLine(s[ns[0]..][ns[1]..][ns[2]..]) == Some((lines[3], ns[3]))
    ensures EnterReplRun(s) == Some(Greeting(ns[0] + ns[1] + ns[2] + ns[3], None, StopIteration))
  {
    var s1 := s[ns[0]..];
    var s2 := s1[ns[1]..];
    var s3 := s2[ns[2]..];
    SeekBannerSkips(s, 0, lines[0], ns[0]);
    SeekBannerSkips(s1, 1, lines[1], ns[1]);
    SeekBannerSkips(s2, 2, lines[2], ns[2]);
    SeekBannerSkips(s3, 3, lines[3], ns[3]);
  }
}
