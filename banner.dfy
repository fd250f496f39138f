/** The firmware banner a MicroPython board prints when its friendly REPL
    starts, `MicroPython v<version>-<hash> on <date>; <board>`, and the
    regular expression the serial classes match it with:
    `MicroPython v(\d+\.\d+\.\d+-\d+)-(.{9}) on (\d{4}-\d{2}-\d{2}); (.+)`,
    applied with re.match (anchored at the start only). `.` is any
    character but a line feed. */
module Banner {
  import opened Options
  import opened Text

  /** The four groups of the pattern: version, git hash, date, board. */
  datatype Info = Info(version: string, gitHash: string, date: string, board: string)

  const BANNER_HEAD: string := "MicroPython v"

  /** The line a board with this information prints. */
  function BannerText(info: Info): string {
    BANNER_HEAD + info.version + "-" + info.gitHash + " on " + info.date + "; " + info.board
  }

  /** `\d{4}-\d{2}-\d{2}`. */
  predicate IsDate(d: string) {
    |d| == 10 && d[4] == '-' && d[7] == '-'
    && AllDigits(d[..4]) && AllDigits(d[5..7]) && AllDigits(d[8..])
  }

  /** `\d+` (greedy) then the character `c`: the digits and what follows
      `c`. A greedy run followed by a non-digit cannot give anything back,
      so there is no other way to match. */
  function DigitsThen(s: string, c: char): (r: Option<(string, string)>)
  {
    var n := DigitRun(s);
    if 0 < n < |s| && s[n] == c then Some((s[..n], s[n + 1..])) else None
  }

  /** What DigitsThen reads is a digit run, then `c`, then the rest. */
  lemma {:induction false} DigitsThenSound(s: string, c: char)
    requires DigitsThen(s, c).Some?
    ensures var (d, rest) := DigitsThen(s, c).value;
            d != [] && AllDigits(d) && s == d + [c] + rest
  {
    var n := DigitRun(s);
    assert s == s[..n] + [c] + s[n + 1..];
  }

  lemma {:induction false} DigitsThenOf(d: string, c: char, rest: string)
    requires d != [] && AllDigits(d) && !IsDigit(c)
    ensures DigitsThen(d + [c] + rest, c) == Some((d, rest))
  {
    var s := d + [c] + rest;
    assert s == d + ([c] + rest);
    DigitRunOfDigits(d, [c] + rest);
    assert s[..|d|] == d && s[|d| + 1..] == rest;
  }

  /** `\d+\.\d+\.\d+-\d+` and the `-` after it: the version group and what
      follows the `-`. */
  function MatchVersion(s: string): (r: Option<(string, string)>)
  {
    var p1 := DigitsThen(s, '.');
    if p1.None? then None else
    var p2 := DigitsThen(p1.value.1, '.');
    if p2.None? then None else
    var p3 := DigitsThen(p2.value.1, '-');
    if p3.None? then None else
    var p4 := DigitsThen(p3.value.1, '-');
    if p4.None? then None else
    Some((p1.value.0 + "." + p2.value.0 + "." + p3.value.0 + "-" + p4.value.0, p4.value.1))
  }

  /** The length of the run `.+` takes at the start of `s`: everything up
      to the first line feed. */
  function LineRun(s: string): (n: nat)
    ensures n <= |s| && '\n' !in s[..n]
    ensures n < |s| ==> s[n] == '\n'
  {
    if s != [] && s[0] != '\n' then
      var n := 1 + LineRun(s[1..]);
      assert s[..n] == [s[0]] + s[1..][..n - 1];
      n
    else 0
  }

  lemma {:induction false} LineRunOf(line: string, rest: string)
    requires '\n' !in line && (rest == [] || rest[0] == '\n')
    ensures LineRun(line + rest) == |line|
  {
    if line != [] {
      assert (line + rest)[1..] == line[1..] + rest;
      LineRunOf(line[1..], rest);
    }
  }

  /** Everything after the version: `.{9} on <date>; .+`. */
  function MatchAfterVersion(version: string, s: string): (r: Option<Info>)
  {
    if 25 <= |s| && '\n' !in s[..9] && s[9..13] == " on " && IsDate(s[13..23])
       && s[23..25] == "; " && LineRun(s[25..]) > 0 then
      Some(Info(version, s[..9], s[13..23], s[25..][..LineRun(s[25..])]))
    else None
  }

  /** re.match of the banner pattern; whatever follows the board name is
      ignored. */
  function MatchBanner(s: string): (r: Option<Info>)
  {
    if !StartsWith(s, BANNER_HEAD) then None
    else
      match MatchVersion(s[|BANNER_HEAD|..])
      case None => None
      case Some((version, rest)) => MatchAfterVersion(version, rest)
  }

  /** A version of four digit groups is read back, and the text after its
      `-` is left. */
  lemma {:induction false} MatchVersionOf(d1: string, d2: string, d3: string, d4: string, tail: string)
    requires d1 != [] && d2 != [] && d3 != [] && d4 != []
    requires AllDigits(d1) && AllDigits(d2) && AllDigits(d3) && AllDigits(d4)
    ensures MatchVersion(d1 + "." + d2 + "." + d3 + "-" + d4 + "-" + tail)
            == Some((d1 + "." + d2 + "." + d3 + "-" + d4, tail))
  {
    var r3 := d4 + ['-'] + tail;
    var r2 := d3 + ['-'] + r3;
    var r1 := d2 + ['.'] + r2;
    var r0 := d1 + ['.'] + r1;
    assert d1 + "." + d2 + "." + d3 + "-" + d4 + "-" + tail == r0;
    DigitsThenOf(d1, '.', r1);
    DigitsThenOf(d2, '.', r2);
    DigitsThenOf(d3, '-', r3);
    DigitsThenOf(d4, '-', tail);
  }

  /** The hash, date and board are read back; the board ends at the end of
      the text or at a line feed. */
  lemma {:induction false} MatchAfterVersionOf(version: string, h: string, date: string, board: string, rest: string)
    requires |h| == 9 && '\n' !in h && IsDate(date)
    requires board != [] && '\n' !in board && (rest == [] || rest[0] == '\n')
    ensures MatchAfterVersion(version, h + " on " + date + "; " + board + rest)
            == Some(Info(version, h, date, board))
  {
    var s := h + " on " + date + "; " + board + rest;
    assert s[..9] == h && s[9..13] == " on " && s[13..23] == date && s[23..25] == "; ";
    assert s[25..] == board + rest;
    LineRunOf(board, rest);
    assert (board + rest)[..|board|] == board;
  }

  /** A banner line whose version is four digit groups, with a 9-character
      hash, a date, and a board name running to the end of the line, is
      matched, and the four groups are its fields. */
  lemma {:induction false} MatchBannerOfText(info: Info, d1: string, d2: string, d3: string, d4: string, rest: string)
    requires d1 != [] && d2 != [] && d3 != [] && d4 != []
    requires AllDigits(d1) && AllDigits(d2) && AllDigits(d3) && AllDigits(d4)
    requires info.version == d1 + "." + d2 + "." + d3 + "-" + d4
    requires |info.gitHash| == 9 && '\n' !in info.gitHash && IsDate(info.date)
    requires info.board != [] && '\n' !in info.board
    requires rest == [] || rest[0] == '\n'
    ensures MatchBanner(BannerText(info) + rest) == Some(info)
  {
    var s := BannerText(info) + rest;
    var tail := info.gitHash + " on " + info.date + "; " + info.board + rest;
    BannerTextParts(info, rest, tail);
    assert s[|BANNER_HEAD|..] == info.version + "-" + tail;
    MatchVersionOf(d1, d2, d3, d4, tail);
    MatchAfterVersionOf(info.version, info.gitHash, info.date, info.board, rest);
  }

  lemma {:induction false} BannerTextParts(info: Info, rest: string, tail: string)
    requires tail == info.gitHash + " on " + info.date + "; " + info.board + rest
    ensures BannerText(info) + rest == BANNER_HEAD + (info.version + "-" + tail)
  {
  }

  /** What MatchVersion reads is a version of four digit groups, its `-`,
      and the rest. */
  lemma {:induction false} MatchVersionSound(s: string) returns (d1: string, d2: string, d3: string, d4: string)
    requires MatchVersion(s).Some?
    ensures d1 != [] && d2 != [] && d3 != [] && d4 != []
    ensures AllDigits(d1) && AllDigits(d2) && AllDigits(d3) && AllDigits(d4)
    ensures MatchVersion(s).value.0 == d1 + "." + d2 + "." + d3 + "-" + d4
    ensures s == MatchVersion(s).value.0 + "-" + MatchVersion(s).value.1
  {
    var p1 := DigitsThen(s, '.').value;
    var p2 := DigitsThen(p1.1, '.').value;
    var p3 := DigitsThen(p2.1, '-').value;
    var p4 := DigitsThen(p3.1, '-').value;
    DigitsThenSound(s, '.');
    DigitsThenSound(p1.1, '.');
    DigitsThenSound(p2.1, '-');
    DigitsThenSound(p3.1, '-');
    var a := p1.0 + ".";
    Regroup(a, p2.0, '.', p2.1);
    var b := a + p2.0 + ".";
    Regroup(b, p3.0, '-', p3.1);
    var c := b + p3.0 + "-";
    Regroup(c, p4.0, '-', p4.1);
    d1, d2, d3, d4 := p1.0, p2.0, p3.0, p4.0;
  }

  lemma {:induction false} Regroup(x: string, y: string, c: char, z: string)
    ensures x + (y + [c] + z) == x + y + [c] + z
  {
  }

  /** What MatchAfterVersion reads is the hash, the date and the board, and
      the board runs to the end of the text or to a line feed. */
  lemma {:induction false} MatchAfterVersionSound(version: string, s: string) returns (rest: string)
    requires MatchAfterVersion(version, s).Some?
    ensures var info := MatchAfterVersion(version, s).value;
            && info.version == version
            && s == info.gitHash + " on " + info.date + "; " + info.board + rest
            && |info.gitHash| == 9 && '\n' !in info.gitHash && IsDate(info.date)
            && info.board != [] && '\n' !in info.board
            && (rest == [] || rest[0] == '\n')
  {
    var n := LineRun(s[25..]);
    rest := s[25 + n..];
    assert s[25..][..n] == s[25..25 + n];
    assert s == s[..9] + " on " + s[13..23] + "; " + s[25..25 + n] + rest;
  }

  /** Whatever the pattern matches is a banner line with a version of four
      digit groups, a 9-character hash, a date and a non-empty board name,
      followed by nothing or by a line feed. */
  lemma {:induction false} MatchBannerSound(s: string) returns (rest: string, d1: string, d2: string, d3: string, d4: string)
    requires MatchBanner(s).Some?
    ensures d1 != [] && d2 != [] && d3 != [] && d4 != []
    ensures AllDigits(d1) && AllDigits(d2) && AllDigits(d3) && AllDigits(d4)
    ensures var info := MatchBanner(s).value;
            && info.version == d1 + "." + d2 + "." + d3 + "-" + d4
            && s == BannerText(info) + rest
            && |info.gitHash| == 9 && '\n' !in info.gitHash && IsDate(info.date)
            && info.board != [] && '\n' !in info.board
            && (rest == [] || rest[0] == '\n')
  {
    var info := MatchBanner(s).value;
    var v := MatchVersion(s[|BANNER_HEAD|..]).value;
    d1, d2, d3, d4 := MatchVersionSound(s[|BANNER_HEAD|..]);
    rest := MatchAfterVersionSound(v.0, v.1);
    assert s == BANNER_HEAD + s[|BANNER_HEAD|..];
    BannerTextParts(info, rest, v.1);
  }
}
