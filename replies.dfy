/** What the file-system adapter makes of the board's replies: the errors it
    raises, the `OSError: [Errno N]` extraction, the `os.stat`/`os.statvfs`
    tuple parser, the `os.listdir` name extraction and the CRLF clean-up of
    `read`. Both adapters (src/mpy_fuse.py and src/mpy-fuse.py) share these. */
module Replies {
  import opened Options
  import opened Text
  import opened Board

  /** The exceptions an adapter call ends with, one per Python exception. */
  datatype Failure =
    | FuseOSError(errno: nat)     // raised with the number found in the board's error text
    | PyboardError(text: string)  // the board's error, propagated unchanged
    | KeyError(handle: int)       // `file_handles[fh]` of a handle that is not open
    | AttributeError              // `re.match` found nothing and `.groupdict()` was called on None
    | NotImplementedError
    | UnicodeEncodeError          // `.encode('ascii')` of a reply holding a non-ASCII character

  datatype Result<+T> = Ok(value: T) | Err(failure: Failure)

  // ---------------------------------------------------------------------
  // Error numbers: re.compile(r'OSError: \[Errno (?P<error_number>\d+)\]').search

  const ErrnoPrefix: string := "OSError: [Errno "

  /** The pattern matched at the very start of `s`. The greedy `\d+` must be
      followed by `]`, and a shorter run would be followed by a digit, so the
      whole digit run is the only candidate. */
  function ErrnoAt(s: string): (r: Option<nat>)
    ensures r.Some? <==> StartsWith(s, ErrnoPrefix)
                         && 0 < DigitRun(s[|ErrnoPrefix|..]) < |s| - |ErrnoPrefix|
                         && s[|ErrnoPrefix| + DigitRun(s[|ErrnoPrefix|..])] == ']'
  {
    if StartsWith(s, ErrnoPrefix) then
      var rest := s[|ErrnoPrefix|..];
      var n := DigitRun(rest);
      if 0 < n < |rest| && rest[n] == ']' then Some(DigitsValue(rest[..n])) else None
    else None
  }

  /** Where the leftmost match at or after `i` starts, if any. */
  function ErrnoFrom(s: string, i: nat): (r: Option<nat>)
    requires i <= |s|
    ensures r.Some? ==> i <= r.value <= |s| && ErrnoAt(s[r.value..]).Some?
    decreases |s| - i
  {
    if ErrnoAt(s[i..]).Some? then Some(i)
    else if i == |s| then None
    else ErrnoFrom(s, i + 1)
  }

  /** No match starts between `i` and where ErrnoFrom stops. */
  lemma {:induction false} ErrnoFromFirst(s: string, i: nat)
    requires i <= |s|
    ensures forall j :: i <= j <= |s| && j < Limit(ErrnoFrom(s, i), |s|) ==> ErrnoAt(s[j..]).None?
    decreases |s| - i
  {
    var r := ErrnoFrom(s, i);
    if ErrnoAt(s[i..]).Some? {
      assert Limit(r, |s|) == i;
    } else if i == |s| {
      forall j | i <= j <= |s| ensures ErrnoAt(s[j..]).None? {
        assert j == i;
      }
    } else {
      ErrnoFromFirst(s, i + 1);
      assert r == ErrnoFrom(s, i + 1);
      forall j | i <= j <= |s| && j < Limit(r, |s|) ensures ErrnoAt(s[j..]).None? {
        if j > i {
          assert i + 1 <= j;
        }
      }
    }
  }

  /** `pattern.search(s)`: the number of the match that starts leftmost,
      if any. */
  function FindErrno(s: string): (r: Option<nat>)
  {
    var m := ErrnoFrom(s, 0);
    if m.Some? then ErrnoAt(s[m.value..]) else None
  }

  /** search finds nothing exactly when the pattern matches nowhere, and
      otherwise the number of a match before which none starts. */
  lemma {:induction false} FindErrnoIsLeftmost(s: string)
    ensures FindErrno(s).None? <==> forall i :: 0 <= i <= |s| ==> ErrnoAt(s[i..]).None?
    ensures FindErrno(s).Some? ==> exists i :: 0 <= i <= |s| && ErrnoAt(s[i..]) == FindErrno(s)
                                               && forall j :: 0 <= j < i ==> ErrnoAt(s[j..]).None?
  {
    ErrnoFromFirst(s, 0);
    var m := ErrnoFrom(s, 0);
    if m.Some? {
      var i := m.value;
      forall j | 0 <= j < i ensures ErrnoAt(s[j..]).None? {
        assert j < Limit(m, |s|);
      }
    } else {
      forall i | 0 <= i <= |s| ensures ErrnoAt(s[i..]).None? {
        assert i < Limit(m, |s|);
      }
    }
  }

  /** The leftmost match is the one at `k` when none starts before it. */
  lemma {:induction false} FindErrnoAt(s: string, k: nat, n: nat)
    requires k <= |s| && ErrnoAt(s[k..]) == Some(n)
    requires forall j :: 0 <= j < k ==> ErrnoAt(s[j..]).None?
    ensures FindErrno(s) == Some(n)
  {
    ErrnoFromFirst(s, 0);
    var m := ErrnoFrom(s, 0);
    assert !(k < Limit(m, |s|));
    assert m == Some(k);
  }

  /** The pattern matches a report line at its start. */
  lemma {:induction false} ErrnoAtReport(tail: string, n: nat, post: string)
    requires tail == ErrnoPrefix + NatToString(n) + "]" + post
    ensures ErrnoAt(tail) == Some(n)
  {
    assert StartsWith(tail, ErrnoPrefix);
    var rest := tail[|ErrnoPrefix|..];
    assert rest == NatToString(n) + ("]" + post);
    DigitRunOfDigits(NatToString(n), "]" + post);
    assert rest[..|NatToString(n)|] == NatToString(n);
    DigitsValueOfNatToString(n);
  }

  /** A device error report whose text before the `OSError` line holds no
      capital `O` yields the number that line carries. */
  lemma {:induction false} ErrnoOfReport(pre: string, n: nat, post: string)
    requires 'O' !in pre
    ensures FindErrno(pre + ErrnoPrefix + NatToString(n) + "]" + post) == Some(n)
  {
    var s := pre + ErrnoPrefix + NatToString(n) + "]" + post;
    var tail := ErrnoPrefix + NatToString(n) + "]" + post;
    assert s[|pre|..] == tail;
    ErrnoAtReport(tail, n, post);
    forall j | 0 <= j < |pre| ensures ErrnoAt(s[j..]).None? {
      assert s[j..][0] == pre[j];
      ErrnoAtNeedsO(s[j..]);
    }
    FindErrnoAt(s, |pre|, n);
  }

  /** A match starts with a capital `O`. */
  lemma {:induction false} ErrnoAtNeedsO(t: string)
    requires t != [] && t[0] != 'O'
    ensures ErrnoAt(t).None?
  {
    assert |t| < |ErrnoPrefix| || t[..|ErrnoPrefix|][0] != ErrnoPrefix[0];
  }

  /** What `MpyFuse*.eval` makes of the board's reply: the printed text, or
      `FuseOSError(N)` for the first `OSError: [Errno N]` in the error text,
      or else the board's own error. */
  function EvalOutcome(reply: Reply): (r: Result<string>)
    ensures reply.Output? ==> r == Ok(reply.text)
    ensures reply.Error? && FindErrno(reply.text).Some? ==> r == Err(FuseOSError(FindErrno(reply.text).value))
    ensures reply.Error? && FindErrno(reply.text).None? ==> r == Err(PyboardError(reply.text))
  {
    match reply
    case Output(text) => Ok(text)
    case Error(text) =>
      match FindErrno(text)
      case Some(n) => Err(FuseOSError(n))
      case None => Err(PyboardError(text))
  }

  /** What `board.exec` comes to: nothing, or the board's error itself (only
      `eval` looks for an error number). */
  function ExecOutcome(reply: Reply): (r: Result<()>)
    ensures r.Ok? <==> reply.Output?
    ensures reply.Error? ==> r == Err(PyboardError(reply.text))
  {
    match reply
    case Output(_) => Ok(())
    case Error(text) => Err(PyboardError(text))
  }

  /** An operation that evaluates something only for its effect: the value
      printed is dropped, an error is kept. */
  function Discard(r: Result<string>): (d: Result<()>)
    ensures d.Ok? <==> r.Ok?
    ensures r.Err? ==> d == Err(r.failure)
  {
    match r
    case Ok(_) => Ok(())
    case Err(f) => Err(f)
  }

  // ---------------------------------------------------------------------
  // Tuples: the `\((\d+), (\d+), ..., (\d+)\)` patterns of getattr and statfs,
  // applied with re.match (anchored at the start only).

  /** `k` fields `\d+` separated by `, ` and closed by `)`. Each greedy `\d+`
      is followed by `,` or `)`, so it takes the whole digit run. */
  function TupleFields(s: string, k: nat): (r: Option<seq<nat>>)
    requires k >= 1
    ensures r.Some? ==> |r.value| == k
  {
    var n := DigitRun(s);
    if n == 0 then None
    else
      var v := DigitsValue(s[..n]);
      var rest := s[n..];
      if k == 1 then
        if StartsWith(rest, ")") then Some([v]) else None
      else if StartsWith(rest, ", ") then
        match TupleFields(rest[2..], k - 1)
        case None => None
        case Some(vs) => Some([v] + vs)
      else None
  }

  /** An `arity`-field tuple at the start of `s`; anything after the `)` is
      ignored, as re.match ignores it. */
  function ParseTuple(s: string, arity: nat): (r: Option<seq<nat>>)
    requires arity >= 1
    ensures r.Some? ==> |r.value| == arity && StartsWith(s, "(")
  {
    if StartsWith(s, "(") then TupleFields(s[1..], arity) else None
  }

  /** The fields rendered the way the device prints a tuple of integers. */
  function TupleText(xs: seq<nat>): string
    requires |xs| >= 1
  {
    "(" + FieldsText(xs) + ")"
  }

  function FieldsText(xs: seq<nat>): string
    requires |xs| >= 1
  {
    if |xs| == 1 then NatToString(xs[0]) else NatToString(xs[0]) + ", " + FieldsText(xs[1..])
  }

  /** One printed field followed by a non-digit: the digit run is exactly
      the field, and its value is the number printed. */
  lemma {:induction false} FieldOfText(x: nat, rest: string)
    requires rest == [] || !IsDigit(rest[0])
    ensures var s := NatToString(x) + rest;
            DigitRun(s) == |NatToString(x)| && s[..|NatToString(x)|] == NatToString(x)
            && s[|NatToString(x)|..] == rest && DigitsValue(NatToString(x)) == x
  {
    DigitRunOfDigits(NatToString(x), rest);
    DigitsValueOfNatToString(x);
  }

  /** The last field, then `)`. */
  lemma {:induction false} TupleFieldsOfLast(s: string, x: nat, after: string)
    requires s == NatToString(x) + after && StartsWith(after, ")")
    ensures TupleFields(s, 1) == Some([x])
  {
    FieldOfText(x, after);
  }

  /** A field, then `, ` and the remaining fields. */
  lemma {:induction false} TupleFieldsOfNext(s: string, x: nat, tail: string, k: nat, vs: seq<nat>)
    requires k >= 2 && s == NatToString(x) + (", " + tail)
    requires TupleFields(tail, k - 1) == Some(vs)
    ensures TupleFields(s, k) == Some([x] + vs)
  {
    FieldOfText(x, ", " + tail);
    assert (", " + tail)[2..] == tail;
  }

  /** The printed fields, the closing `)` and whatever follows, built field
      by field. */
  function ClosedFields(xs: seq<nat>, trailing: string): string
    requires |xs| >= 1
  {
    if |xs| == 1 then NatToString(xs[0]) + (")" + trailing)
    else NatToString(xs[0]) + (", " + ClosedFields(xs[1..], trailing))
  }

  lemma {:induction false} ClosedFieldsText(xs: seq<nat>, trailing: string)
    requires |xs| >= 1
    ensures ClosedFields(xs, trailing) == FieldsText(xs) + ")" + trailing
  {
    if |xs| > 1 {
      ClosedFieldsText(xs[1..], trailing);
    }
  }

  /** Parsing printed fields closed by `)` gives them back. */
  lemma {:induction false} TupleFieldsOfText(xs: seq<nat>, trailing: string, n: nat)
    requires n == |xs| >= 1
    ensures TupleFields(ClosedFields(xs, trailing), n) == Some(xs)
  {
    if |xs| == 1 {
      TupleFieldsOfLast(ClosedFields(xs, trailing), xs[0], ")" + trailing);
      assert [xs[0]] == xs;
    } else {
      TupleFieldsOfText(xs[1..], trailing, n - 1);
      TupleFieldsOfClosed(xs, trailing, n);
    }
  }

  /** One more field in front of fields that parse back. */
  lemma {:induction false} TupleFieldsOfClosed(xs: seq<nat>, trailing: string, n: nat)
    requires n == |xs| >= 2
    requires TupleFields(ClosedFields(xs[1..], trailing), n - 1) == Some(xs[1..])
    ensures TupleFields(ClosedFields(xs, trailing), n) == Some(xs)
  {
    var tail := ClosedFields(xs[1..], trailing);
    assert ClosedFields(xs, trailing) == NatToString(xs[0]) + (", " + tail);
    TupleFieldsOfNext(ClosedFields(xs, trailing), xs[0], tail, n, xs[1..]);
    assert [xs[0]] + xs[1..] == xs;
  }

  /** Parsing a printed tuple gives its fields back, whatever follows it. */
  lemma {:induction false} ParseTupleOfText(xs: seq<nat>, trailing: string)
    requires |xs| >= 1
    ensures ParseTuple(TupleText(xs) + trailing, |xs|) == Some(xs)
  {
    var s := TupleText(xs) + trailing;
    ClosedFieldsText(xs, trailing);
    assert s[1..] == ClosedFields(xs, trailing);
    TupleFieldsOfText(xs, trailing, |xs|);
  }

  /** The ten fields of `os.stat`, in the order the pattern names them. */
  datatype Stat = Stat(st_mode: nat, st_ino: nat, st_dev: nat, st_nlink: nat,
                       st_uid: nat, st_gid: nat, st_size: nat,
                       st_atime: nat, st_mtime: nat, st_ctime: nat)

  /** The ten fields of `os.statvfs`, in the order the pattern names them. */
  datatype StatFs = StatFs(f_bsize: nat, f_frsize: nat, f_blocks: nat, f_bfree: nat,
                           f_bavail: nat, f_files: nat, f_ffree: nat,
                           f_avail: nat, f_flag: nat, f_namemax: nat)

  function StatFields(st: Stat): (xs: seq<nat>)
    ensures |xs| == 10
  {
    [st.st_mode, st.st_ino, st.st_dev, st.st_nlink, st.st_uid,
     st.st_gid, st.st_size, st.st_atime, st.st_mtime, st.st_ctime]
  }

  function StatFsFields(fs: StatFs): (xs: seq<nat>)
    ensures |xs| == 10
  {
    [fs.f_bsize, fs.f_frsize, fs.f_blocks, fs.f_bfree, fs.f_bavail,
     fs.f_files, fs.f_ffree, fs.f_avail, fs.f_flag, fs.f_namemax]
  }

  /** getattr's parse of the `os.stat(...)` reply. */
  function ParseStat(ret: string): (r: Option<Stat>)
    ensures r.Some? <==> ParseTuple(ret, 10).Some?
    ensures r.Some? ==> StatFields(r.value) == ParseTuple(ret, 10).value
  {
    match ParseTuple(ret, 10)
    case None => None
    case Some(v) => Some(Stat(v[0], v[1], v[2], v[3], v[4], v[5], v[6], v[7], v[8], v[9]))
  }

  /** statfs's parse of the `os.statvfs(...)` reply. */
  function ParseStatFs(ret: string): (r: Option<StatFs>)
    ensures r.Some? <==> ParseTuple(ret, 10).Some?
    ensures r.Some? ==> StatFsFields(r.value) == ParseTuple(ret, 10).value
  {
    match ParseTuple(ret, 10)
    case None => None
    case Some(v) => Some(StatFs(v[0], v[1], v[2], v[3], v[4], v[5], v[6], v[7], v[8], v[9]))
  }

  /** The stat tuple as the device prints it parses back to the same ten
      named fields, in order. */
  lemma {:induction false} ParseStatOfText(st: Stat, trailing: string)
    ensures ParseStat(TupleText(StatFields(st)) + trailing) == Some(st)
  {
    ParseTupleOfText(StatFields(st), trailing);
  }

  lemma {:induction false} ParseStatFsOfText(fs: StatFs, trailing: string)
    ensures ParseStatFs(TupleText(StatFsFields(fs)) + trailing) == Some(fs)
  {
    ParseTupleOfText(StatFsFields(fs), trailing);
  }

  /** A reply that does not start with `(` is not a stat tuple. */
  lemma {:induction false} ParseStatNeedsParen(ret: string)
    requires ret == [] || ret[0] != '('
    ensures ParseStat(ret) == None && ParseStatFs(ret) == None
  {
  }

  // ---------------------------------------------------------------------
  // Directory listings: re.findall(r"'\s*([^']*?)\s*'", ret)

  /** The position of the first `c` at or after `i`, or `|s|` when there is
      none. */
  function IndexFrom(s: string, c: char, i: nat): (j: nat)
    requires i <= |s|
    ensures i <= j <= |s|
    ensures j < |s| ==> s[j] == c
    decreases |s| - i
  {
    if i == |s| then i
    else if s[i] == c then i
    else IndexFrom(s, c, i + 1)
  }

  /** No `c` lies between `i` and the one IndexFrom finds. */
  lemma {:induction false} IndexFromIsFirst(s: string, c: char, i: nat, j: nat)
    requires i <= j < |s| && j < IndexFrom(s, c, i)
    ensures s[j] != c
    decreases j - i
  {
    if j > i {
      IndexFromIsFirst(s, c, i + 1, j);
    }
  }

  /** Searching from `i` passes over a stretch up to `k` that holds no `c`. */
  lemma {:induction false} IndexFromSkips(s: string, c: char, i: nat, k: nat)
    requires i <= k <= |s|
    requires forall j :: i <= j < k ==> s[j] != c
    ensures IndexFrom(s, c, i) == IndexFrom(s, c, k)
    decreases k - i
  {
    if i < k {
      IndexFromSkips(s, c, i + 1, k);
    }
  }

  /** The texts between the quotes of each match, in order, from position
      `i` on. No group may hold a quote, so each match runs from a quote to
      the next one, and an unpaired last quote starts no match. */
  function FieldsFrom(s: string, i: nat): seq<string>
    requires i <= |s|
    decreases |s| - i
  {
    var p := IndexFrom(s, '\'', i);
    if p == |s| then [] else
    var q := IndexFrom(s, '\'', p + 1);
    if q == |s| then [] else [s[p + 1..q]] + FieldsFrom(s, q + 1)
  }

  /** Each text stripped: `\s*` greedy, the lazy group and `\s*` again
      leave the group equal to the stripped text between the quotes. */
  function StripAll(fields: seq<string>): (r: seq<string>)
    ensures |r| == |fields|
  {
    if fields == [] then [] else [Strip(fields[0])] + StripAll(fields[1..])
  }

  /** The groups re.findall returns, in order. */
  function QuotedItems(s: string): seq<string> {
    StripAll(FieldsFrom(s, 0))
  }

  /** A match between the quote at `p` and the next one, at `q`. */
  lemma {:induction false} FieldsFromAt(s: string, i: nat, p: nat, q: nat)
    requires i <= p < q < |s|
    requires IndexFrom(s, '\'', i) == p && IndexFrom(s, '\'', p + 1) == q
    ensures FieldsFrom(s, i) == [s[p + 1..q]] + FieldsFrom(s, q + 1)
  {
  }

  /** Text without a quote starts no match. */
  lemma {:induction false} FieldsFromSkips(s: string, i: nat, k: nat)
    requires i <= k <= |s|
    requires forall j :: i <= j < k ==> s[j] != '\''
    ensures FieldsFrom(s, i) == FieldsFrom(s, k)
  {
    IndexFromSkips(s, '\'', i, k);
    var p := IndexFrom(s, '\'', k);
    if p < |s| {
      var q := IndexFrom(s, '\'', p + 1);
      if q < |s| {
        FieldsFromAt(s, i, p, q);
        FieldsFromAt(s, k, p, q);
      } else {
        FieldsFromUnpaired(s, i, p);
        FieldsFromUnpaired(s, k, p);
      }
    } else {
      FieldsFromNone(s, i);
      FieldsFromNone(s, k);
    }
  }

  /** A quote with no partner after it starts no match. */
  lemma {:induction false} FieldsFromUnpaired(s: string, i: nat, p: nat)
    requires i <= p < |s| && IndexFrom(s, '\'', i) == p && IndexFrom(s, '\'', p + 1) == |s|
    ensures FieldsFrom(s, i) == []
  {
  }

  lemma {:induction false} FieldsFromNone(s: string, i: nat)
    requires i <= |s| && IndexFrom(s, '\'', i) == |s|
    ensures FieldsFrom(s, i) == []
  {
  }

  /** No text between two quotes holds a quote. */
  lemma {:induction false} FieldsFromHaveNoQuote(s: string, i: nat)
    requires i <= |s|
    ensures forall k :: 0 <= k < |FieldsFrom(s, i)| ==> '\'' !in FieldsFrom(s, i)[k]
    decreases |s| - i
  {
    var p := IndexFrom(s, '\'', i);
    if p < |s| {
      var q := IndexFrom(s, '\'', p + 1);
      if q < |s| {
        FieldsFromAt(s, i, p, q);
        FieldHasNoQuote(s, p, q);
        FieldsFromHaveNoQuote(s, q + 1);
        var fields := FieldsFrom(s, q + 1);
        var all := [s[p + 1..q]] + fields;
        forall k | 0 <= k < |all| ensures '\'' !in all[k] {
          if k > 0 {
            assert all[k] == fields[k - 1];
          }
        }
      } else {
        FieldsFromUnpaired(s, i, p);
      }
    } else {
      FieldsFromNone(s, i);
    }
  }

  lemma {:induction false} FieldHasNoQuote(s: string, p: nat, q: nat)
    requires p < q <= |s| && IndexFrom(s, '\'', p + 1) == q
    ensures '\'' !in s[p + 1..q]
  {
    var field := s[p + 1..q];
    forall j | 0 <= j < |field| ensures field[j] != '\'' {
      IndexFromIsFirst(s, '\'', p + 1, p + 1 + j);
    }
  }

  /** A name as the listing can return it: no quote inside, no whitespace
      around it. */
  predicate PlainName(name: string) {
    '\'' !in name && Stripped(name)
  }

  /** Stripped texts without a quote are plain. */
  lemma {:induction false} StripAllArePlain(fields: seq<string>)
    requires forall k :: 0 <= k < |fields| ==> '\'' !in fields[k]
    ensures forall k :: 0 <= k < |StripAll(fields)| ==> PlainName(StripAll(fields)[k])
  {
    if fields != [] {
      StripKeepsAbsent(fields[0], '\'');
      StripAllArePlain(fields[1..]);
      var all := StripAll(fields);
      forall k | 0 <= k < |all| ensures PlainName(all[k]) {
        if k > 0 {
          assert all[k] == StripAll(fields[1..])[k - 1];
        }
      }
    }
  }

  /** Plain names are left as they are. */
  lemma {:induction false} StripAllOfPlain(names: seq<string>)
    requires forall k :: 0 <= k < |names| ==> PlainName(names[k])
    ensures StripAll(names) == names
  {
    if names != [] {
      StripOfStripped(names[0]);
      StripAllOfPlain(names[1..]);
      assert [names[0]] + names[1..] == names;
    }
  }

  /** Every name readdir returns is plain. */
  lemma {:induction false} QuotedItemsArePlain(s: string)
    ensures forall k :: 0 <= k < |QuotedItems(s)| ==> PlainName(QuotedItems(s)[k])
  {
    FieldsFromHaveNoQuote(s, 0);
    StripAllArePlain(FieldsFrom(s, 0));
  }

  /** How the device prints a list of names: `['a', 'b']`. */
  function ListText(names: seq<string>): string {
    "[" + ItemsText(names) + "]"
  }

  function ItemsText(names: seq<string>): string {
    if names == [] then ""
    else if |names| == 1 then "'" + names[0] + "'"
    else "'" + names[0] + "'" + (", " + ItemsText(names[1..]))
  }

  /** A quoted name at `i` is the next match. */
  lemma {:induction false} FieldsFromOfItem(t: string, i: nat, name: string, after: string) returns (k: nat)
    requires '\'' !in name
    requires i <= |t| && t[i..] == "'" + name + "'" + after
    ensures k == i + |name| + 2 <= |t| && t[k..] == after
    ensures FieldsFrom(t, i) == [name] + FieldsFrom(t, k)
  {
    var q := QuotedText(t, i, name, after);
    FieldsFromOfQuotes(t, i, q);
    k := q + 1;
    assert [t[i + 1..q]] == [name];
  }

  /** The quote at `i` and the next one, at `q`, make the next match. */
  lemma {:induction false} FieldsFromOfQuotes(t: string, i: nat, q: nat)
    requires i < q < |t| && t[i] == '\'' && t[q] == '\''
    requires forall j :: i + 1 <= j < q ==> t[j] != '\''
    ensures FieldsFrom(t, i) == [t[i + 1..q]] + FieldsFrom(t, q + 1)
  {
    assert IndexFrom(t, '\'', i) == i;
    IndexFromSkips(t, '\'', i + 1, q);
    assert IndexFrom(t, '\'', q) == q;
    FieldsFromAt(t, i, i, q);
  }

  /** Where the quotes around a quoted name lie, and what is between and
      after them. */
  lemma {:induction false} QuotedText(t: string, i: nat, name: string, after: string) returns (q: nat)
    requires '\'' !in name
    requires i <= |t| && t[i..] == "'" + name + "'" + after
    ensures q == i + 1 + |name| && q < |t| && t[i] == '\'' && t[q] == '\''
    ensures forall j :: i + 1 <= j < q ==> t[j] != '\''
    ensures t[i + 1..q] == name && t[q + 1..] == after
  {
    var x := "'" + name + "'" + after;
    q := i + 1 + |name|;
    forall j | 0 <= j < |x| ensures t[i + j] == x[j] {
      assert t[i..][j] == t[i + j];
    }
    assert t[i] == x[0];
    assert t[q] == x[|name| + 1];
    forall j | i + 1 <= j < q ensures t[j] != '\'' {
      assert t[j] == x[j - i] == name[j - i - 1];
    }
    assert t[i + 1..q] == name by {
      forall k | 0 <= k < |name| ensures t[i + 1..q][k] == name[k] {
        assert t[i + 1 + k] == x[k + 1];
      }
    }
    assert t[q + 1..] == after by {
      forall k | 0 <= k < |after| ensures t[q + 1..][k] == after[k] {
        assert t[q + 1 + k] == x[|name| + 2 + k];
      }
    }
  }

  /** The names of a printed list, followed by text with no quote, are
      the texts found in order from where the list starts. */
  lemma {:induction false} FieldsFromOfItemsText(t: string, i: nat, names: seq<string>, rest: string)
    requires forall k :: 0 <= k < |names| ==> '\'' !in names[k]
    requires '\'' !in rest
    requires i <= |t| && t[i..] == ItemsText(names) + rest
    ensures FieldsFrom(t, i) == names
    decreases |names|
  {
    if names == [] {
      FieldsFromOfRest(t, i, rest);
    } else if |names| == 1 {
      FieldsFromOfLastItem(t, i, names[0], rest);
      assert [names[0]] == names;
    } else {
      var name, more := names[0], names[1..];
      assert [name] + more == names;
      var j := FieldsFromOfNextItem(t, i, name, more, rest);
      FieldsFromOfItemsText(t, j, more, rest);
    }
  }

  lemma {:induction false} FieldsFromOfRest(t: string, i: nat, rest: string)
    requires '\'' !in rest
    requires i <= |t| && t[i..] == rest
    ensures FieldsFrom(t, i) == []
  {
    forall j | i <= j < |t| ensures t[j] != '\'' {
      assert t[j] == t[i..][j - i] == rest[j - i];
    }
    FieldsFromSkips(t, i, |t|);
  }

  lemma {:induction false} FieldsFromOfLastItem(t: string, i: nat, name: string, rest: string)
    requires '\'' !in name && '\'' !in rest
    requires i <= |t| && t[i..] == ItemsText([name]) + rest
    ensures FieldsFrom(t, i) == [name]
  {
    assert t[i..] == "'" + name + "'" + rest;
    var k := FieldsFromOfItem(t, i, name, rest);
    FieldsFromOfRest(t, k, rest);
  }

  /** The first of several names, and where the list goes on. */
  lemma {:induction false} FieldsFromOfNextItem(t: string, i: nat, name: string, more: seq<string>, rest: string)
      returns (j: nat)
    requires '\'' !in name && more != []
    requires i <= |t| && t[i..] == ItemsText([name] + more) + rest
    ensures j <= |t| && t[j..] == ItemsText(more) + rest
    ensures FieldsFrom(t, i) == [name] + FieldsFrom(t, j)
  {
    var tail := ItemsText(more) + rest;
    ItemsTextHead(t, i, name, more, rest);
    var k := FieldsFromOfItem(t, i, name, ", " + tail);
    j := FieldsFromOfSeparator(t, k, tail);
  }

  /** The `, ` between two names starts no match. */
  lemma {:induction false} FieldsFromOfSeparator(t: string, k: nat, tail: string) returns (j: nat)
    requires k <= |t| && t[k..] == ", " + tail
    ensures j <= |t| && t[j..] == tail
    ensures FieldsFrom(t, k) == FieldsFrom(t, j)
  {
    assert t[k] == ',' && t[k + 1] == ' ' by {
      assert t[k..][0] == ',' && t[k..][1] == ' ';
    }
    FieldsFromSkips(t, k, k + 2);
    j := k + 2;
    assert t[j..] == t[k..][2..];
  }

  lemma {:induction false} ItemsTextHead(t: string, i: nat, name: string, more: seq<string>, rest: string)
    requires more != []
    requires i <= |t| && t[i..] == ItemsText([name] + more) + rest
    ensures t[i..] == "'" + name + "'" + (", " + (ItemsText(more) + rest))
  {
    ItemsTextCons(name, more);
    AppendQuoted(name, ItemsText(more), rest);
  }

  lemma {:induction false} ItemsTextCons(name: string, more: seq<string>)
    requires more != []
    ensures ItemsText([name] + more) == "'" + name + "'" + (", " + ItemsText(more))
  {
    var names := [name] + more;
    assert names[0] == name && names[1..] == more;
  }

  lemma {:induction false} AppendQuoted(name: string, items: string, rest: string)
    ensures "'" + name + "'" + (", " + items) + rest == "'" + name + "'" + (", " + (items + rest))
  {
  }

  /** readdir gives back, in order, the names of a printed listing whose names
      hold no quote and no surrounding whitespace. */
  lemma {:induction false} QuotedItemsOfListText(names: seq<string>)
    requires forall k :: 0 <= k < |names| ==> PlainName(names[k])
    ensures QuotedItems(ListText(names)) == names
  {
    var t := ListText(names);
    assert t[0] == '[';
    FieldsFromSkips(t, 0, 1);
    assert t[1..] == ItemsText(names) + "]";
    FieldsFromOfItemsText(t, 1, names, "]");
    StripAllOfPlain(names);
  }

  // ---------------------------------------------------------------------
  // read: w.replace(b"\r\n", b"\n")

  /** Replaces each `\r\n` by `\n`, scanning left to right without overlap as
      Python's `replace` does. */
  function ReplaceCrLf(s: string): (r: string)
    ensures |r| <= |s|
    ensures '\r' !in s ==> r == s
  {
    if |s| >= 2 && s[0] == '\r' && s[1] == '\n' then "\n" + ReplaceCrLf(s[2..])
    else if s == [] then []
    else [s[0]] + ReplaceCrLf(s[1..])
  }

  /** The line-ending translation of a text-mode file on the device: every
      `\n` written is stored as `\r\n`. */
  function ToCrLf(s: string): (r: string)
    ensures r == [] || r[0] != '\n'
  {
    if s == [] then []
    else if s[0] == '\n' then "\r\n" + ToCrLf(s[1..])
    else [s[0]] + ToCrLf(s[1..])
  }

  /** Reading back text the device stored with CRLF line endings gives the
      text written, for every text (a `\r` already in the text is never
      followed by `\n` once translated, so it is kept). */
  lemma {:induction false} ReplaceCrLfUndoesToCrLf(s: string)
    ensures ReplaceCrLf(ToCrLf(s)) == s
  {
    if s != [] {
      ReplaceCrLfUndoesToCrLf(s[1..]);
      var t := ToCrLf(s[1..]);
      if s[0] == '\n' {
        assert ToCrLf(s) == "\r\n" + t;
        assert ("\r\n" + t)[2..] == t;
      } else {
        assert ToCrLf(s) == [s[0]] + t;
        assert ([s[0]] + t)[1..] == t;
      }
      assert [s[0]] + s[1..] == s;
    }
  }
}
