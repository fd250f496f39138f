/** The older adapter of src/mpy-fuse.py. It talks to the board the same
    way, but picks open modes with a different second test, truncates by
    reopening a file for writing, reads only ASCII text, and leaves write,
    unlink, rename, fsync, chmod and chown unimplemented. */
module MpyFuseLegacy {
  import opened Text
  import opened Board
  import opened Replies
  import opened OpenMode
  import opened Handles

  class MpyFuse {
    const board: Pyboard
    /** `file_handles`: handle to device variable name. */
    var fileHandles: map<int, string>
    /** The keys of `fileHandles` in the order they were inserted. */
    var order: seq<int>
    /** How `self.exec('import os')` in `__init__` ended. When it failed,
        Python raises out of the constructor and no adapter exists; no
        other member may then be called. */
    ghost var started: Result<()>

    ghost predicate Valid()
      reads this
    {
      WellFormed(fileHandles, order)
    }

    /** What `eval` of `expression` comes to after the calls `history`. */
    function Answer(history: seq<Call>, expression: string): Result<string> {
      EvalOutcome(board.respond(history, Call.Eval(expression)))
    }

    /** What the board answers to the close of the `i`-th handle of `ks`
        when teardown reaches it, after the closes of the handles before it. */
    function CloseAnswer(log0: seq<Call>, handles: map<int, string>, ks: seq<int>, i: nat): Result<string>
      requires i < |ks| && forall j :: 0 <= j < |ks| ==> ks[j] in handles
    {
      Answer(log0 + CloseCalls(handles, ks[..i]), Dotted(handles[ks[i]], "close()"))
    }

    /** Teardown's first `n` closes were all answered without an error. */
    predicate ClosesSucceed(log0: seq<Call>, handles: map<int, string>, ks: seq<int>, n: nat)
      requires n <= |ks| && forall j :: 0 <= j < |ks| ==> ks[j] in handles
    {
      forall i :: 0 <= i < n ==> CloseAnswer(log0, handles, ks, i).Ok?
    }

    /** Connects to the board, enters the raw REPL and imports `os` there. */
    constructor (respond: (seq<Call>, Call) -> Reply)
      ensures Valid() && fileHandles == map[] && order == []
      ensures fresh(board) && board.respond == respond
      ensures board.log == [Call.EnterRawRepl, Call.Exec("import os")]
      ensures started == ExecOutcome(respond([Call.EnterRawRepl], Call.Exec("import os")))
    {
      board := new Pyboard(respond);
      fileHandles := map[];
      order := [];
      new;
      board.EnterRawRepl();
      assert board.log == [Call.EnterRawRepl];
      var reply := board.Exec("import os");
      started := ExecOutcome(reply);
    }

    method Exec(command: string) returns (r: Result<()>)
      modifies board
      ensures board.log == old(board.log) + [Call.Exec(command)]
      ensures r == ExecOutcome(board.respond(old(board.log), Call.Exec(command)))
    {
      var reply := board.Exec(command);
      r := ExecOutcome(reply);
    }

    /** Evaluates `<obj>.<command>` on the board. */
    method Eval(obj: string, command: string) returns (r: Result<string>)
      modifies board
      ensures board.log == old(board.log) + [Call.Eval(Dotted(obj, command))]
      ensures r == Answer(old(board.log), Dotted(obj, command))
    {
      var reply := board.Eval(Dotted(obj, command));
      r := EvalOutcome(reply);
    }

    /** Binds the device variable `name` to the value of `command`. */
    method CreateVar(name: string, command: string) returns (r: Result<()>)
      modifies board
      ensures board.log == old(board.log) + [Call.Exec(name + " = " + command)]
      ensures r == ExecOutcome(board.respond(old(board.log), Call.Exec(name + " = " + command)))
    {
      r := Exec(name + " = " + command);
    }

    method Access(path: string, mode: int) returns (r: Result<()>)
      ensures r == Ok(())
    {
      r := Ok(());
    }

    method Chmod(path: string, mode: int) returns (r: Result<()>)
      ensures r == Err(NotImplementedError)
    {
      r := Err(NotImplementedError);
    }

    method Chown(path: string, uid: int, gid: int) returns (r: Result<()>)
      ensures r == Err(NotImplementedError)
    {
      r := Err(NotImplementedError);
    }

    /** The ten fields of `os.stat(path)`, or AttributeError when the reply
        does not start with such a tuple. */
    method Getattr(path: string) returns (r: Result<Stat>)
      modifies board
      ensures board.log == old(board.log) + [Call.Eval(Dotted("os", "stat('" + path + "')"))]
      ensures var a := Answer(old(board.log), Dotted("os", "stat('" + path + "')"));
              && (a.Err? ==> r == Err(a.failure))
              && (a.Ok? && ParseStat(a.value).None? ==> r == Err(AttributeError))
              && (a.Ok? && ParseStat(a.value).Some? ==> r == Ok(ParseStat(a.value).value))
    {
      var ret := Eval("os", "stat('" + path + "')");
      if ret.Err? {
        return Err(ret.failure);
      }
      match ParseStat(ret.value)
      case None => r := Err(AttributeError);
      case Some(st) => r := Ok(st);
    }

    /** The names `os.listdir(path)` prints, in order. */
    method Readdir(path: string) returns (r: Result<seq<string>>)
      modifies board
      ensures board.log == old(board.log) + [Call.Eval(Dotted("os", "listdir('" + path + "')"))]
      ensures var a := Answer(old(board.log), Dotted("os", "listdir('" + path + "')"));
              && (a.Err? ==> r == Err(a.failure))
              && (a.Ok? ==> r == Ok(QuotedItems(a.value)))
    {
      var ret := Eval("os", "listdir('" + path + "')");
      if ret.Err? {
        return Err(ret.failure);
      }
      r := Ok(QuotedItems(ret.value));
    }

    method Readlink(path: string) returns (r: Result<string>)
      ensures r == Err(NotImplementedError)
    {
      r := Err(NotImplementedError);
    }

    method Mknod(path: string, mode: int, dev: int) returns (r: Result<()>)
      ensures r == Err(NotImplementedError)
    {
      r := Err(NotImplementedError);
    }

    method Rmdir(path: string) returns (r: Result<()>)
      modifies board
      ensures board.log == old(board.log) + [Call.Eval(Dotted("os", "rmdir('" + path + "')"))]
      ensures r == Discard(Answer(old(board.log), Dotted("os", "rmdir('" + path + "')")))
    {
      var ret := Eval("os", "rmdir('" + path + "')");
      r := Discard(ret);
    }

    method Mkdir(path: string, mode: int) returns (r: Result<()>)
      modifies board
      ensures board.log == old(board.log) + [Call.Eval(Dotted("os", "mkdir('" + path + "')"))]
      ensures r == Discard(Answer(old(board.log), Dotted("os", "mkdir('" + path + "')")))
    {
      var ret := Eval("os", "mkdir('" + path + "')");
      r := Discard(ret);
    }

    /** The ten fields of `os.statvfs(path)`, or AttributeError. */
    method Statfs(path: string) returns (r: Result<StatFs>)
      modifies board
      ensures board.log == old(board.log) + [Call.Eval(Dotted("os", "statvfs('" + path + "')"))]
      ensures var a := Answer(old(board.log), Dotted("os", "statvfs('" + path + "')"));
              && (a.Err? ==> r == Err(a.failure))
              && (a.Ok? && ParseStatFs(a.value).None? ==> r == Err(AttributeError))
              && (a.Ok? && ParseStatFs(a.value).Some? ==> r == Ok(ParseStatFs(a.value).value))
    {
      var ret := Eval("os", "statvfs('" + path + "')");
      if ret.Err? {
        return Err(ret.failure);
      }
      match ParseStatFs(ret.value)
      case None => r := Err(AttributeError);
      case Some(fs) => r := Ok(fs);
    }

    method Unlink(path: string) returns (r: Result<()>)
      ensures r == Err(NotImplementedError)
    {
      r := Err(NotImplementedError);
    }

    method Symlink(name: string, target: string) returns (r: Result<()>)
      ensures r == Err(NotImplementedError)
    {
      r := Err(NotImplementedError);
    }

    method Rename(oldPath: string, newPath: string) returns (r: Result<()>)
      ensures r == Err(NotImplementedError)
    {
      r := Err(NotImplementedError);
    }

    method Link(target: string, name: string) returns (r: Result<()>)
      ensures r == Err(NotImplementedError)
    {
      r := Err(NotImplementedError);
    }

    method Utimens(path: string) returns (r: Result<()>)
      ensures r == Err(NotImplementedError)
    {
      r := Err(NotImplementedError);
    }

    /** Releases every handle open at entry, in the order they were opened,
        then leaves the raw REPL and closes the board. The first release
        that fails ends the teardown with its error; the handles from that
        one on stay open and the board is not closed. */
    method Destroy() returns (r: Result<()>)
      requires Valid()
      modifies this, board
      ensures Valid()
      ensures r.Ok? ==> && fileHandles == map[] && order == []
                        && board.log == old(board.log) + CloseCalls(old(fileHandles), old(order))
                                        + [Call.ExitRawRepl, Call.Close]
                        && ClosesSucceed(old(board.log), old(fileHandles), old(order), |old(order)|)
      ensures r.Err? ==> && 0 < |order| <= |old(order)|
                         && var i := |old(order)| - |order|;
                            && order == old(order)[i..]
                            && board.log == old(board.log) + CloseCalls(old(fileHandles), old(order)[..i + 1])
                            && ClosesSucceed(old(board.log), old(fileHandles), old(order), i)
                            && var a := CloseAnswer(old(board.log), old(fileHandles), old(order), i);
                               a.Err? && r == Err(a.failure)
      ensures r.Ok? <==> ClosesSucceed(old(board.log), old(fileHandles), old(order), |old(order)|)
    {
      r := ReleaseAll();
      if r.Err? {
        return;
      }
      EmptyOrderEmptyTable(fileHandles, order);
      board.ExitRawRepl();
      board.Close();
    }

    /** The loop of `destroy`: `release` of each handle in a snapshot of the
        table's keys. */
    method ReleaseAll() returns (r: Result<()>)
      requires Valid()
      modifies this, board
      ensures Valid()
      ensures r.Ok? ==> && order == []
                        && board.log == old(board.log) + CloseCalls(old(fileHandles), old(order))
                        && ClosesSucceed(old(board.log), old(fileHandles), old(order), |old(order)|)
      ensures r.Err? ==> && 0 < |order| <= |old(order)|
                         && var i := |old(order)| - |order|;
                            && order == old(order)[i..]
                            && board.log == old(board.log) + CloseCalls(old(fileHandles), old(order)[..i + 1])
                            && ClosesSucceed(old(board.log), old(fileHandles), old(order), i)
                            && var a := CloseAnswer(old(board.log), old(fileHandles), old(order), i);
                               a.Err? && r == Err(a.failure)
      ensures r.Ok? <==> ClosesSucceed(old(board.log), old(fileHandles), old(order), |old(order)|)
    {
      var fhs := order;
      ghost var handles0 := fileHandles;
      ghost var log0 := board.log;
      r := Ok(());
      for i := 0 to |fhs|
        invariant Valid() && r == Ok(())
        invariant order == fhs[i..]
        invariant board.log == log0 + CloseCalls(handles0, fhs[..i])
        invariant ClosesSucceed(log0, handles0, fhs, i)
      {
        ReleaseStep(log0, handles0, fhs, i, fileHandles, order);
        r := Release(fhs[i]);
        if r.Err? {
          assert |fhs| - |order| == i;
          return;
        }
      }
      assert fhs[..|fhs|] == fhs;
    }

    /** Opens `path` on the device under the smallest handle not in use,
        with the mode this adapter's chain picks. When the board refuses, the
        table is as before. */
    method Open(path: string, flags: bv32) returns (r: Result<int>)
      requires Valid()
      modifies this, board
      ensures Valid()
      ensures var n := SmallestFree(old(fileHandles).Keys);
              var call := Call.Exec(HandleName(n) + " = " + OpenFile(path, LegacyModeOf(flags)));
              && board.log == old(board.log) + [call]
              && (board.respond(old(board.log), call).Output? ==>
                    && r == Ok(n)
                    && fileHandles == old(fileHandles)[n := HandleName(n)]
                    && order == old(order) + [n])
              && (board.respond(old(board.log), call).Error? ==>
                    && r == Err(PyboardError(board.respond(old(board.log), call).text))
                    && fileHandles == old(fileHandles) && order == old(order))
    {
      var keys := fileHandles.Keys;
      var fh: nat := 0;
      while fh in keys
        invariant forall j :: 0 <= j < fh ==> j in keys
        modifies {}
        decreases |keys| - fh
      {
        LowerBoundCard(keys, fh + 1);
        fh := fh + 1;
      }
      SmallestFreeUnique(keys, fh);
      var name := HandleName(fh);
      var mode := LegacyModeOf(flags);
      var made := CreateVar(name, OpenFile(path, mode));
      if made.Err? {
        return Err(made.failure);
      }
      AddKeepsWellFormed(fileHandles, order, fh);
      fileHandles := fileHandles[fh := name];
      order := order + [fh];
      r := Ok(fh);
    }

    /** `create`: an open for reading and writing that creates the file,
        which this chain too maps to "w+". */
    method Create(path: string, mode: int) returns (r: Result<int>)
      requires Valid()
      modifies this, board
      ensures Valid()
      ensures var n := SmallestFree(old(fileHandles).Keys);
              var call := Call.Exec(HandleName(n) + " = " + OpenFile(path, "w+"));
              && board.log == old(board.log) + [call]
              && (board.respond(old(board.log), call).Output? ==>
                    && r == Ok(n)
                    && fileHandles == old(fileHandles)[n := HandleName(n)]
                    && order == old(order) + [n])
              && (board.respond(old(board.log), call).Error? ==>
                    && r == Err(PyboardError(board.respond(old(board.log), call).text))
                    && fileHandles == old(fileHandles) && order == old(order))
    {
      ModeOfCreate();
      ghost var n := SmallestFree(fileHandles.Keys);
      r := Open(path, O_RDWR + O_CREAT);
    }

    /** Reads `length` characters at `offset`; a reply that is not pure
        ASCII fails to encode, otherwise CRLF line endings become LF. An
        unknown handle fails before anything is sent. */
    method Read(path: string, length: nat, offset: nat, fh: int) returns (r: Result<string>)
      modifies board
      ensures fh !in fileHandles ==> r == Err(KeyError(fh)) && board.log == old(board.log)
      ensures fh in fileHandles ==>
                var seek := Dotted(fileHandles[fh], "seek(" + NatToString(offset) + ", 0)");
                var read := Dotted(fileHandles[fh], "read(" + NatToString(length) + ")");
                var s := Answer(old(board.log), seek);
                var w := Answer(old(board.log) + [Call.Eval(seek)], read);
                && (s.Err? ==> r == Err(s.failure) && board.log == old(board.log) + [Call.Eval(seek)])
                && (s.Ok? ==> board.log == old(board.log) + [Call.Eval(seek), Call.Eval(read)])
                && (s.Ok? && w.Err? ==> r == Err(w.failure))
                && (s.Ok? && w.Ok? && !IsAscii(w.value) ==> r == Err(UnicodeEncodeError))
                && (s.Ok? && w.Ok? && IsAscii(w.value) ==> r == Ok(ReplaceCrLf(w.value)))
    {
      if fh !in fileHandles {
        return Err(KeyError(fh));
      }
      var name := fileHandles[fh];
      var s := Eval(name, "seek(" + NatToString(offset) + ", 0)");
      if s.Err? {
        return Err(s.failure);
      }
      var w := Eval(name, "read(" + NatToString(length) + ")");
      if w.Err? {
        return Err(w.failure);
      }
      if !IsAscii(w.value) {
        return Err(UnicodeEncodeError);
      }
      r := Ok(ReplaceCrLf(w.value));
    }

    /** Fails before looking at the handle. */
    method Write(path: string, buf: string, offset: nat, fh: int) returns (r: Result<nat>)
      ensures r == Err(NotImplementedError)
    {
      r := Err(NotImplementedError);
    }

    /** Truncation to length 0 opens the file read-write, which this
        adapter's chain maps to "w+" (emptying it on the device), and
        releases the handle again: when both succeed the table is as before.
        Any other length fails before anything is sent. */
    method Truncate(path: string, length: int) returns (r: Result<()>)
      requires Valid()
      modifies this, board
      ensures Valid()
      ensures length != 0 ==>
                && r == Err(NotImplementedError) && board.log == old(board.log)
                && fileHandles == old(fileHandles) && order == old(order)
      ensures length == 0 ==>
                var n := SmallestFree(old(fileHandles).Keys);
                var openCall := Call.Exec(HandleName(n) + " = " + OpenFile(path, "w+"));
                var openReply := board.respond(old(board.log), openCall);
                var closed := Answer(old(board.log) + [openCall], Dotted(HandleName(n), "close()"));
                && (openReply.Error? ==>
                      && r == Err(PyboardError(openReply.text)) && board.log == old(board.log) + [openCall]
                      && fileHandles == old(fileHandles) && order == old(order))
                && (openReply.Output? ==>
                      && board.log == old(board.log) + [openCall, Call.Eval(Dotted(HandleName(n), "close()"))]
                      && r == Discard(closed)
                      && (closed.Ok? ==> fileHandles == old(fileHandles) && order == old(order))
                      && (closed.Err? ==> fileHandles == old(fileHandles)[n := HandleName(n)]
                                          && order == old(order) + [n]))
    {
      if length != 0 {
        return Err(NotImplementedError);
      }
      LegacyModeOfReadWrite();
      ghost var n := SmallestFree(fileHandles.Keys);
      ghost var handles0 := fileHandles;
      ghost var order0 := order;
      var handle := Open(path, O_RDWR);
      if handle.Err? {
        return Err(handle.failure);
      }
      assert n !in order0;
      r := Release(handle.value);
      if r.Ok? {
        RemoveLast(order0, n);
        assert handles0[n := HandleName(n)] - {n} == handles0;
      }
    }

    method Flush(path: string, fh: int) returns (r: Result<()>)
      modifies board
      ensures fh !in fileHandles ==> r == Err(KeyError(fh)) && board.log == old(board.log)
      ensures fh in fileHandles ==>
                && board.log == old(board.log) + [Call.Eval(Dotted(fileHandles[fh], "flush()"))]
                && r == Discard(Answer(old(board.log), Dotted(fileHandles[fh], "flush()")))
    {
      if fh !in fileHandles {
        return Err(KeyError(fh));
      }
      var ret := Eval(fileHandles[fh], "flush()");
      r := Discard(ret);
    }

    /** Closes the device file of `fh` and then forgets the handle. An
        unknown handle fails before anything is sent; a close the board
        refuses leaves the handle in the table. */
    method Release(fh: int) returns (r: Result<()>)
      requires Valid()
      modifies this, board
      ensures Valid()
      ensures fh !in old(fileHandles) ==>
                && r == Err(KeyError(fh)) && board.log == old(board.log)
                && fileHandles == old(fileHandles) && order == old(order)
      ensures fh in old(fileHandles) ==>
                var close := Dotted(old(fileHandles)[fh], "close()");
                var a := Answer(old(board.log), close);
                && board.log == old(board.log) + [Call.Eval(close)]
                && r == Discard(a)
                && (a.Err? ==> fileHandles == old(fileHandles) && order == old(order))
                && (a.Ok? ==> fileHandles == old(fileHandles) - {fh} && order == Remove(old(order), fh))
    {
      if fh !in fileHandles {
        return Err(KeyError(fh));
      }
      var ret := Eval(fileHandles[fh], "close()");
      r := Discard(ret);
      if ret.Err? {
        return;
      }
      DeleteKeepsWellFormed(fileHandles, order, fh);
      fileHandles := fileHandles - {fh};
      order := Remove(order, fh);
    }

    method Fsync(path: string, datasync: bool, fh: int) returns (r: Result<()>)
      ensures r == Err(NotImplementedError)
    {
      r := Err(NotImplementedError);
    }
  }
}
