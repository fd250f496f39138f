# mpy-dev-tools core in Dafny

mpy-dev-tools connects a host to a MicroPython board over a serial line.

- **File-system adapters.** These are `MpyFuseOperations` in `src/mpy_fuse.py` and its older twin `MpyFuse` in `src/mpy-fuse.py`. They serve FUSE calls by sending MicroPython text to the board and parsing the text it prints back.
- **Serial device classes.** These are `SerialRepl` in `src/mpy_device/serial_repl.py` and `MpyDevice` in `src/mpy_device.py`. They drive the board's raw REPL byte by byte: `read_until` a terminator, three-part `exec` replies, `eval` through `print(...)`, the raw-REPL prompt, and the firmware banner. `MpyDevice` also enters the friendly REPL and runs files.

The model has one module per concern. Files with state become classes whose methods are proved against specification functions.

- `Text` (text.dfy): decimal numbers, Python's whitespace and `str.strip()`, and where a forward search stops.
- `Options` (options.dfy): an optional value.
- `OpenMode` (open_mode.dfy): the flag-to-mode chains of both adapters, branch by branch, with the Linux `O_*` values.
- `Handles` (handles.dfy): the `file_handles` dict.
  - It is a map plus its keys in insertion order, with a well-formedness invariant.
  - It covers the smallest free handle, the `fh_<n>` names, and the close calls teardown makes.
- `Board` (board.dfy): ampy's `Pyboard`, seen from outside.
  - It keeps an append-only log of calls.
  - The device's reply is a fixed function of the earlier calls and the call itself.
- `Replies` (replies.dfy): the adapters' handling of replies.
  - The exceptions they raise, and the leftmost `OSError: [Errno N]` search.
  - The 10-field tuple parser behind `getattr`/`statfs`, and the quoted-name extraction behind `readdir`.
  - The CRLF replacement behind `read`.
- `MpyFuseOps.MpyFuseOperations` (mpy_fuse_ops.dfy) and `MpyFuseLegacy.MpyFuse` (mpy_fuse_legacy.dfy): the two adapters.
  - Each has `fileHandles`/`order` fields, which its methods update in place.
  - The `open` probe loop and the `destroy` release loop are `while`/`for` loops with invariants.
- `SerialPort` (serial_port.dfy): the serial line.
  - The bytes the board will send are a fixed `input` with a read cursor `pos`, and `arrived` of them have reached the host.
  - Writes append to `output`.
- `RawRepl` (raw_repl.dfy): what the device classes read, as functions of the remaining input.
  - The `read_until` search is the shortest prefix ending with the terminator.
  - The `exec` frame, lines and `readlines`, and the `enter_repl` greeting.
- `Banner` (banner.dfy): the firmware banner and its regular expression.
- `SerialReplDevice.SerialRepl` (serial_repl.dfy) and `Device.MpyDevice` (mpy_device.dfy): the two device classes.
  - Each read loop is a `while` loop over the port.
  - Their contracts say exactly how far the cursor moves and what is written. These are stated through the `RawRepl` functions, and the properties of those functions are proved as lemmas.

Two behaviours of the code worth naming:

- `destroy` lets the first failing `release` propagate: the later handles stay open and the board is not closed.
- `open` tests its flags in the order of its if/elif chain, so the first matching test decides the mode.

## Model

| member | source | states |
|---|---|---|
| OpenMode.ModeOf | src/mpy_fuse.py:135-148 | every flag word yields one of the six mode strings the chain names |
| OpenMode.LegacyModeOf | src/mpy-fuse.py:135-148 | the same totality for the chain whose second test is `flags & O_RDONLY` |
| OpenMode.ModeOfIsTable | src/mpy_fuse.py:135-148 | the chain equals the table left after removing the branches earlier tests cover: append, zero, read-write or create, write or truncate, else "w+" |
| OpenMode.ModeOfAppend | src/mpy_fuse.py:135-136 | any flag word holding O_APPEND opens "a", in both adapters |
| OpenMode.ModeOfReadOnly | src/mpy_fuse.py:137-138 | a zero flag word opens "r" |
| OpenMode.ModeOfCreate | src/mpy_fuse.py:154-155 | O_RDWR + O_CREAT gives "w+" in both adapters |
| OpenMode.ModeOfNeverUpdateModes | src/mpy_fuse.py:141-146 | neither chain ever yields "r+" or "a+": earlier tests take every flag word that could reach them |
| OpenMode.LegacyModeOfDiffersOnlyAtZero | src/mpy-fuse.py:137-138 | the legacy chain never yields "r"; it gives "w+" on zero and agrees with the newer chain everywhere else |
| OpenMode.LegacyModeOfReadWrite | src/mpy-fuse.py:168 | O_RDWR alone gives "w+" in the legacy chain |
| Handles.HandleName | src/mpy_fuse.py:133 | a handle's variable name is `fh_` followed by its decimal digits |
| Handles.HandleNameInjective | src/mpy_fuse.py:133 | distinct handles name distinct device variables |
| Handles.DottedInjective | src/mpy_fuse.py:26 | `<var>.<command>` on two variables gives two expressions |
| Handles.SmallestFree | src/mpy_fuse.py:130-132 | the handle is not in use and every smaller non-negative integer is |
| Handles.SmallestFreeUnique | src/mpy_fuse.py:130-132 | those two facts determine the handle |
| Handles.SmallestFreeReusesReleased | src/mpy_fuse.py:130-133 | after releasing handle k while every handle below k is in use, the next open returns k |
| Handles.Remove | src/mpy_fuse.py:180 | what is left of the insertion order after deleting a key: the other keys, in order |
| Handles.RemoveKeepsNoDuplicates | src/mpy_fuse.py:180 | deleting keeps each key listed once |
| Handles.AddKeepsWellFormed | src/mpy_fuse.py:151 | adding a fresh handle bound to its own name keeps the table well formed |
| Handles.DeleteKeepsWellFormed | src/mpy_fuse.py:180 | deleting a handle keeps the table well formed |
| Handles.EmptyOrderEmptyTable | src/mpy_fuse.py:118 | a well-formed table is empty exactly when its insertion order is |
| Handles.RemoveFirst | src/mpy_fuse.py:118-120 | releasing the oldest handle leaves the rest of the order |
| Handles.RemoveLast | src/mpy-fuse.py:168-169 | taking back the handle just added restores the order |
| Handles.CloseCalls | src/mpy_fuse.py:118-120 | teardown makes one call per handle |
| Handles.CloseCallsAt | src/mpy_fuse.py:118-120 | the i-th teardown call is `<var>.close()` for the i-th handle |
| Handles.CloseCallsCloseEachOnce | src/mpy_fuse.py:117-123 | on a well-formed table, teardown closes `fh_<n>` of every handle in insertion order, and no two closes name the same variable |
| Handles.ReleaseStep | src/mpy_fuse.py:118-120 | one turn of the teardown loop: the next handle heads the table's order, and its close extends the calls made so far by one |
| Replies.ErrnoAt | src/mpy_fuse.py:28-29 | the pattern matches at the start of a text exactly when the prefix is followed by a digit run and `]` |
| Replies.ErrnoFromFirst | src/mpy_fuse.py:31 | no match starts before the position the search stops at |
| Replies.FindErrnoIsLeftmost | src/mpy_fuse.py:31-33 | `search` finds nothing exactly when the pattern matches nowhere; otherwise it gives the number of a match before which none starts |
| Replies.FindErrnoAt | src/mpy_fuse.py:31-33 | a match with none before it is the one found |
| Replies.ErrnoAtReport | src/mpy_fuse.py:28-33 | `OSError: [Errno N]` at the start of a text yields N |
| Replies.ErrnoOfReport | src/mpy_fuse.py:28-34 | an error report whose text before the OSError line holds no capital O yields the number that line carries |
| Replies.ErrnoAtNeedsO | src/mpy_fuse.py:28-29 | a match starts with a capital O |
| Replies.EvalOutcome | src/mpy_fuse.py:24-38 | printed text is the result; an error with an errno becomes FuseOSError of the first match; any other error propagates unchanged |
| Replies.ExecOutcome | src/mpy_fuse.py:21-22 | exec succeeds exactly when the board prints, and otherwise its error propagates |
| Replies.Discard | src/mpy_fuse.py:81-85 | the value is dropped; success and the error are kept |
| Replies.TupleFields | src/mpy_fuse.py:57-66 | a parse of k fields has k values |
| Replies.ParseTuple | src/mpy_fuse.py:68 | a parsed tuple has its arity and starts with `(` |
| Replies.FieldOfText | src/mpy_fuse.py:57-66 | a printed field followed by a non-digit is taken whole, and its value is the number printed |
| Replies.TupleFieldsOfText | src/mpy_fuse.py:57-68 | printed fields closed by `)` parse back to the same fields |
| Replies.ParseTupleOfText | src/mpy_fuse.py:57-68 | a printed tuple parses back to its fields, whatever follows it |
| Replies.ParseStat | src/mpy_fuse.py:56-69 | a stat parses exactly when the reply starts with a 10-field tuple, and its fields are that tuple in pattern order |
| Replies.ParseStatFs | src/mpy_fuse.py:87-100 | the same for the ten `f_*` fields of statvfs |
| Replies.ParseStatOfText | src/mpy_fuse.py:56-69 | the stat tuple as the device prints it parses back to the same ten named fields, with any trailing text ignored |
| Replies.ParseStatFsOfText | src/mpy_fuse.py:87-100 | the statvfs tuple as the device prints it parses back to the same ten named fields |
| Replies.ParseStatNeedsParen | src/mpy_fuse.py:68 | a reply that does not start with `(` is no stat and no statvfs |
| Replies.IndexFromIsFirst | src/mpy_fuse.py:73 | no quote lies between the start of the search and the quote it finds |
| Replies.FieldsFromAt | src/mpy_fuse.py:73 | a match runs from a quote to the next one |
| Replies.FieldsFromSkips | src/mpy_fuse.py:73 | text without a quote starts no match |
| Replies.FieldsFromUnpaired | src/mpy_fuse.py:73 | an unpaired last quote starts no match |
| Replies.FieldsFromHaveNoQuote | src/mpy_fuse.py:73 | no listed text holds a quote |
| Replies.StripAll | src/mpy_fuse.py:73 | one stripped name per match |
| Replies.QuotedItemsArePlain | src/mpy_fuse.py:73 | every name readdir returns has no quote and no surrounding whitespace |
| Replies.StripAllOfPlain | src/mpy_fuse.py:73 | names without surrounding whitespace are kept as they are |
| Replies.FieldsFromOfItemsText | src/mpy_fuse.py:73 | the names of a printed list, followed by text without a quote, are found in order |
| Replies.QuotedItemsOfListText | src/mpy_fuse.py:71-73 | readdir of a listing printed as `['a', 'b']` returns its names in order |
| Replies.ReplaceCrLf | src/mpy_fuse.py:161 | the result is no longer than the text, and a text without `\r` is unchanged |
| Replies.ReplaceCrLfUndoesToCrLf | src/mpy_fuse.py:161 | reading back text the device stored with CRLF line endings gives the text written |
| Text.NatToString | src/mpy_fuse.py:133 | the decimal rendering is a non-empty run of digits |
| Text.DigitsValueOfNatToString | src/mpy_fuse.py:69 | `int()` of a rendered number is the number |
| Text.NatToStringInjective | src/mpy_fuse.py:133 | distinct numbers render as distinct strings |
| Text.DigitRun | src/mpy_fuse.py:57 | the greedy `\d+` takes digits only, and stops at a non-digit or the end |
| Text.DigitRunOfDigits | src/mpy_fuse.py:57 | a run of digits followed by a non-digit is taken whole |
| Text.Strip | src/mpy_device.py:114 | the result is no longer than the text and starts and ends with no whitespace |
| Text.StripIsSlice | src/mpy_device.py:114 | what strip keeps is one slice of the text with only whitespace on either side |
| Text.StripLeftIsSuffix | src/mpy_device.py:114 | the left strip keeps a suffix and drops only whitespace |
| Text.StripRightIsPrefix | src/mpy_device.py:114 | the right strip keeps a prefix and drops only whitespace |
| Text.StripOfPadded | src/mpy_device.py:114 | strip recovers a text from any whitespace padding around it |
| Text.StripOfStripped | src/mpy_device.py:114 | a text with no surrounding whitespace is kept as it is |
| Text.StripIdempotent | src/mpy_device.py:114 | strip is idempotent |
| Text.StripKeepsAbsent | src/mpy_device.py:114 | strip adds no character |
| Banner.DigitsThenSound | src/mpy_device.py:63 | what a greedy digit group reads is digits, then the separator, then the rest |
| Banner.DigitsThenOf | src/mpy_device.py:63 | a digit group followed by its separator is read back |
| Banner.LineRun | src/mpy_device.py:66 | `.+` takes everything up to the first line feed |
| Banner.LineRunOf | src/mpy_device.py:66 | a line without a line feed, followed by nothing or a line feed, is taken whole |
| Banner.MatchVersionOf | src/mpy_device.py:63 | a version of four digit groups is read back, with the text after its `-` left |
| Banner.MatchVersionSound | src/mpy_device.py:63 | what the version group reads is four non-empty digit groups joined as `d1.d2.d3-d4`, then its `-`, then the rest |
| Banner.MatchAfterVersionOf | src/mpy_device.py:63-66 | the hash, date and board are read back |
| Banner.MatchAfterVersionSound | src/mpy_device.py:63-66 | what is read is a 9-character hash, a date, and a board running to the end or to a line feed |
| Banner.MatchBannerOfText | src/mpy_device.py:62-74 | a banner line with a four-group version, a 9-character hash, a date and a board name is matched, and its groups are the four fields |
| Banner.MatchBannerSound | src/mpy_device.py:62-74 | whatever the pattern matches is a banner line with a version of four non-empty digit groups `d1.d2.d3-d4`, a 9-character hash, a date and a non-empty board name, followed by nothing or a line feed |
| Board.Pyboard.constructor | src/mpy_fuse.py:12 | a new board has made no call |
| Board.Pyboard.Exec | src/mpy_fuse.py:22 | the reply is the device's answer to the call after the calls before, and the call is logged |
| Board.Pyboard.Eval | src/mpy_fuse.py:26 | the same for `eval` |
| MpyFuseOps.MpyFuseOperations.constructor | src/mpy_fuse.py:11-15 | enters the raw REPL, then runs `import os`, with an empty handle table; `started` is the outcome of that `import os`, an error when the board answered with one |
| MpyFuseOps.MpyFuseOperations.Exec | src/mpy_fuse.py:21-22 | logs the command, and the result is the exec outcome of the device's answer |
| MpyFuseOps.MpyFuseOperations.Eval | src/mpy_fuse.py:24-38 | logs `<var>.<command>`, and the result is the eval outcome of the device's answer |
| MpyFuseOps.MpyFuseOperations.CreateVar | src/mpy_fuse.py:40-41 | logs `<var> = <command>` as an exec |
| MpyFuseOps.MpyFuseOperations.Access | src/mpy_fuse.py:47-48 | succeeds without a call |
| MpyFuseOps.MpyFuseOperations.Chmod | src/mpy_fuse.py:50-51 | succeeds without a call |
| MpyFuseOps.MpyFuseOperations.Chown | src/mpy_fuse.py:53-54 | fails with NotImplementedError |
| MpyFuseOps.MpyFuseOperations.Getattr | src/mpy_fuse.py:56-69 | logs `os.stat('<path>')`; an error propagates, a reply without the tuple fails with AttributeError, and a tuple gives the parsed stat |
| MpyFuseOps.MpyFuseOperations.Readdir | src/mpy_fuse.py:71-73 | logs `os.listdir('<path>')`; an error propagates, otherwise the quoted names in order |
| MpyFuseOps.MpyFuseOperations.Readlink | src/mpy_fuse.py:75-76 | fails with NotImplementedError |
| MpyFuseOps.MpyFuseOperations.Mknod | src/mpy_fuse.py:78-79 | fails with NotImplementedError |
| MpyFuseOps.MpyFuseOperations.Rmdir | src/mpy_fuse.py:81-82 | logs `os.rmdir('<path>')`, and only its error is kept |
| MpyFuseOps.MpyFuseOperations.Mkdir | src/mpy_fuse.py:84-85 | logs `os.mkdir('<path>')`, and only its error is kept |
| MpyFuseOps.MpyFuseOperations.Statfs | src/mpy_fuse.py:87-100 | logs `os.statvfs('<path>')`; an error propagates, no tuple is AttributeError, and a tuple gives the parsed fields |
| MpyFuseOps.MpyFuseOperations.Unlink | src/mpy_fuse.py:102-103 | logs `os.remove('<path>')`, and only its error is kept |
| MpyFuseOps.MpyFuseOperations.Symlink | src/mpy_fuse.py:105-106 | fails with NotImplementedError |
| MpyFuseOps.MpyFuseOperations.Rename | src/mpy_fuse.py:108-109 | logs `os.rename('<old>', '<new>')`, and only its error is kept |
| MpyFuseOps.MpyFuseOperations.Link | src/mpy_fuse.py:111-112 | fails with NotImplementedError |
| MpyFuseOps.MpyFuseOperations.Utimens | src/mpy_fuse.py:114-115 | fails with NotImplementedError |
| MpyFuseOps.MpyFuseOperations.Destroy | src/mpy_fuse.py:117-123 | it succeeds exactly when every close is answered without an error; then one close per handle open at entry in insertion order, then exit raw REPL and close, leaving an empty table; otherwise the closes before the failing one succeeded, the error is the board's answer to the failing close, and the calls up to it and the handles from it on are still there |
| MpyFuseOps.MpyFuseOperations.ReleaseAll | src/mpy_fuse.py:118-120 | the release loop over a snapshot of the keys: it succeeds exactly when every close is answered without an error, and a failure is the board's answer to the first failing close, with the calls and table as above |
| MpyFuseOps.MpyFuseOperations.Open | src/mpy_fuse.py:129-152 | sends `fh_<n> = open("<path>", "<mode>")` for the smallest free n and the chain's mode; on success adds exactly that entry and returns n, on an error leaves the table as it was |
| MpyFuseOps.MpyFuseOperations.Create | src/mpy_fuse.py:154-155 | an open with mode "w+" |
| MpyFuseOps.MpyFuseOperations.Read | src/mpy_fuse.py:157-161 | an unknown handle fails before any call; otherwise a seek, then a read, and the reply with each CRLF made LF; the first error propagates |
| MpyFuseOps.MpyFuseOperations.Write | src/mpy_fuse.py:163-168 | an unknown handle fails before any call; otherwise a seek, then `write("""<buf>""")`, returning the length of buf |
| MpyFuseOps.MpyFuseOperations.Truncate | src/mpy_fuse.py:170-171 | succeeds without a call |
| MpyFuseOps.MpyFuseOperations.Flush | src/mpy_fuse.py:173-175 | an unknown handle fails before any call; otherwise `<var>.flush()` |
| MpyFuseOps.MpyFuseOperations.Release | src/mpy_fuse.py:177-180 | an unknown handle fails before any call; otherwise `<var>.close()`, and on success exactly that key is removed |
| MpyFuseOps.MpyFuseOperations.Fsync | src/mpy_fuse.py:182-183 | a flush of the handle |
| MpyFuseLegacy.MpyFuse.constructor | src/mpy-fuse.py:11-15 | enters the raw REPL, then runs `import os`, with an empty handle table; `started` is the outcome of that `import os`, an error when the board answered with one |
| MpyFuseLegacy.MpyFuse.Exec | src/mpy-fuse.py:21-22 | logs the command, and the result is the exec outcome |
| MpyFuseLegacy.MpyFuse.Eval | src/mpy-fuse.py:24-38 | logs `<var>.<command>`, and the result is the eval outcome |
| MpyFuseLegacy.MpyFuse.CreateVar | src/mpy-fuse.py:40-41 | logs `<var> = <command>` as an exec |
| MpyFuseLegacy.MpyFuse.Access | src/mpy-fuse.py:47-48 | succeeds without a call |
| MpyFuseLegacy.MpyFuse.Chmod | src/mpy-fuse.py:50-51 | fails with NotImplementedError |
| MpyFuseLegacy.MpyFuse.Chown | src/mpy-fuse.py:53-54 | fails with NotImplementedError |
| MpyFuseLegacy.MpyFuse.Getattr | src/mpy-fuse.py:56-69 | as in the newer adapter |
| MpyFuseLegacy.MpyFuse.Readdir | src/mpy-fuse.py:71-73 | as in the newer adapter |
| MpyFuseLegacy.MpyFuse.Readlink | src/mpy-fuse.py:75-76 | fails with NotImplementedError |
| MpyFuseLegacy.MpyFuse.Mknod | src/mpy-fuse.py:78-79 | fails with NotImplementedError |
| MpyFuseLegacy.MpyFuse.Rmdir | src/mpy-fuse.py:81-82 | logs `os.rmdir('<path>')`, and only its error is kept |
| MpyFuseLegacy.MpyFuse.Mkdir | src/mpy-fuse.py:84-85 | logs `os.mkdir('<path>')`, and only its error is kept |
| MpyFuseLegacy.MpyFuse.Statfs | src/mpy-fuse.py:87-100 | as in the newer adapter |
| MpyFuseLegacy.MpyFuse.Unlink | src/mpy-fuse.py:102-103 | fails with NotImplementedError without a call |
| MpyFuseLegacy.MpyFuse.Symlink | src/mpy-fuse.py:105-106 | fails with NotImplementedError |
| MpyFuseLegacy.MpyFuse.Rename | src/mpy-fuse.py:108-109 | fails with NotImplementedError without a call |
| MpyFuseLegacy.MpyFuse.Link | src/mpy-fuse.py:111-112 | fails with NotImplementedError |
| MpyFuseLegacy.MpyFuse.Utimens | src/mpy-fuse.py:114-115 | fails with NotImplementedError |
| MpyFuseLegacy.MpyFuse.Destroy | src/mpy-fuse.py:117-123 | as in the newer adapter: success exactly when every close is answered without an error, and otherwise the first failing close's answer as the error |
| MpyFuseLegacy.MpyFuse.ReleaseAll | src/mpy-fuse.py:118-120 | as in the newer adapter: success exactly when every close is answered without an error, and otherwise the first failing close's answer as the error |
| MpyFuseLegacy.MpyFuse.Open | src/mpy-fuse.py:129-152 | as in the newer adapter, with the legacy chain's mode |
| MpyFuseLegacy.MpyFuse.Create | src/mpy-fuse.py:154-155 | an open with mode "w+" |
| MpyFuseLegacy.MpyFuse.Read | src/mpy-fuse.py:157-161 | as in the newer adapter, except that a reply holding a non-ASCII character fails with UnicodeEncodeError |
| MpyFuseLegacy.MpyFuse.Write | src/mpy-fuse.py:163-164 | fails with NotImplementedError without a call |
| MpyFuseLegacy.MpyFuse.Truncate | src/mpy-fuse.py:166-171 | a non-zero length fails before any call; zero opens "w+" and releases the handle, and when both succeed the table is as before |
| MpyFuseLegacy.MpyFuse.Flush | src/mpy-fuse.py:173-175 | an unknown handle fails before any call; otherwise `<var>.flush()` |
| MpyFuseLegacy.MpyFuse.Release | src/mpy-fuse.py:177-180 | an unknown handle fails before any call; otherwise `<var>.close()`, and on success exactly that key is removed |
| MpyFuseLegacy.MpyFuse.Fsync | src/mpy-fuse.py:182-183 | fails with NotImplementedError without a call |
| SerialPort.Port.Read | src/mpy_device/serial_repl.py:54 | returns up to `size` of the bytes that have arrived, possibly none |
| SerialPort.Port.ReadByte | src/mpy_device/serial_repl.py:60 | waits for the next byte and takes it |
| SerialPort.Port.Write | src/mpy_device/serial_repl.py:50 | appends to what has been written |
| RawRepl.LastPart | src/mpy_device/serial_repl.py:59 | Python's `buf[-k:]`, including k = 0 and k longer than buf |
| RawRepl.DropLast | src/mpy_device/serial_repl.py:65 | Python's `buf[:-k]`, including k = 0 and k longer than buf |
| RawRepl.LastPartIsSuffix | src/mpy_device/serial_repl.py:59 | the loop test is the suffix test |
| RawRepl.Until | src/mpy_device/serial_repl.py:57-65 | the length consumed is that of a prefix ending with the terminator |
| RawRepl.UntilFirst | src/mpy_device/serial_repl.py:57-65 | that prefix is the shortest, and None means no prefix ends with the terminator |
| RawRepl.UntilIs | src/mpy_device/serial_repl.py:57-65 | the shortest prefix ending with the terminator is the one found |
| RawRepl.UntilConsumed | src/mpy_device/serial_repl.py:64-65 | what is consumed is the result followed by the terminator |
| RawRepl.ReadUntilContinues | src/mpy_device/serial_repl.py:59 | while the buffer does not end with the terminator, the end of the search is still ahead |
| RawRepl.ReadUntilStops | src/mpy_device/serial_repl.py:59 | once it does, the whole prefix has been read |
| RawRepl.UntilOfFirst | src/mpy_device/serial_repl.py:57-65 | the search stops right after the first copy of a terminator whose last byte occurs nowhere before |
| RawRepl.ExecFrame | src/mpy_device/serial_repl.py:118-120 | within the input, neither chunk holds `\x04` |
| RawRepl.ExecFrameOfParts | src/mpy_device/serial_repl.py:118-120 | the frame is the three searches one after the other |
| RawRepl.ExecFrameOfReads | src/mpy_device/serial_repl.py:118-120 | the frame the three read_until results make |
| RawRepl.ExecFrameOfReply | src/mpy_device/serial_repl.py:118-120 | a reply of text without `K`, `OK`, the output, `\x04`, the error and `\x04` splits back into output and error |
| RawRepl.ExecResult | src/mpy_device/serial_repl.py:121-123 | an error exactly when the error chunk is non-empty, with that chunk as its message; otherwise the output verbatim |
| RawRepl.EvalResult | src/mpy_device/serial_repl.py:134-136 | errors pass through, and a result is stripped and no longer than the output |
| RawRepl.EvalResultOfPadded | src/mpy_device/serial_repl.py:134-136 | a printed value with whitespace around it comes back as the value |
| RawRepl.NextLine | src/mpy_device/serial_repl.py:67-68 | a line consumes at least its CRLF |
| RawRepl.NextLineOf | src/mpy_device/serial_repl.py:67-68 | a line without a line feed then CRLF is read as that line |
| RawRepl.LinesOf | src/mpy_device/serial_repl.py:70-72 | `num` lines are read |
| RawRepl.LinesOfPrefix | src/mpy_device/serial_repl.py:70-72 | when `num` lines can be read so can the first i, and a line follows them |
| RawRepl.LinesOfText | src/mpy_device/serial_repl.py:70-72 | lines sent with CRLF are read back as sent, whatever follows |
| RawRepl.CheckGreeting | src/mpy_device.py:83-87 | the outcome carries the banner that was found |
| RawRepl.SeekBannerSkips | src/mpy_device.py:80-81 | a line the pattern does not match is skipped |
| RawRepl.SeekBannerFinds | src/mpy_device.py:80-81 | the first line the pattern matches ends the search |
| RawRepl.CheckGreetingStarts | src/mpy_device.py:83-87 | the help line then the prompt: the REPL has started |
| RawRepl.CheckGreetingMismatch | src/mpy_device.py:83-84 | any other help line raises 'Enter REPL response mismatch' |
| RawRepl.CheckGreetingNoPrompt | src/mpy_device.py:86-87 | any other prompt raises 'Error starting REPL' |
| RawRepl.CheckGreetingExhausted | src/mpy_device.py:78-84 | a banner as the fourth line leaves no line for the help line: StopIteration |
| RawRepl.EnterReplAfterBanner | src/mpy_device.py:76-87 | with a banner first, enter_repl ends as the checks after it end, having consumed that line too |
| RawRepl.EnterReplGivesUp | src/mpy_device.py:78-81 | four lines without a banner end in StopIteration |
| SerialReplDevice.SerialRepl.constructor | src/mpy_device/serial_repl.py:37-51 | opens the port, writes two `\x03`, flushes, and leaves the four fields unset |
| SerialReplDevice.SerialRepl.Flush | src/mpy_device/serial_repl.py:53-55 | consumes every byte that has arrived and no other |
| SerialReplDevice.SerialRepl.ReadUntil | src/mpy_device/serial_repl.py:57-65 | consumes the shortest prefix ending with the terminator and returns it without the terminator |
| SerialReplDevice.SerialRepl.ReadLine | src/mpy_device/serial_repl.py:67-68 | consumes one line and its CRLF and returns the line |
| SerialReplDevice.SerialRepl.ReadLines | src/mpy_device/serial_repl.py:70-72 | consumes and returns `num` lines |
| SerialReplDevice.SerialRepl.SetInfoFromString | src/mpy_device/serial_repl.py:74-86 | returns true exactly on a match, then sets the four fields to its groups; otherwise they are unchanged |
| SerialReplDevice.SerialRepl.EnterRawRepl | src/mpy_device/serial_repl.py:101-103 | writes `\x01` and consumes through the raw-REPL prompt |
| SerialReplDevice.SerialRepl.Close | src/mpy_device/serial_repl.py:105-106 | closes the port |
| SerialReplDevice.SerialRepl.Exec | src/mpy_device/serial_repl.py:108-123 | writes the command and `\x04`, consumes the frame, and returns its result |
| SerialReplDevice.SerialRepl.Eval | src/mpy_device/serial_repl.py:125-136 | writes `print(<expr>)` and `\x04`, and returns the result stripped |
| Device.MpyDevice.constructor | src/mpy_device.py:26-39 | opens the port, writes nothing, flushes, and leaves the four fields unset |
| Device.MpyDevice.Flush | src/mpy_device.py:41-43 | consumes every byte that has arrived and no other |
| Device.MpyDevice.ReadUntil | src/mpy_device.py:45-53 | consumes the shortest prefix ending with the terminator and returns it without the terminator |
| Device.MpyDevice.ReadLine | src/mpy_device.py:55-56 | consumes one line and its CRLF and returns the line |
| Device.MpyDevice.ReadLines | src/mpy_device.py:58-60 | consumes and returns `num` lines |
| Device.MpyDevice.SetInfoFromString | src/mpy_device.py:62-74 | returns true exactly on a match, then sets the four fields to its groups; otherwise they are unchanged |
| Device.MpyDevice.EnterRepl | src/mpy_device.py:76-87 | writes `\x02`, consumes what the greeting search consumes, ends with its outcome, and sets the fields from the banner it found |
| Device.MpyDevice.TryBannerLine | src/mpy_device.py:80-81 | one turn of the banner loop: a line read and matched, and what is left of the search |
| Device.MpyDevice.ExpectGreeting | src/mpy_device.py:83-87 | the help-line and prompt checks, consuming what they consume |
| Device.MpyDevice.EnterRawRepl | src/mpy_device.py:89-91 | writes `\x01` and consumes through the raw-REPL prompt |
| Device.MpyDevice.Close | src/mpy_device.py:93-94 | closes the port |
| Device.MpyDevice.Enter | src/mpy_device.py:96-98 | enters the raw REPL |
| Device.MpyDevice.Exit | src/mpy_device.py:100-101 | closes the port |
| Device.MpyDevice.Exec | src/mpy_device.py:103-110 | writes the command and `\x04`, consumes the frame, and returns its result |
| Device.MpyDevice.Eval | src/mpy_device.py:112-115 | writes `print(<expr>)` and `\x04`, and returns the result stripped |
| Device.MpyDevice.Execfile | src/mpy_device.py:117-119 | writes `exec(open("<file>").read())` and two `\x04`, and returns the exec result |

## Left out

- Text encoding: `encode`/`decode` between text and bytes are not modelled. A byte on the wire is a character below 256 and text is a sequence of characters. The legacy adapter's `encode('ascii')` is kept as its failure on a non-ASCII character.
- Regular expressions: `\d` is the ASCII digits and `\s` is the set `str.isspace()` accepts. Other Unicode digits are not modelled.
- The `output` echo of `read_until` is console output and is not modelled.
- pyserial with `timeout=0` is not modelled as such.
  - A `read(1)` that comes back empty and is retried is one blocking byte read.
  - What arrives when is fixed in advance.
  - `read_until` requires the terminator to come; otherwise the source loops forever.
- Port errors are not modelled. These are `PortNotOpenError`, a failed open and write errors.
- The generator `readlines` is modelled two ways: as an eager `ReadLines`, and lazily inside `EnterRepl`, which reads only the lines it uses. A `next` past the fourth line is the StopIteration outcome.
- `SerialRepl.enter_repl` (src/mpy_device/serial_repl.py:88-99) is not modelled. It raises by constructing a new `SerialRepl` on the error text, which tries to open that text as a port.
- The two `MpyFuse` entry points are not modelled: the process that mounts and unmounts, and both `__main__` blocks with their argument parsing.
- ampy's `Pyboard` is seen only as a log of calls and a reply function. Its own framing and the `args[2]` of its exception are not modelled.
- `MpyFuseOps.MpyFuseOperations.Destroy` and `MpyFuseLegacy.MpyFuse.Destroy`: follow the code. The first failing release ends teardown with its error, and the board is not closed.
- `MpyFuseOps.MpyFuseOperations.constructor` and `MpyFuseLegacy.MpyFuse.constructor`: a Dafny constructor cannot raise. When `import os` fails, `__init__` raises and no adapter exists; the model records that outcome in the ghost field `started` instead, and nothing else reads it.
- `MpyFuseOps.MpyFuseOperations.Write`: `buf` is taken as text already decoded. `buf.decode('utf-8')` and its `UnicodeDecodeError` are not modelled, and the length returned is counted in characters, which equals `len(buf)` in bytes only for ASCII data.
- `MpyFuseLegacy.MpyFuse.Truncate`: `length is 0` is modelled as `length == 0`, which is what CPython's small-integer cache makes it.
- Paths and data are spliced into device commands literally, as the code does. No escaping is modelled.
- `Replies.ToCrLf` is a model of how the device stores text. It is not part of the host's code.
- The constants `DEFAULT_BAUDRATE` and `SOFT_REBOOT` are not modelled. The baud rate is a port setting and the soft reboot is never sent.
- The other files of the repository are not part of this model:
  - src/mpy_device/apify_repl.py, an HTTP client;
  - src/mpy_device/__init__.py, a dispatch between the two device classes;
  - src/mpy_device/device.py, an abstract base;
  - src/ampy-fuse.py, stubs;
  - src/mpy_sync.py, src/mpy_run.py, src/run.py, src/cli.py and setup.py, which are host file-system scripting and packaging.
- Threads and FUSE dispatch are out of scope; each adapter call runs alone.
