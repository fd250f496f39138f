/** The board the file-system adapter drives (ampy's `Pyboard`), seen only
    from outside: every call the adapter makes is appended to a log, and the
    reply to an `exec` or `eval` is whatever the device answers, here a fixed
    function of the calls made before and of the call itself. */
module Board {

  /** One call on the board. `Exec` and `Eval` carry the text sent. */
  datatype Call =
    | EnterRawRepl
    | Exec(code: string)
    | Eval(expression: string)
    | ExitRawRepl
    | Close

  /** What an `exec` or `eval` gives back: the printed text, or the error
      text of the `PyboardError` the board raises. */
  datatype Reply = Output(text: string) | Error(text: string)

  class Pyboard {
    /** Every call made so far, oldest first. */
    var log: seq<Call>
    /** The device: its reply to a call after a given history. */
    const respond: (seq<Call>, Call) -> Reply

    constructor (respond: (seq<Call>, Call) -> Reply)
      ensures log == [] && this.respond == respond
    {
      log := [];
      this.respond := respond;
    }

    method EnterRawRepl()
      modifies this
      ensures log == old(log) + [Call.EnterRawRepl]
    {
      log := log + [Call.EnterRawRepl];
    }

    method Exec(code: string) returns (reply: Reply)
      modifies this
      ensures reply == respond(old(log), Call.Exec(code))
      ensures log == old(log) + [Call.Exec(code)]
    {
      reply := respond(log, Call.Exec(code));
      log := log + [Call.Exec(code)];
    }

    method Eval(expression: string) returns (reply: Reply)
      modifies this
      ensures reply == respond(old(log), Call.Eval(expression))
      ensures log == old(log) + [Call.Eval(expression)]
    {
      reply := respond(log, Call.Eval(expression));
      log := log + [Call.Eval(expression)];
    }

    method ExitRawRepl()
      modifies this
      ensures log == old(log) + [Call.ExitRawRepl]
    {
      log := log + [Call.ExitRawRepl];
    }

    method Close()
      modifies this
      ensures log == old(log) + [Call.Close]
    {
      log := log + [Call.Close];
    }
  }
}
