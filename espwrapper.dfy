/** `espwrapper.run_command` and `Ui.run_command`: the flashing tool runs
    in-process with `sys.argv` swapped for the command, and whatever it
    raises is turned into a failed result carrying one message. */
module EspWrapper {
  import opened Wrappers
  import opened Text

  /** The Python values that appear in an exception's arguments. */
  datatype PyValue = PStr(s: string) | PInt(i: int) | PNone

  /** `str(v)`. */
  function PyStr(v: PyValue): string {
    match v
    case PStr(s) => s
    case PInt(i) => IntToString(i)
    case PNone => "None"
  }

  /** `ex.args`: normally a tuple; anything else is printed whole. */
  datatype ExcArgs = Tuple(items: seq<PyValue>) | NonTuple(v: PyValue)

  /** How the tool's `main` ends: it returns, raises an `Exception`, or calls
      `sys.exit`, whose `SystemExit` no `except Exception` catches. */
  datatype MainOutcome = Returned | Raised(args: ExcArgs) | Exited

  /** One run of the tool: the text it streams to the event log and how it
      ends. */
  datatype ToolRun = ToolRun(output: string, outcome: MainOutcome)

  /** The result dictionary of `Ui.run_command`: `{'success': True}` or
      `{'success': False, 'data': message}`. */
  datatype CommandResult = CommandResult(success: bool, data: Option<string>)

  /** The message of the exception `espwrapper.run_command` re-raises (lines
      14-22): the second of two arguments, the first of any other tuple,
      the whole value otherwise; an empty tuple makes `error[0]` itself raise
      `IndexError`. */
  function ErrorText(args: ExcArgs): (msg: string)
    ensures args.Tuple? && |args.items| == 2 ==> msg == PyStr(args.items[1])
    ensures args.Tuple? && |args.items| != 2 && |args.items| > 0 ==> msg == PyStr(args.items[0])
    ensures args == Tuple([]) ==> msg == "tuple index out of range"
    ensures args.NonTuple? ==> msg == PyStr(args.v)
  {
    match args
    case Tuple(items) =>
      if |items| == 2 then PyStr(items[1])
      else if |items| == 0 then "tuple index out of range"
      else PyStr(items[0])
    case NonTuple(v) => PyStr(v)
  }

  /** What `Ui.run_command` returns for a run of the tool that loaded
      (`None` when the run exits the interpreter and no result is ever
      produced). */
  function Outcome(o: MainOutcome): (r: Option<CommandResult>)
    ensures r.None? <==> o.Exited?
    ensures r == Some(CommandResult(true, None)) <==> o.Returned?
  {
    match o
    case Returned => Some(CommandResult(true, None))
    case Raised(args) => Some(CommandResult(false, Some(ErrorText(args))))
    case Exited => None
  }

  /** The interpreter's `sys` module, as far as the wrapper touches it. */
  class Sys {
    var argv: seq<string>

    constructor (argv0: seq<string>)
      ensures argv == argv0
    {
      argv := argv0;
    }
  }

  /** `Ui.run_command` around `espwrapper.run_command`: `load` is the error
      message when the tool's module cannot be loaded (nothing else happens
      then), and `tool` the tool's behaviour for the argument vector it reads
      from `sys.argv`. Whatever happens, `sys.argv` is the same afterwards. */
  method RunCommand(sys: Sys, argv: seq<string>, load: Option<string>, tool: seq<string> -> ToolRun)
    returns (r: Option<CommandResult>, output: string)
    modifies sys
    ensures sys.argv == old(sys.argv)
    ensures load.Some? ==> r == Some(CommandResult(false, load)) && output == ""
    ensures load.None? ==> r == Outcome(tool(argv).outcome) && output == tool(argv).output
  {
    if load.Some? {
      return Some(CommandResult(false, load)), "";
    }
    var oldArgs := sys.argv;
    sys.argv := argv;
    var run := tool(sys.argv);
    match run.outcome {
      case Returned =>
        r := Some(CommandResult(true, None));
      case Raised(args) =>
        var message: string;
        match args {
          case Tuple(items) =>
            if |items| == 2 {
              message := PyStr(items[1]);
            } else if |items| == 0 {
              message := "tuple index out of range";
            } else {
              message := PyStr(items[0]);
            }
          case NonTuple(v) =>
            message := PyStr(v);
        }
        r := Some(CommandResult(false, Some(message)));
      case Exited =>
        r := None;
    }
    sys.argv := oldArgs;
    output := run.output;
  }

  /** The tool's own fatal error, raised with one message, reaches the event
      log as that message; an `OSError`-style pair `(errno, text)` reaches
      it as the text. */
  lemma MessageCarried(m: string, code: int)
    ensures Outcome(Raised(Tuple([PStr(m)]))) == Some(CommandResult(false, Some(m)))
    ensures Outcome(Raised(Tuple([PInt(code), PStr(m)]))) == Some(CommandResult(false, Some(m)))
  {
  }

  /** Every run that raises is reported as a failure with a message, and a
      successful result never carries one. */
  lemma FailureHasMessage(o: MainOutcome)
    requires !o.Exited?
    ensures Outcome(o).value.success <==> o.Returned?
    ensures Outcome(o).value.data.Some? <==> !Outcome(o).value.success
  {
  }
}
