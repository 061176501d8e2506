/**
 * Commands typed at the prompt (src/args.rs): a flag token selects the
 * command, which needs a minimum number of tokens; the tokens after the flag
 * are its arguments.
 */
module Args {
  import opened Wrappers

  /** `Commands`. */
  datatype Commands = Exit | Clear | Reset | Placement

  /** `Command`: the selected command and the tokens that followed its flag. */
  datatype Command = Command(command: Commands, args: seq<string>)

  /** The two ways parsing a command fails; the message text is not modelled. */
  datatype ArgError = UnsupportedArg(arg: string) | TooFewArgs(expected: nat, found: nat)

  /** The flag that selects each command. */
  function Flag(c: Commands): string {
    match c
    case Exit => "-e"
    case Clear => "-c"
    case Reset => "-r"
    case Placement => "-p"
  }

  /** `Commands::expected_num_args`: the number of tokens, flag included, a command needs. */
  function ExpectedNumArgs(c: Commands): (n: nat)
    ensures 1 <= n <= 2
    ensures n == 2 <==> c.Reset? || c.Placement?
  {
    match c
    case Exit => 1
    case Clear => 1
    case Reset => 2
    case Placement => 2
  }

  /**
   * `Commands::has_valid_length`: `size` tokens are enough for the command:
   * two always suffice, one only for Exit and Clear, none never.
   */
  function HasValidLength(c: Commands, size: nat): (b: bool)
    ensures b <==> size >= 2 || (size == 1 && (c.Exit? || c.Clear?))
  {
    ExpectedNumArgs(c) <= size
  }

  /** Enough tokens stay enough when more are given. */
  lemma HasValidLengthMonotone(c: Commands, size: nat, more: nat)
    requires HasValidLength(c, size) && size <= more
    ensures HasValidLength(c, more)
  {
  }

  /** `Commands::command_from_str`: the command whose flag `arg` is, or an error. */
  function CommandFromStr(arg: string): (r: Result<Commands, ArgError>)
    ensures r.Ok? ==> Flag(r.value) == arg
    ensures r.Err? ==> r.error == UnsupportedArg(arg)
  {
    match arg
    case "-e" => Ok(Exit)
    case "-c" => Ok(Clear)
    case "-r" => Ok(Reset)
    case "-p" => Ok(Placement)
    case _ => Err(UnsupportedArg(arg))
  }

  /** Each flag selects its command: flags and commands correspond one to one. */
  lemma FlagRoundTrip(c: Commands, arg: string)
    ensures CommandFromStr(Flag(c)) == Ok(c)
    ensures CommandFromStr(arg) == Ok(c) <==> arg == Flag(c)
  {
  }

  /**
   * `Command::new`: the first token selects the command (an unknown flag is
   * rejected before the count is looked at); too few tokens are rejected;
   * otherwise the remaining tokens, in order, are the arguments.
   */
  function NewCommand(inputs: seq<string>): (r: Result<Command, ArgError>)
    requires |inputs| >= 1
    ensures CommandFromStr(inputs[0]).Err? ==> r == Err(UnsupportedArg(inputs[0]))
    ensures r.Ok? ==> [Flag(r.value.command)] + r.value.args == inputs
    ensures r.Ok? ==> HasValidLength(r.value.command, |inputs|)
    ensures r.Err? && CommandFromStr(inputs[0]).Ok? ==>
              r.error == TooFewArgs(ExpectedNumArgs(CommandFromStr(inputs[0]).value), |inputs|) &&
              !HasValidLength(CommandFromStr(inputs[0]).value, |inputs|)
  {
    match CommandFromStr(inputs[0])
    case Err(e) => Err(e)
    case Ok(command) =>
      if HasValidLength(command, |inputs|) then
        Ok(Command(command, inputs[1..]))
      else
        Err(TooFewArgs(ExpectedNumArgs(command), |inputs|))
  }

  /** A flag followed by enough arguments parses back to that command and those arguments. */
  lemma NewCommandRoundTrip(c: Commands, args: seq<string>)
    ensures NewCommand([Flag(c)] + args) ==
              if HasValidLength(c, |args| + 1) then Ok(Command(c, args))
              else Err(TooFewArgs(ExpectedNumArgs(c), |args| + 1))
  {
    assert ([Flag(c)] + args)[1..] == args;
  }

  /** The cases exercised by the tests of src/args.rs. */
  lemma ArgsExamples()
    ensures CommandFromStr("-p") == Ok(Placement)
    ensures CommandFromStr("-z").Err?
    ensures HasValidLength(Exit, 1) && !HasValidLength(Placement, 1)
    ensures NewCommand(["-p", "abcde", "defg"]) == Ok(Command(Placement, ["abcde", "defg"]))
    ensures NewCommand(["-p"]).Err? && NewCommand(["-r"]).Err?
  {
    NewCommandRoundTrip(Placement, ["abcde", "defg"]);
  }
}
