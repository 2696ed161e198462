/**
 * Normalisation of the command to launch (`_executable_and_args`): the pair
 * handed to `os.execvp`, an executable name and the full argument vector
 * whose element 0 is that name.
 */
module Launch {
  import opened Wrappers
  import opened Text

  /** The exceptions the normalisation can raise. */
  datatype LaunchError =
    | ValueError  // `args` given without an executable
    | IndexError  // neither given and the script's own argv has no command

  /** An executable and the argument vector passed to `execvp`. */
  datatype Command = Command(executable: String, argv: seq<String>)

  /** `_executable_and_args(executable, args)`, with the script's `sys.argv`
      passed in explicitly. */
  function ExecutableAndArgs(executable: Option<String>, args: Option<seq<String>>,
                             sysArgv: seq<String>): (r: Result<Command, LaunchError>)
    ensures r.Err? <==>
      (args.Some? && executable.None?) || (args.None? && executable.None? && |sysArgv| < 2)
    ensures r.Err? ==> (r.error == ValueError <==> args.Some?)
    ensures r.Ok? ==> |r.value.argv| >= 1 && r.value.argv[0] == r.value.executable
  {
    if args.None? then
      if executable.Some? then
        Ok(Command(executable.value, [executable.value]))
      else if |sysArgv| < 2 then
        Err(IndexError)
      else
        Ok(Command(sysArgv[1], sysArgv[1..]))
    else if executable.None? then
      Err(ValueError)
    else
      Ok(Command(executable.value, [executable.value] + args.value))
  }

  /** With both given, the vector is the executable followed by the arguments
      in order, one longer than the arguments, and dropping its head recovers
      them. */
  lemma BothGiven(executable: String, args: seq<String>, sysArgv: seq<String>)
    ensures var r := ExecutableAndArgs(Some(executable), Some(args), sysArgv);
      && r.Ok?
      && r.value.executable == executable
      && |r.value.argv| == |args| + 1
      && r.value.argv[0] == executable
      && r.value.argv[1..] == args
  {
  }

  /** With only the executable given, the vector holds just the executable. */
  lemma ExecutableOnly(executable: String, sysArgv: seq<String>)
    ensures ExecutableAndArgs(Some(executable), None, sysArgv) == Ok(Command(executable, [executable]))
  {
  }

  /** With neither given, the command is the script's own arguments after its
      name: the first of them is the executable. */
  lemma FromScriptArgv(sysArgv: seq<String>)
    requires |sysArgv| >= 2
    ensures var r := ExecutableAndArgs(None, None, sysArgv);
      && r.Ok?
      && r.value.executable == sysArgv[1]
      && [sysArgv[0]] + r.value.argv == sysArgv
  {
    assert sysArgv == [sysArgv[0]] + sysArgv[1..];
  }
}
