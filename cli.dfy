/**
 * The pure decisions of the wrapper's command line: which leftover arguments
 * it refuses, the argument vector of the `firebase` child it starts, and
 * the status it exits with when that child closes.
 */
module Cli {
  import opened Wrappers

  const NonInteractiveFlag := "--non-interactive"
  const ShortForceFlag := "-f"
  const ForceFlag := "--force"

  const NonInteractiveMessage := "--non-interactive is not supported."
  const ForceMessage := "-f/--force is not supported. Please use --confirm-on-deletion instead."

  /** An argument that would stop `firebase deploy` from asking the prompts the wrapper answers. */
  predicate Forbidden(arg: string)
  {
    arg == NonInteractiveFlag || arg == ShortForceFlag || arg == ForceFlag
  }

  /**
   * Checks the arguments the option parser left over. `--non-interactive`
   * is refused first; otherwise `-f` or `--force` is refused; otherwise the
   * list passes through unchanged. A refusal ends the wrapper with status 1.
   */
  function ValidateArgs(args: seq<string>): (r: Result<seq<string>, string>)
    ensures r.Success? <==> forall i | 0 <= i < |args| :: !Forbidden(args[i])
    ensures r.Success? ==> r.value == args
    ensures NonInteractiveFlag in args ==> r == Failure(NonInteractiveMessage)
    ensures NonInteractiveFlag !in args && r.Failure? ==> r == Failure(ForceMessage)
  {
    if NonInteractiveFlag in args then Failure(NonInteractiveMessage)
    else if ShortForceFlag in args || ForceFlag in args then Failure(ForceMessage)
    else Success(args)
  }

  /** A refused argument is refused whatever other arguments surround it. */
  lemma {:induction false} RefusalIgnoresOtherArgs(args: seq<string>, before: seq<string>, after: seq<string>)
    requires ValidateArgs(args).Failure?
    ensures ValidateArgs(before + args + after).Failure?
  {
    var i :| 0 <= i < |args| && Forbidden(args[i]);
    assert (before + args + after)[|before| + i] == args[i];
  }

  /** The child's arguments: the deploy action, the passthrough arguments, then `--interactive`. */
  function ChildArgv(args: seq<string>): (r: seq<string>)
    ensures |r| == |args| + 2
    ensures r[0] == "deploy" && r[|r| - 1] == "--interactive"
    ensures r[1..|r| - 1] == args
  {
    ["deploy"] + args + ["--interactive"]
  }

  /**
   * Whatever passed validation, the child is started in interactive mode and
   * never with a flag that would suppress or force past its prompts.
   */
  lemma ChildArgvInteractive(args: seq<string>)
    requires ValidateArgs(args).Success?
    ensures "--interactive" in ChildArgv(args)
    ensures forall i | 0 <= i < |ChildArgv(args)| :: !Forbidden(ChildArgv(args)[i])
  {
    var argv := ChildArgv(args);
    forall i | 0 <= i < |argv|
      ensures !Forbidden(argv[i])
    {
      if 0 < i < |argv| - 1 {
        assert argv[i] == argv[1..|argv| - 1][i - 1] == args[i - 1];
      }
    }
  }

  /**
   * The wrapper's status when the child closes: the child's own code, or 1
   * when there is none because a signal ended the child.
   */
  function ExitStatus(code: Option<int>): (r: int)
    ensures code.Some? ==> r == code.value
    ensures code.None? ==> r == 1
  {
    match code
    case Some(c) => c
    case None => 1
  }
}
