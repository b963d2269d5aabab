/**
 * One whole run of the wrapper: the leftover arguments are validated, the
 * `firebase` child is started, its standard output chunks go through the
 * prompt responder, and the wrapper ends either on a fatal prompt or with
 * the status the child closed with.
 */
module Supervisor {
  import opened Wrappers
  import opened Strings
  import opened Prompts
  import opened Registered
  import opened Cli

  /**
   * What a run did: the argument vector the child was started with (none
   * when the arguments were refused), every effect in order, and the
   * wrapper's exit status.
   */
  datatype Outcome = Outcome(argv: Option<seq<string>>, effects: seq<Effect>, status: int)

  /**
   * A run given the two configured answers, the leftover arguments, the
   * chunks the child writes to its standard output before closing, and its
   * close code (`None` when a signal ended it).
   */
  function Run(confirmOnDeletion: Option<bool>, confirmOnRetryFailure: Option<bool>,
               args: seq<string>, chunks: seq<string>, close: Option<int>): (r: Outcome)
    ensures Exited(r.effects) && r.effects[|r.effects| - 1] == Exit(r.status)
    ensures forall i | 0 <= i < |r.effects| - 1 :: !r.effects[i].Exit?
    ensures ValidateArgs(args).Failure? ==> r.argv == None && r.status == 1
    ensures ValidateArgs(args).Success? ==> r.argv == Some(ChildArgv(args))
  {
    match ValidateArgs(args)
    case Failure(message) => Outcome(None, [Error(message), Exit(1)], 1)
    case Success(passthrough) =>
      var output := Session(chunks, Registry(confirmOnDeletion, confirmOnRetryFailure));
      SessionShape(chunks, Registry(confirmOnDeletion, confirmOnRetryFailure));
      if Exited(output) then
        Outcome(Some(ChildArgv(passthrough)), output, 1)
      else
        var status := ExitStatus(close);
        Outcome(Some(ChildArgv(passthrough)), output + [Exit(status)], status)
  }

  /** Some delivered chunk holds a prompt the configuration does not answer. */
  predicate Unanswered(confirmOnDeletion: Option<bool>, confirmOnRetryFailure: Option<bool>, chunks: seq<string>)
  {
    exists j | 0 <= j < |chunks| :: Halts(chunks[j], Registry(confirmOnDeletion, confirmOnRetryFailure))
  }

  /**
   * When the arguments pass and every prompt that shows up is answered, the
   * wrapper relays the child's close code, or 1 after a signal.
   */
  lemma RunRelaysCloseCode(confirmOnDeletion: Option<bool>, confirmOnRetryFailure: Option<bool>,
                           args: seq<string>, chunks: seq<string>, close: Option<int>)
    requires ValidateArgs(args).Success?
    requires !Unanswered(confirmOnDeletion, confirmOnRetryFailure, chunks)
    ensures var r := Run(confirmOnDeletion, confirmOnRetryFailure, args, chunks, close);
      r.status == ExitStatus(close)
      && r.effects == Session(chunks, Registry(confirmOnDeletion, confirmOnRetryFailure)) + [Exit(ExitStatus(close))]
  {
    SessionExitedIff(chunks, Registry(confirmOnDeletion, confirmOnRetryFailure));
  }

  /**
   * A chunk with an unanswered prompt ends the wrapper with status 1 right
   * after that chunk: later chunks and the child's close code play no part.
   */
  lemma RunStopsAtUnansweredPrompt(confirmOnDeletion: Option<bool>, confirmOnRetryFailure: Option<bool>,
                                   args: seq<string>, chunks: seq<string>, close: Option<int>, j: nat)
    requires ValidateArgs(args).Success?
    requires j < |chunks| && Halts(chunks[j], Registry(confirmOnDeletion, confirmOnRetryFailure))
    ensures var r := Run(confirmOnDeletion, confirmOnRetryFailure, args, chunks, close);
      r.status == 1
      && r.effects == Session(chunks[..j + 1], Registry(confirmOnDeletion, confirmOnRetryFailure))
  {
    var ps := Registry(confirmOnDeletion, confirmOnRetryFailure);
    var upTo := chunks[..j + 1];
    assert upTo[j] == chunks[j];
    SessionExitedIff(upTo, ps);
    assert chunks == upTo + chunks[j + 1..];
    SessionStops(upTo, chunks[j + 1..], ps);
    var output := Session(upTo, ps);
    assert output[|output| - 1] in output;
  }

  /**
   * The wrapper succeeds exactly when its arguments pass, every prompt that
   * shows up is answered, and the child exits normally with status 0.
   */
  lemma RunSucceedsIff(confirmOnDeletion: Option<bool>, confirmOnRetryFailure: Option<bool>,
                       args: seq<string>, chunks: seq<string>, close: Option<int>)
    ensures Run(confirmOnDeletion, confirmOnRetryFailure, args, chunks, close).status == 0
        <==> ValidateArgs(args).Success?
             && !Unanswered(confirmOnDeletion, confirmOnRetryFailure, chunks)
             && close == Some(0)
  {
    if ValidateArgs(args).Success? {
      if Unanswered(confirmOnDeletion, confirmOnRetryFailure, chunks) {
        var j :| 0 <= j < |chunks| && Halts(chunks[j], Registry(confirmOnDeletion, confirmOnRetryFailure));
        RunStopsAtUnansweredPrompt(confirmOnDeletion, confirmOnRetryFailure, args, chunks, close, j);
      } else {
        RunRelaysCloseCode(confirmOnDeletion, confirmOnRetryFailure, args, chunks, close);
      }
    }
  }

  /**
   * Deletion confirmed, retries left unanswered: the deletion prompt gets
   * `y`, and the retry prompt then ends the wrapper with status 1 and an
   * error naming both retry flags, without waiting for the child.
   */
  lemma DeletionConfirmedRetryUnanswered(args: seq<string>, close: Option<int>)
    requires ValidateArgs(args).Success?
    ensures var ps := Registry(Some(true), None);
      var r := Run(Some(true), None, args, [DeletionText, RetryText], close);
      && r.effects == [Echo(DeletionText), Write("y\n"), Echo(RetryText), Error(ErrorMessage(ps[1])), Exit(1)]
      && r.status == 1
      && Includes(r.effects[3].message, ps[1].options[0] + " or " + ps[1].options[1])
  {
    var ps := Registry(Some(true), None);
    DeletionThenRetry(true);
    ErrorMessageNamesPrompt(ps[1]);
  }

  /**
   * Both prompts answered: whatever the child prints, no prompt ends the
   * wrapper, and it exits with the child's status.
   */
  lemma FullyAnsweredRelaysStatus(confirmOnDeletion: bool, confirmOnRetryFailure: bool,
                                  args: seq<string>, chunks: seq<string>, close: Option<int>)
    requires ValidateArgs(args).Success?
    ensures Run(Some(confirmOnDeletion), Some(confirmOnRetryFailure), args, chunks, close).status
         == ExitStatus(close)
  {
    var ps := Registry(Some(confirmOnDeletion), Some(confirmOnRetryFailure));
    forall j | 0 <= j < |chunks|
      ensures !Halts(chunks[j], ps)
    {
    }
    RunRelaysCloseCode(Some(confirmOnDeletion), Some(confirmOnRetryFailure), args, chunks, close);
  }
}
