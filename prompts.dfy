/**
 * The prompt responder of `firebase-deploy`: the fixed registry of the two
 * prompts `firebase deploy --interactive` may ask, and the handler that runs
 * once per chunk the child writes to its standard output. The handler echoes
 * the chunk, then answers every registered prompt whose signature the chunk
 * contains, in registry order, with `y` or `n`; an unanswered prompt is a
 * fatal error that ends the wrapper at once.
 *
 * What the handler does is recorded as a sequence of effects rather than
 * performed: writing to the terminal, to the child's standard input and
 * ending the process are outside the model.
 */
module Prompts {
  import opened Wrappers
  import opened Strings

  /**
   * A registered prompt: the signature text that identifies it in the
   * child's output, the two command-line flags that answer it (yes, then no),
   * and the answer those flags gave, if any.
   */
  datatype Prompt = Prompt(text: string, options: seq<string>, value: Option<bool>)

  /** One observable step of the handler. */
  datatype Effect =
    | Echo(chunk: string)       // the chunk relayed to the wrapper's own output, with a trailing newline
    | Write(payload: string)    // bytes written to the child's standard input
    | Error(message: string)    // a message on the wrapper's error output
    | Exit(code: int)           // the wrapper process ends with this status

  // The two signatures, written in short pieces so that the verifier can
  // look at their individual characters.
  const DeletionText: string :=
    "Would you like to proceed " + "with deletion? Selecting no " + "will continue the rest"
  const RetryText: string :=
    "The following functions " + "will newly be retried " + "in case of failure"

  /** The registry, in the order the handler examines it, built from the run's two answers. */
  function Registry(confirmOnDeletion: Option<bool>, confirmOnRetryFailure: Option<bool>): (r: seq<Prompt>)
    ensures |r| == 2
    ensures forall i | 0 <= i < |r| :: |r[i].options| == 2
  {
    [ Prompt(DeletionText, ["--confirm-on-deletion", "--no-confirm-on-deletion"], confirmOnDeletion),
      Prompt(RetryText, ["--confirm-on-retry-failure", "--no-confirm-on-retry-failure"], confirmOnRetryFailure) ]
  }

  /** The answer written to the child for a configured prompt: a letter and a newline. */
  function Payload(answer: bool): (r: string)
    ensures |r| == 2 && r[1] == '\n'
    ensures r[0] == 'y' <==> answer
    ensures r[0] == 'n' <==> !answer
  {
    if answer then "y\n" else "n\n"
  }

  /** The message reported when a prompt shows up that no flag answered. */
  function ErrorMessage(p: Prompt): (r: string)
  {
    "Prompt '" + p.text + "' was found but no response was provided. Please provide either "
      + Join(p.options, " or ")
  }

  /** The message names the prompt and every flag that would have answered it. */
  lemma ErrorMessageNamesPrompt(p: Prompt)
    ensures Includes(ErrorMessage(p), p.text)
    ensures forall i | 0 <= i < |p.options| :: Includes(ErrorMessage(p), p.options[i])
    ensures |p.options| == 2 ==>
      Includes(ErrorMessage(p), p.options[0] + " or " + p.options[1])
  {
    var head := "Prompt '";
    var tail := "' was found but no response was provided. Please provide either ";
    var joined := Join(p.options, " or ");
    assert p.text[..|p.text|] == p.text;
    IncludesWithin(head, p.text, tail + joined, p.text);
    assert head + p.text + (tail + joined) == ErrorMessage(p);
    JoinIncludesEach(p.options, " or ");
    forall i | 0 <= i < |p.options|
      ensures Includes(ErrorMessage(p), p.options[i])
    {
      IncludesWithin(head + p.text + tail, joined, "", p.options[i]);
      assert head + p.text + tail + joined + "" == ErrorMessage(p);
    }
    if |p.options| == 2 {
      assert joined[..|joined|] == joined;
      IncludesWithin(head + p.text + tail, joined, "", joined);
      assert head + p.text + tail + joined + "" == ErrorMessage(p);
    }
  }

  /** The chunk contains the prompt's signature. */
  predicate Matches(chunk: string, p: Prompt)
  {
    Includes(chunk, p.text)
  }

  /** The chunk contains the signature of a prompt that has no answer. */
  predicate Fatal(chunk: string, p: Prompt)
  {
    Matches(chunk, p) && p.value.None?
  }

  /** Some prompt of the registry is fatal for this chunk. */
  predicate Halts(chunk: string, ps: seq<Prompt>)
  {
    exists i | 0 <= i < |ps| :: Fatal(chunk, ps[i])
  }

  /** The effects end the wrapper process. */
  predicate Exited(effects: seq<Effect>)
  {
    |effects| > 0 && effects[|effects| - 1].Exit?
  }

  /**
   * The registry walk of the handler: for each prompt in order, nothing if its
   * signature is absent, one write if it is answered, and an error followed
   * by the end of the process if it is not, which stops the walk.
   */
  function Walk(chunk: string, ps: seq<Prompt>): (r: seq<Effect>)
    ensures |r| <= |ps| + 1
    ensures Exited(r) <==> Halts(chunk, ps)
  {
    if ps == [] then []
    else if !Matches(chunk, ps[0]) then Walk(chunk, ps[1..])
    else if ps[0].value.None? then [Error(ErrorMessage(ps[0])), Exit(1)]
    else
      assert Halts(chunk, ps) <==> Halts(chunk, ps[1..]) by {
        if Halts(chunk, ps) {
          var i :| 0 <= i < |ps| && Fatal(chunk, ps[i]);
          assert ps[1..][i - 1] == ps[i];
        }
        if Halts(chunk, ps[1..]) {
          var i :| 0 <= i < |ps[1..]| && Fatal(chunk, ps[1..][i]);
          assert ps[i + 1] == ps[1..][i];
        }
      }
      [Write(Payload(ps[0].value.value))] + Walk(chunk, ps[1..])
  }

  /** Everything the handler does for one chunk: the echo, then the registry walk. */
  function Respond(chunk: string, ps: seq<Prompt>): (r: seq<Effect>)
    ensures |r| > 0 && r[0] == Echo(chunk)
    ensures Exited(r) <==> Halts(chunk, ps)
  {
    [Echo(chunk)] + Walk(chunk, ps)
  }

  /** No effect in `r` is an echo. */
  predicate NoEcho(r: seq<Effect>)
  {
    forall i | 0 <= i < |r| :: !r[i].Echo?
  }

  /** Every write in `r` is a `y` or an `n` answer. */
  predicate WritesAnswers(r: seq<Effect>)
  {
    forall i | 0 <= i < |r| && r[i].Write? :: r[i].payload == "y\n" || r[i].payload == "n\n"
  }

  /** An exit in `r` can only be its last effect, and has status 1. */
  predicate ExitIsFinal(r: seq<Effect>)
  {
    forall i | 0 <= i < |r| && r[i].Exit? :: i == |r| - 1 && r[i].code == 1
  }

  /** The three shape facts carry over to a concatenation whose first part has not ended the process. */
  lemma ShapeAppend(a: seq<Effect>, b: seq<Effect>)
    requires !Exited(a) && ExitIsFinal(a) && ExitIsFinal(b)
    ensures NoEcho(a) && NoEcho(b) ==> NoEcho(a + b)
    ensures WritesAnswers(a) && WritesAnswers(b) ==> WritesAnswers(a + b)
    ensures ExitIsFinal(a + b)
  {
    assert forall i | 0 <= i < |a| :: (a + b)[i] == a[i];
    assert forall i | |a| <= i < |a| + |b| :: (a + b)[i] == b[i - |a|];
  }

  /**
   * What the walk can contain: never an echo, only `y` or `n` answers, and
   * an exit only as its last effect, with status 1.
   */
  lemma {:induction false} WalkShape(chunk: string, ps: seq<Prompt>)
    ensures NoEcho(Walk(chunk, ps))
    ensures WritesAnswers(Walk(chunk, ps))
    ensures ExitIsFinal(Walk(chunk, ps))
    decreases |ps|
  {
    if ps != [] && !Fatal(chunk, ps[0]) {
      WalkShape(chunk, ps[1..]);
      WalkStep(chunk, ps);
      ShapeAppend(AnswerFor(chunk, ps[0]), Walk(chunk, ps[1..]));
    }
  }

  /**
   * For one chunk: the echo comes first and only once, and an exit only as
   * the last effect, with status 1.
   */
  lemma RespondShape(chunk: string, ps: seq<Prompt>)
    ensures NoEcho(Respond(chunk, ps)[1..])
    ensures ExitIsFinal(Respond(chunk, ps))
  {
    WalkShape(chunk, ps);
    ShapeAppend([Echo(chunk)], Walk(chunk, ps));
    assert Respond(chunk, ps)[1..] == Walk(chunk, ps);
  }

  /**
   * The `data` handler on the child's standard output. It walks the
   * registry with a loop and returns as soon as it has ended the process.
   */
  method OnData(chunk: string, prompts: seq<Prompt>) returns (effects: seq<Effect>)
    ensures effects == Respond(chunk, prompts)
  {
    effects := [Echo(chunk)];
    var i := 0;
    while i < |prompts|
      invariant 0 <= i <= |prompts|
      invariant effects + Walk(chunk, prompts[i..]) == Respond(chunk, prompts)
    {
      var prompt := prompts[i];
      assert prompts[i..][1..] == prompts[i + 1..];
      if Includes(chunk, prompt.text) {
        if prompt.value == None {
          effects := effects + [Error(ErrorMessage(prompt)), Exit(1)];
          return;
        }
        var answer := prompt.value.value;
        effects := effects + [Write(Payload(answer))];
      }
      i := i + 1;
    }
    assert effects + [] == effects;
  }

  /** Reference definition: the prompts whose signatures the chunk contains, in registry order. */
  function Matching(chunk: string, ps: seq<Prompt>): (r: seq<Prompt>)
    ensures |r| <= |ps|
    ensures forall p :: p in r <==> p in ps && Matches(chunk, p)
  {
    if ps == [] then []
    else (if Matches(chunk, ps[0]) then [ps[0]] else []) + Matching(chunk, ps[1..])
  }

  /** Reference definition: one write per prompt, `y` for a true answer and `n` otherwise. */
  function Replies(ps: seq<Prompt>): (r: seq<Effect>)
  {
    seq(|ps|, i requires 0 <= i < |ps| => Write(Payload(ps[i].value == Some(true))))
  }

  /** What the walk produces for a prompt that is not fatal for the chunk. */
  function AnswerFor(chunk: string, p: Prompt): (r: seq<Effect>)
  {
    if Matches(chunk, p) then [Write(Payload(p.value == Some(true)))] else []
  }

  /** One step of the walk over a prompt that is not fatal for the chunk. */
  lemma WalkStep(chunk: string, ps: seq<Prompt>)
    requires ps != [] && !Fatal(chunk, ps[0])
    ensures Walk(chunk, ps) == AnswerFor(chunk, ps[0]) + Walk(chunk, ps[1..])
  {
  }

  lemma MatchingCons(chunk: string, p: Prompt, ps: seq<Prompt>)
    ensures Matching(chunk, [p] + ps) == (if Matches(chunk, p) then [p] else []) + Matching(chunk, ps)
  {
    assert ([p] + ps)[1..] == ps;
  }

  lemma RepliesCons(p: Prompt, ps: seq<Prompt>)
    ensures Replies([p] + ps) == [Write(Payload(p.value == Some(true)))] + Replies(ps)
  {
  }

  /**
   * When no matching prompt lacks an answer, the walk writes exactly one
   * answer per matching prompt, in registry order (not in the order the
   * signatures occur in the chunk, and once however often a signature
   * occurs), and never ends the process.
   */
  lemma {:induction false} WalkAllAnswered(chunk: string, ps: seq<Prompt>)
    requires forall i | 0 <= i < |ps| :: !Fatal(chunk, ps[i])
    ensures Walk(chunk, ps) == Replies(Matching(chunk, ps))
  {
    if ps != [] {
      assert forall i | 0 <= i < |ps[1..]| :: ps[1..][i] == ps[i + 1];
      WalkAllAnswered(chunk, ps[1..]);
      WalkStep(chunk, ps);
      RepliesPrefixStep(chunk, ps, |ps|);
      assert ps[..|ps|] == ps && ps[1..][..|ps| - 1] == ps[1..];
    }
  }

  /**
   * When the first fatal prompt is at index `k`, the walk writes the answers
   * of the matching prompts before it, then reports the error and ends the
   * process: nothing is written for prompt `k` and later prompts are not looked at.
   */
  lemma {:induction false} WalkFatal(chunk: string, ps: seq<Prompt>, k: nat)
    requires k < |ps| && Fatal(chunk, ps[k])
    requires forall j | 0 <= j < k :: !Fatal(chunk, ps[j])
    ensures Walk(chunk, ps) == Replies(Matching(chunk, ps[..k])) + [Error(ErrorMessage(ps[k])), Exit(1)]
  {
    if k == 0 {
      assert ps[..0] == [];
    } else {
      assert forall j | 0 <= j < |ps[1..]| :: ps[1..][j] == ps[j + 1];
      WalkFatal(chunk, ps[1..], k - 1);
      WalkPrefixStep(chunk, ps, k, [Error(ErrorMessage(ps[k])), Exit(1)]);
    }
  }

  /** Extends a statement about the walk after the first prompt to the whole walk. */
  lemma WalkPrefixStep(chunk: string, ps: seq<Prompt>, k: nat, tail: seq<Effect>)
    requires 0 < k <= |ps| && !Fatal(chunk, ps[0])
    requires Walk(chunk, ps[1..]) == Replies(Matching(chunk, ps[1..][..k - 1])) + tail
    ensures Walk(chunk, ps) == Replies(Matching(chunk, ps[..k])) + tail
  {
    var before := Replies(Matching(chunk, ps[1..][..k - 1]));
    var head := AnswerFor(chunk, ps[0]);
    WalkStep(chunk, ps);
    RepliesPrefixStep(chunk, ps, k);
    ConcatAssociative(head, before, tail);
  }

  lemma ConcatAssociative(a: seq<Effect>, b: seq<Effect>, c: seq<Effect>)
    ensures a + (b + c) == (a + b) + c
  {
  }

  /** The replies to the matching prompts of a prefix, one prompt at a time. */
  lemma RepliesPrefixStep(chunk: string, ps: seq<Prompt>, k: nat)
    requires 0 < k <= |ps|
    ensures Replies(Matching(chunk, ps[..k])) == AnswerFor(chunk, ps[0]) + Replies(Matching(chunk, ps[1..][..k - 1]))
  {
    var before := ps[1..][..k - 1];
    assert ps[..k] == [ps[0]] + before;
    MatchingCons(chunk, ps[0], before);
    RepliesCons(ps[0], Matching(chunk, before));
  }

  /** A chunk that contains no signature is only echoed. */
  lemma {:induction false} RespondNoMatch(chunk: string, ps: seq<Prompt>)
    requires forall i | 0 <= i < |ps| :: !Matches(chunk, ps[i])
    ensures Respond(chunk, ps) == [Echo(chunk)]
    decreases |ps|
  {
    if ps != [] {
      assert forall i | 0 <= i < |ps[1..]| :: ps[1..][i] == ps[i + 1];
      RespondNoMatch(chunk, ps[1..]);
    }
  }

  /**
   * The handler over a sequence of delivered chunks. It keeps no state: each
   * chunk is answered on its own, and nothing happens once a chunk has ended
   * the process.
   */
  function Session(chunks: seq<string>, ps: seq<Prompt>): (r: seq<Effect>)
    decreases |chunks|
  {
    if chunks == [] then []
    else
      var first := Respond(chunks[0], ps);
      if Exited(first) then first else first + Session(chunks[1..], ps)
  }

  /** Over any number of chunks, an exit is only ever the last effect, with status 1. */
  lemma {:induction false} SessionShape(chunks: seq<string>, ps: seq<Prompt>)
    ensures ExitIsFinal(Session(chunks, ps))
    decreases |chunks|
  {
    if chunks != [] {
      RespondShape(chunks[0], ps);
      if !Halts(chunks[0], ps) {
        SessionShape(chunks[1..], ps);
        ShapeAppend(Respond(chunks[0], ps), Session(chunks[1..], ps));
      }
    }
  }

  /** Appending to effects that have not ended the process ends it exactly when the appended part does. */
  lemma ExitedAppend(a: seq<Effect>, b: seq<Effect>)
    requires !Exited(a)
    ensures Exited(a + b) <==> Exited(b)
  {
    if b != [] {
      assert (a + b)[|a + b| - 1] == b[|b| - 1];
    } else {
      assert a + b == a;
    }
  }

  /** The first chunk's effects, then those of the rest, while the first has not ended the process. */
  lemma SessionStep(chunks: seq<string>, ps: seq<Prompt>)
    requires chunks != [] && !Halts(chunks[0], ps)
    ensures Session(chunks, ps) == Respond(chunks[0], ps) + Session(chunks[1..], ps)
    ensures Exited(Session(chunks, ps)) <==> Exited(Session(chunks[1..], ps))
  {
    ExitedAppend(Respond(chunks[0], ps), Session(chunks[1..], ps));
  }

  /** The session ends the process exactly when some delivered chunk holds a fatal prompt. */
  lemma {:induction false} SessionExitedIff(chunks: seq<string>, ps: seq<Prompt>)
    ensures Exited(Session(chunks, ps)) <==> exists j | 0 <= j < |chunks| :: Halts(chunks[j], ps)
    decreases |chunks|
  {
    if chunks != [] && !Halts(chunks[0], ps) {
      SessionExitedIff(chunks[1..], ps);
      SessionStep(chunks, ps);
      if exists j | 0 <= j < |chunks| :: Halts(chunks[j], ps) {
        var j :| 0 <= j < |chunks| && Halts(chunks[j], ps);
        assert chunks[1..][j - 1] == chunks[j];
      }
      if exists j | 0 <= j < |chunks[1..]| :: Halts(chunks[1..][j], ps) {
        var j :| 0 <= j < |chunks[1..]| && Halts(chunks[1..][j], ps);
        assert chunks[1..][j] == chunks[j + 1];
      }
    }
  }

  /**
   * Chunks are independent: while the process has not ended, the effects of
   * later chunks are those they would have on their own.
   */
  lemma {:induction false} SessionAppend(a: seq<string>, b: seq<string>, ps: seq<Prompt>)
    requires !Exited(Session(a, ps))
    ensures Session(a + b, ps) == Session(a, ps) + Session(b, ps)
    decreases |a|
  {
    if a == [] {
      assert a + b == b;
    } else {
      var first := Respond(a[0], ps);
      assert !Halts(a[0], ps);
      SessionStep(a, ps);
      assert (a + b)[0] == a[0] && (a + b)[1..] == a[1..] + b;
      SessionStep(a + b, ps);
      SessionAppend(a[1..], b, ps);
      ConcatAssociative(first, Session(a[1..], ps), Session(b, ps));
    }
  }

  /** Once a chunk has ended the process, later chunks have no effect. */
  lemma {:induction false} SessionStops(a: seq<string>, b: seq<string>, ps: seq<Prompt>)
    requires Exited(Session(a, ps))
    ensures Session(a + b, ps) == Session(a, ps)
    decreases |a|
  {
    var first := Respond(a[0], ps);
    assert (a + b)[0] == a[0] && (a + b)[1..] == a[1..] + b;
    if !Exited(first) {
      var rest := Session(a[1..], ps);
      assert rest != [];
      assert (first + rest)[|first + rest| - 1] == rest[|rest| - 1];
      SessionStops(a[1..], b, ps);
    }
  }
}

/** Facts about the two registered signatures and the handler over the real registry. */
module Registered {
  import opened Wrappers
  import opened Strings
  import opened Prompts

  /** A chunk without a capital `T` cannot contain the retry signature. */
  lemma NoRetrySignatureWithoutT(s: string)
    requires 'T' !in s
    ensures !Includes(s, RetryText)
  {
    assert RetryText[0] == 'T';
    if Includes(s, RetryText) {
      IncludesFirstChar(s, RetryText);
    }
  }

  /** Neither signature contains the other, so a chunk holding one prompt answers only that one. */
  lemma SignaturesIndependent()
    ensures !Includes(DeletionText, RetryText)
    ensures !Includes(RetryText, DeletionText)
  {
    NoRetrySignatureWithoutT(DeletionText);
  }

  /**
   * A chunk that is exactly the deletion prompt gets the configured answer
   * for deletion, or ends the wrapper if there is none.
   */
  lemma DeletionPromptAnswered(confirmOnDeletion: Option<bool>, confirmOnRetryFailure: Option<bool>)
    ensures var ps := Registry(confirmOnDeletion, confirmOnRetryFailure);
      Respond(DeletionText, ps)
        == if confirmOnDeletion.Some?
           then [Echo(DeletionText), Write(Payload(confirmOnDeletion.value))]
           else [Echo(DeletionText), Error(ErrorMessage(ps[0])), Exit(1)]
  {
    var ps := Registry(confirmOnDeletion, confirmOnRetryFailure);
    assert Matches(DeletionText, ps[0]) by {
      assert DeletionText[..|DeletionText|] == DeletionText;
    }
    assert !Matches(DeletionText, ps[1]) by {
      SignaturesIndependent();
    }
    assert ps[1..][0] == ps[1] && ps[1..][1..] == [];
    assert Walk(DeletionText, ps[1..]) == [];
  }

  /** A chunk that is exactly the retry prompt gets the configured answer for retries, or ends the wrapper. */
  lemma RetryPromptAnswered(confirmOnDeletion: Option<bool>, confirmOnRetryFailure: Option<bool>)
    ensures var ps := Registry(confirmOnDeletion, confirmOnRetryFailure);
      Respond(RetryText, ps)
        == if confirmOnRetryFailure.Some?
           then [Echo(RetryText), Write(Payload(confirmOnRetryFailure.value))]
           else [Echo(RetryText), Error(ErrorMessage(ps[1])), Exit(1)]
  {
    var ps := Registry(confirmOnDeletion, confirmOnRetryFailure);
    assert !Matches(RetryText, ps[0]) by {
      SignaturesIndependent();
    }
    assert Matches(RetryText, ps[1]) by {
      assert RetryText[..|RetryText|] == RetryText;
    }
    assert ps[1..][0] == ps[1] && ps[1..][1..] == [];
    WalkStep(RetryText, ps);
    assert AnswerFor(RetryText, ps[0]) == [];
    assert Walk(RetryText, ps) == Walk(RetryText, ps[1..]);
  }

  /**
   * The same prompt delivered in two separate chunks is answered twice: the
   * handler does not remember earlier chunks.
   */
  lemma RepeatedPromptAnsweredTwice(confirmOnDeletion: bool, confirmOnRetryFailure: Option<bool>)
    ensures Session([DeletionText, DeletionText], Registry(Some(confirmOnDeletion), confirmOnRetryFailure))
         == [Echo(DeletionText), Write(Payload(confirmOnDeletion)),
             Echo(DeletionText), Write(Payload(confirmOnDeletion))]
  {
    var ps := Registry(Some(confirmOnDeletion), confirmOnRetryFailure);
    var chunks := [DeletionText, DeletionText];
    var once := Respond(DeletionText, ps);
    DeletionPromptAnswered(Some(confirmOnDeletion), confirmOnRetryFailure);
    assert !Exited(once);
    assert chunks[1..] == [DeletionText] && chunks[1..][1..] == [];
    assert Session(chunks[1..], ps) == once + [];
  }

  /**
   * The deletion prompt answered, then the retry prompt unanswered: the
   * answer is written, then the second chunk ends the process.
   */
  lemma DeletionThenRetry(confirmOnDeletion: bool)
    ensures var ps := Registry(Some(confirmOnDeletion), None);
      Session([DeletionText, RetryText], ps)
        == [Echo(DeletionText), Write(Payload(confirmOnDeletion)), Echo(RetryText), Error(ErrorMessage(ps[1])), Exit(1)]
  {
    var ps := Registry(Some(confirmOnDeletion), None);
    var chunks := [DeletionText, RetryText];
    var first := Respond(DeletionText, ps);
    var second := Respond(RetryText, ps);
    DeletionPromptAnswered(Some(confirmOnDeletion), None);
    RetryPromptAnswered(Some(confirmOnDeletion), None);
    assert !Exited(first) && Exited(second);
    assert chunks[0] == DeletionText && chunks[1..] == [RetryText] && [RetryText][0] == RetryText;
    assert Session(chunks[1..], ps) == second;
    assert Session(chunks, ps) == first + second;
  }

  /** A proper piece of the deletion prompt is only echoed. */
  lemma DeletionFragmentOnlyEchoed(i: nat, j: nat, confirmOnDeletion: Option<bool>, confirmOnRetryFailure: Option<bool>)
    requires i <= j <= |DeletionText| && j - i < |DeletionText|
    ensures var h := DeletionText[i..j];
      Respond(h, Registry(confirmOnDeletion, confirmOnRetryFailure)) == [Echo(h)]
  {
    var h := DeletionText[i..j];
    assert 'T' !in DeletionText;
    assert 'T' !in h;
    NoRetrySignatureWithoutT(h);
    RespondNoMatch(h, Registry(confirmOnDeletion, confirmOnRetryFailure));
  }

  /**
   * A deletion prompt split across two chunks is never recognised: both
   * halves are only echoed, whatever the configuration.
   */
  lemma SplitPromptMissed(k: nat, confirmOnDeletion: Option<bool>, confirmOnRetryFailure: Option<bool>)
    requires 0 < k < |DeletionText|
    ensures var halves := [DeletionText[..k], DeletionText[k..]];
      Session(halves, Registry(confirmOnDeletion, confirmOnRetryFailure)) == [Echo(halves[0]), Echo(halves[1])]
  {
    var ps := Registry(confirmOnDeletion, confirmOnRetryFailure);
    var halves := [DeletionText[..k], DeletionText[k..]];
    DeletionFragmentOnlyEchoed(0, k, confirmOnDeletion, confirmOnRetryFailure);
    DeletionFragmentOnlyEchoed(k, |DeletionText|, confirmOnDeletion, confirmOnRetryFailure);
    assert DeletionText[0..k] == halves[0] && DeletionText[k..|DeletionText|] == halves[1];
    assert halves[1..] == [halves[1]] && halves[1..][1..] == [];
    assert Session(halves[1..], ps) == [Echo(halves[1])] + [];
  }

  /** A proper piece of the retry prompt is only echoed: it is shorter than either signature. */
  lemma RetryFragmentOnlyEchoed(i: nat, j: nat, confirmOnDeletion: Option<bool>, confirmOnRetryFailure: Option<bool>)
    requires i <= j <= |RetryText| && j - i < |RetryText|
    ensures var h := RetryText[i..j];
      Respond(h, Registry(confirmOnDeletion, confirmOnRetryFailure)) == [Echo(h)]
  {
    var h := RetryText[i..j];
    assert |h| < |RetryText| < |DeletionText|;
    assert !Includes(h, DeletionText) && !Includes(h, RetryText);
    RespondNoMatch(h, Registry(confirmOnDeletion, confirmOnRetryFailure));
  }

  /**
   * A retry prompt split across two chunks is never recognised either: both
   * halves are only echoed, whatever the configuration.
   */
  lemma RetrySplitMissed(k: nat, confirmOnDeletion: Option<bool>, confirmOnRetryFailure: Option<bool>)
    requires 0 < k < |RetryText|
    ensures var halves := [RetryText[..k], RetryText[k..]];
      Session(halves, Registry(confirmOnDeletion, confirmOnRetryFailure)) == [Echo(halves[0]), Echo(halves[1])]
  {
    var ps := Registry(confirmOnDeletion, confirmOnRetryFailure);
    var halves := [RetryText[..k], RetryText[k..]];
    RetryFragmentOnlyEchoed(0, k, confirmOnDeletion, confirmOnRetryFailure);
    RetryFragmentOnlyEchoed(k, |RetryText|, confirmOnDeletion, confirmOnRetryFailure);
    assert RetryText[0..k] == halves[0] && RetryText[k..|RetryText|] == halves[1];
    assert halves[1..] == [halves[1]] && halves[1..][1..] == [];
    assert Session(halves[1..], ps) == [Echo(halves[1])] + [];
  }
}
