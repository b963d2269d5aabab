# firebase-deploy: the prompt-answering wrapper, modelled in Dafny

`firebase-deploy` is a small Node.js wrapper around `firebase deploy`. It
starts `firebase deploy … --interactive` as a child process. It relays the
child's standard output. Whenever a chunk of that output contains one of two
known confirmation prompts, it answers `y` or `n` on the child's standard
input, as the operator chose with command-line flags:

- `--confirm-on-deletion` / `--no-confirm-on-deletion`;
- `--confirm-on-retry-failure` / `--no-confirm-on-retry-failure`.

A prompt that shows up with no configured answer is a fatal error. The wrapper
also refuses `--non-interactive`, `-f` and `--force`. When the child closes,
the wrapper exits with the child's status.

This project models the decision rules of that wrapper and proves their
properties:

- `strings.dfy`, module `Strings`: JavaScript's `String.prototype.includes`
  as a left-to-right scan, proved equal to "some offset holds the substring",
  and `Array.prototype.join`.
- `prompts.dfy`, module `Prompts`: the prompt registry, the answer payloads
  and the error message. The per-chunk `data` handler is `OnData`, a method
  with a loop that stops on the fatal case. It is proved equal to the
  specification function `Respond`. `Respond` is then characterised against
  an independent filter-and-map reference (`Matching`, `Replies`). `Session`
  runs the handler once per delivered chunk and stops once the process has
  ended.
- `prompts.dfy`, module `Registered`: facts about the two real signatures.
  These include the scenarios of a repeated prompt and of a prompt split
  across two chunks.
- `cli.dfy`, module `Cli`: validation of the leftover arguments, the child's
  argument vector, and the mapping from close code to exit status.
- `supervisor.dfy`, module `Supervisor`: a whole run, from arguments and
  delivered chunks to the effects and the exit status. It is proved to
  succeed exactly when the arguments pass, every prompt that appears is
  answered, and the child exits with 0.

The handler's actions are recorded as `Effect` values rather than performed.
An `Effect` is one of `Echo(chunk)`, `Write(payload)`, `Error(message)` or
`Exit(code)`. Ending the process is the terminal `Exit` effect, and no effect
follows it. `Echo(chunk)` stands for the logger's `console.log` of the chunk
(src/index.js:8, 92), so the chunk is written followed by a newline.

The code keeps no buffer: it matches each delivered chunk on its own, so a
signature split across two chunks is missed. `SplitPromptMissed` and
`RetrySplitMissed` prove this for the two registered signatures.

## Model

| member | source | states |
|---|---|---|
| `Strings.IncludesIff` | src/index.js:95 | the `includes` scan holds exactly when the signature occurs as a contiguous block at some offset of the chunk |
| `Strings.Join` | src/index.js:100-102 | joining a one-element array gives the element; joining a pair gives first, separator, second |
| `Strings.JoinIncludesEach` | src/index.js:100-102 | every option name can be found in the joined option list |
| `Prompts.Registry` | src/index.js:77-88 | the registry holds two prompts, each with a pair of flag names |
| `Prompts.Payload` | src/index.js:106 | the payload is two characters ending in a newline, starting with `y` exactly when the answer is true and with `n` exactly when it is false |
| `Prompts.ErrorMessageNamesPrompt` | src/index.js:97-103 | the error message contains the prompt text, each flag name, and the two flags joined by `" or "` |
| `Prompts.Walk` | src/index.js:94-108 | the registry walk produces at most one effect per prompt plus one; it ends the process exactly when some matching prompt has no answer |
| `Prompts.WalkShape` | src/index.js:94-108 | the registry walk never echoes; it writes only `y\n` or `n\n`; an exit comes only as its last effect and has code 1 |
| `Prompts.Respond` | src/index.js:90-108 | the chunk is echoed first; the handler ends the process exactly when the chunk holds an unanswered prompt |
| `Prompts.RespondShape` | src/index.js:90-108 | after the first effect no echo follows; an exit comes only as the last effect and has code 1 |
| `Prompts.OnData` | src/index.js:90-109 | the loop over the registry, which returns at the fatal prompt, produces exactly the effects `Respond` specifies |
| `Prompts.Matching` | src/index.js:94-95 | reference filter: at most one entry per registry prompt, holding exactly the prompts whose signature the chunk contains |
| `Prompts.WalkAllAnswered` | src/index.js:94-107 | with no unanswered matching prompt, the walk writes one answer per matching prompt, in registry order, and nothing else |
| `Prompts.WalkFatal` | src/index.js:96-106 | at the first unanswered matching prompt, the answers for earlier matching prompts stay; then come the error and exit 1; nothing is written for that prompt; later prompts are not examined |
| `Prompts.RespondNoMatch` | src/index.js:91-95 | a chunk that contains no signature is only echoed |
| `Prompts.SessionShape` | src/index.js:90-109 | over a sequence of chunks, an exit is always the last effect and has code 1 |
| `Prompts.SessionExitedIff` | src/index.js:90-109 | a sequence of chunks ends the process exactly when some chunk holds an unanswered prompt |
| `Prompts.SessionAppend` | src/index.js:90-95 | the handler keeps no state: until the process ends, the effects of later chunks are those they would have on their own |
| `Prompts.SessionStops` | src/index.js:104 | after a chunk has ended the process, later chunks have no effect |
| `Registered.NoRetrySignatureWithoutT` | src/index.js:84-95 | a chunk without a capital `T` never contains the retry signature |
| `Registered.SignaturesIndependent` | src/index.js:77-88 | neither registered signature contains the other |
| `Registered.DeletionPromptAnswered` | src/index.js:77-107 | a chunk that is the deletion prompt is echoed, then gets the configured deletion answer, or else the error naming that prompt and exit 1 |
| `Registered.RetryPromptAnswered` | src/index.js:77-107 | a chunk that is the retry prompt is echoed, then gets the configured retry answer, or else the error naming that prompt and exit 1 |
| `Registered.RepeatedPromptAnsweredTwice` | src/index.js:90-107 | the deletion prompt in two separate chunks is answered twice |
| `Registered.DeletionThenRetry` | src/index.js:77-106 | with a deletion answer set and retries unset, the deletion prompt then the retry prompt give: echo, the answer, echo, the error naming the retry prompt, exit 1 |
| `Registered.DeletionFragmentOnlyEchoed` | src/index.js:90-95 | a proper piece of the deletion prompt is only echoed, whatever the configuration |
| `Registered.SplitPromptMissed` | src/index.js:90-95 | the deletion prompt split across two chunks is never answered: both halves are only echoed |
| `Registered.RetryFragmentOnlyEchoed` | src/index.js:90-95 | a proper piece of the retry prompt is only echoed, whatever the configuration |
| `Registered.RetrySplitMissed` | src/index.js:90-95 | the retry prompt split across two chunks is never answered: both halves are only echoed |
| `Cli.ValidateArgs` | src/index.js:40-54 | the arguments pass, unchanged, exactly when none is `--non-interactive`, `-f` or `--force`; `--non-interactive` gives its own message even beside `-f`/`--force`; otherwise the force message |
| `Cli.RefusalIgnoresOtherArgs` | src/index.js:43-51 | a refused argument list stays refused whatever arguments are added around it |
| `Cli.ChildArgv` | src/index.js:73 | the child's arguments are `deploy`, then the passthrough arguments in order, then `--interactive`, so their length is the passthrough count plus 2 |
| `Cli.ChildArgvInteractive` | src/index.js:40-73 | after validation, the child gets `--interactive` and never `--non-interactive`, `-f` or `--force` |
| `Cli.ExitStatus` | src/index.js:115-117 | a numeric close code is the exit status; a null close code (signal) gives 1 |
| `Supervisor.Run` | src/index.js:40-117 | every run ends with an exit that carries its status, and no earlier effect is an exit; refused arguments start no child and exit 1; otherwise the child gets `ChildArgv` of the arguments |
| `Supervisor.RunRelaysCloseCode` | src/index.js:115-117 | with valid arguments and no unanswered prompt, the run's effects are the handler's effects followed by the exit with the close status |
| `Supervisor.RunStopsAtUnansweredPrompt` | src/index.js:96-106 | a chunk holding an unanswered prompt ends the run with status 1 right after it; later chunks and the close code play no part |
| `Supervisor.RunSucceedsIff` | src/index.js:40-117 | the run exits 0 exactly when the arguments pass, no chunk holds an unanswered prompt, and the child closes with 0 |
| `Supervisor.DeletionConfirmedRetryUnanswered` | src/index.js:77-106 | with deletion set to true and retries unset, the two prompts give: echo, `y\n`, echo, an error naming both retry flags, exit 1 |
| `Supervisor.FullyAnsweredRelaysStatus` | src/index.js:94-117 | with both answers set, no output can end the run early, and it exits with the child's status |

## Left out

- Option parsing by the `commander` library (src/index.js:13-38, 56-62) is not modelled. It is a foreign library. The two answers enter the model as `Option<bool>` values, and the leftover arguments as a list of strings.
- Name, description and version text (src/index.js:15-18) are not modelled. They hold no logic.
- Starting the child, pipes and event registration (src/index.js:73-75, 90, 111, 115) are not modelled. I/O is replaced by one handler call per delivered chunk, and by the close code as a parameter.
- The interleaving of stdout, stderr and close events is not modelled. This is Node's event loop. The model assumes all stdout chunks arrive before `close`, as Node guarantees.
- Forwarding the child's standard error (src/index.js:111-113) and the "process exited with code" log line (src/index.js:116) are not modelled. They are output only and never change a decision.
- Decoding of the raw chunk bytes (`data.toString()`, src/index.js:91) is not modelled. Chunks enter as strings.
- After a fatal prompt the child is left running, blocked on its input. This is not modelled: `process.exit` is the terminal `Exit(1)` effect, and nothing follows it.
- Truncation of exit statuses to 8 bits by the operating system is not modelled. Child close codes are already in that range.
