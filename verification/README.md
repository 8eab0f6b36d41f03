# A verified model of ai-hats

ai-hats composes roles out of traits, rules and skills, launches agents under them,
and keeps the shared state they need on disk. This project models the parts of it
whose promises span whole runs or all inputs, and proves those promises.

| module | file | what it models |
|---|---|---|
| `Ownership`, `OwnershipProtocol` | `ownership.dfy`, `ownership_protocol.dfy` | the task-ownership registry: its operations, and any number of clients interleaving their steps while processes die and clients crash |
| `Overlays`, `Agreement`, `Assembler` | `overlays.dfy`, `agreement.dfy`, `assembler.dfy` | overlay edits of a role's lists, the two walks over them, and exactly when these agree |
| `Composer`, `Materialize`, `Consent` | `composer.dfy`, `consent.dfy` | the composition engine, its strict and tolerant facades, and the consent fold |
| `Wire`, `InitialInput` | `wire.dfy`, `initial_input.dfy` | the terminal relay's framing and the timed first input |
| `Closure`, `SignedFold`, `Expressions` | `closure.dfy`, `signed_fold.dfy`, `expressions.dfy` | the composite migration: worklist closure, signed unfolding of a cyclic graph, printing and reading expressions |
| `HookPump`, `LogNames` | `hook_pump.dfy`, `log_names.dfy` | the pump between a hook and its log, and the log file names |
| `Normalize`, `DisableHooks`, `Recovery` | `normalize.dfy`, `disable_hooks.dfy`, `recovery.dfy` | telling edits from tidying, taking user hooks out of a settings tree, reclaiming directories of dead sessions |
| `Lists`, `Text`, `Encoding`, `Wrappers` | | shared vocabulary |

Methods that update state in the original are methods or class methods here, each
proved against a function or predicate; the main results are lemmas about those.
`dafny verify dfyconfig.toml` checks everything.

What the system decides from outside is a parameter: liveness verdicts, clocks,
digests, the process table at each instant, which stream is ready and how much of it
moves, where a peer cuts its bytes. Nothing restricts these beyond what is said below.

## Assumptions

- `Ownership`: a process is an incarnation of a pid, and dead stays dead. A verdict
  may call a dead owner live, never a live one dead; `LivenessIsOneSided` derives this
  from truthful answers of `ps` and `kill`, but for a `ps` that succeeds and prints nothing. Replacing the registry file is atomic.
- `HookPump`: a write takes at least one pending byte, a read returns at least one
  byte unless the stream has ended.
- `Recovery`: the process table is a history of instants; from one instant to the next
  a process keeps its start time and an exited one stays exited, so a pid passes to
  another process only through an instant at which it is free.
- `InitialInput`: time is a real number. `PasteWaitsForSilence` needs a clock that
  never goes back; the other results need no such thing.

## Where the code and what is said of it differ

- `owner_of` judges liveness after it has released the lock. Its answer shows a record
  as dead although no state of the registry since the call recorded a dead owner if and
  only if the record was removed or replaced while its owner still ran
  (`OwnershipProtocol.OwnerOfIsOneStateExactly`); `OwnershipProtocol.OwnerOfIsNotOneState`
  is such a run. Everything else is linearizable.
- A `ps` that succeeds and prints nothing makes the registry call a running owner with a
  recorded start time dead, and nothing else does (`Ownership.RunningOwnerIsCalledDead`);
  the session liveness code keeps such an owner. The registry's protocol is proved for
  verdicts without that answer.
- The traits shown are the traits composed, in order, if and only if every repetition in
  the base list has been removed, no trait is composed only because a removal left an
  occurrence behind, and what was left behind puts no trait before another
  (`Agreement.ResultsAgreeIff`, for any base list and any edits). For a base list without
  repetition both show the same names if and only if every removal that is the last edit
  of its name meets it at most once (`Agreement.NamesAgreeEditByEdit`); the same names may
  still come in another order (`Agreement.LeftoverMayReorder`). When the last removal of
  every name meets it at most once the lists are equal (`Assembler.ShownIsComposed`).
- `feed` drops the frames completed in the very call that raises, so what was
  delivered before an error depends on how the bytes were cut, although the error
  does not (`Wire.RaiseLosesItsCall`, `Wire.DeliveryDependsOnCutting`). Nothing is lost
  if and only if the buffer given to the raising call starts with the bad length
  (`Wire.RaiseLosesNothingIff`). The encoder accepts payloads that `feed` refuses; some call
  raises if and only if one was sent (`Wire.GuardIsExact`).
- The injector, taken by itself, reports the cap as missed although it has written
  everything exactly when it is ticked at or after the cap once it had finished
  (`InitialInput.MissedMayHaveWritten`, with a run in `InitialInput.LateTickMisses`).
  The loop that owns it ticks it only while it is pending, and then a missed cap does
  mean that nothing was written (`InitialInput.MissedMeansNotDelivered`).
- The liveness table is read once and used for the rest of a sweep, guarded only
  against pids absent from it. A session whose owners all run is taken if and only if
  that table shows, for every one of them, another process or a zombie at its pid
  (`Recovery.RunningSessionIsTakenExactly`; `Recovery.OwnedSessionIsTakenExactly` for
  any owners). That takes pids that were freed and taken again during the sweep
  (`Recovery.RunningSessionIsTakenOnlyRecycled`); `Recovery.RecycledPidLosesRunningSession`
  is such a history.
- The event `event` and the empty event share a log name, and only they do
  (`LogNames.NameTellsEventAndToken`). Different rows share a token if and only if their
  runs differ by one slash behind a name without any and all else is the same
  (`LogNames.SlashlessRunsCollide`); resolution refuses runs without a slash.

## Model

| member | source | states |
|---|---|---|
| `Ownership.RunningOwnerIsCalledDead` | src/ai_hats/ownership.py:49-118 | under truthful answers a running recorded owner is called dead iff `ps` succeeds and prints nothing although a start time was recorded |
| `Ownership.LivenessIsOneSided` | src/ai_hats/ownership.py:94-118 | without that answer a running recorded owner is never judged dead; a determined answer with a start time is exact, and without one the owner is live unless `kill` finds no process |
| `Ownership.Registry.Take` | src/ai_hats/ownership.py:158-197 | the claim leaves and answers what `Outcome` says, with dead owners swept first; a claim that succeeds leaves session, process, start time and claim time recorded |
| `Ownership.Registry.Release` | src/ai_hats/ownership.py:200-213 | removes the record only when the task is recorded for that session |
| `Ownership.Registry.ReleaseSessionPid` | src/ai_hats/ownership.py:216-239 | removes and counts the records of that session and pid |
| `Ownership.Registry.Finish` | src/ai_hats/ownership.py:242-251 | drops the task's record whoever holds it |
| `Ownership.Registry.Sweep` | src/ai_hats/ownership.py:282-294 | keeps exactly the records judged live and counts the others |
| `Ownership.Registry.OwnerOf` | src/ai_hats/ownership.py:254-267 | the record of the task, or none, with the liveness verdict on it |
| `Ownership.Registry.HeldBy` | src/ai_hats/ownership.py:270-279 | the tasks recorded for the session, without a liveness filter |
| `Ownership.TakeDecides` | src/ai_hats/ownership.py:173-197 | exactly when a claim succeeds or is refused and for which reason, which other tasks make a session busy, and that success leaves the caller with its start time, the live others and nobody else |
| `Ownership.ClaimIsBoundToItsProcess` | src/ai_hats/ownership.py:94-197 | a claim made by a process that `ps` sees is later judged live iff a determined answer shows that very start time |
| `Ownership.QueriesAreExact` | src/ai_hats/ownership.py:254-279 | `owner_of` answers a record iff it is the task's, and `held_by` exactly the tasks recorded for the session |
| `Ownership.RemovalsAreExact` | src/ai_hats/ownership.py:200-294 | every operation but a claim removes exactly the records it is meant to, changes none and creates none |
| `Ownership.RemovalsAreCounted` | src/ai_hats/ownership.py:216-294 | the counts returned are the numbers of records removed |
| `Ownership.OutcomeKeepsSingleSlot` | src/ai_hats/ownership.py:182-197 | under any verdicts, right or wrong, no operation lets a session hold two tasks |
| `Ownership.SingleSlotBounds` | src/ai_hats/ownership.py:216-279 | so `held_by` names at most one task and `release_session_pid` removes at most one record |
| `OwnershipProtocol.RunSimulates` | src/ai_hats/ownership.py:158-294 | every interleaving leaves the registry that its log of completed operations leaves, and the log is a legal sequential run |
| `OwnershipProtocol.EveryOperationTakesEffectOnce` | src/ai_hats/ownership.py:158-294 | linearizability: an operation occurs in the log after its invocation, once, with the result its caller sees, and not before it has taken effect |
| `OwnershipProtocol.SingleSlotAlways` | src/ai_hats/ownership.py:158-294 | in every state of every run a session holds at most one task |
| `OwnershipProtocol.EventKeepsOwner` | src/ai_hats/ownership.py:173-251 | while the recorded owner runs, one operation ends its ownership iff it is a release under its session, one under its session and recorded pid, or a finish |
| `OwnershipProtocol.OwnershipIsStable` | src/ai_hats/ownership.py:173-251 | over any run in which the owner's process lives and no such operation comes, it stays the owner and every other claimant is refused and told the holder; a peer's release under another pid changes nothing |
| `OwnershipProtocol.ShownDeadIsDead` | src/ai_hats/ownership.py:254-267 | an owner shown as dead is dead by the time the answer is returned |
| `OwnershipProtocol.AnswerWasRecorded` | src/ai_hats/ownership.py:254-267 | in every run from rest, what `owner_of` answers was recorded for the task at some state since it was invoked |
| `OwnershipProtocol.OwnerOfIsOneStateExactly` | src/ai_hats/ownership.py:254-267 | for every run in which an owner is shown as dead: some state since the call records it with its owner gone iff the owner was gone at the last state that records it, which fails iff the record was removed or replaced while its owner ran; a record still there is always such a state |
| `OwnershipProtocol.OwnerOfIsNotOneState` | src/ai_hats/ownership.py:254-267 | a run in which the flag matches no state of the registry |
| `Composer.Compose` | src/ai_hats/composer.py:35-231 | the engine with its accumulators, seen-sets and deferred removals produces what `IsComposition` says: first occurrences minus drops, and every error in order, each as often as it is met |
| `Composer.TroubleIsReported` | src/ai_hats/composer.py:84-402 | an error is reported iff the library, the role and the layers give its cause |
| `Composer.HoldsExactly` | src/ai_hats/composer.py:104-185 | a name is in the result iff it is declared, resolves and was not dropped |
| `Composer.ComposedInPlainTerms` | src/ai_hats/composer.py:104-185 | a rule or skill is composed iff the library has it and the role's final list names it, or a composed trait brings it and no layer asks for its removal |
| `Composer.RefusedInPlainTerms` | src/ai_hats/composer.py:136-185 | a removal is refused iff a layer asks for it, the final list does not name it, no removal met it and no composed trait brings it out of the library |
| `Composer.LastLayerWins` | src/ai_hats/composer.py:234-273 | a role starts from its own list, and what the last layer adds ends the final list whatever went before |
| `Composer.ComposedInOrder` | src/ai_hats/composer.py:290-402 | composed names stand in the order in which traits first bring them, else the role names them |
| `Composer.ApplyOverlays` | src/ai_hats/composer.py:90-103 | all layers leave the edited lists, the removals asked and met, and the trait removals that missed, in order |
| `Composer.Bucket.Apply` | src/ai_hats/composer.py:234-273 | one layer: each removal recorded as asked, and as met when it took an occurrence, then the additions |
| `Composer.ResolveTraits` | src/ai_hats/composer.py:275-340 | each trait once, in first-occurrence order, refused when unknown or nested, else its rules and skills offered; its errors in order |
| `Composer.Bucket.Offer` | src/ai_hats/composer.py:342-402 | a name is resolved at its first occurrence only, and reported once, in order, when the library lacks it |
| `Composer.Bucket.DropRemoved` | src/ai_hats/composer.py:136-185 | what a removal takes unless the role restates it, and exactly which removals are refused |
| `Composer.ComposedMembers` | src/ai_hats/composer.py:122-185 | a name is composed iff it was offered, resolves and was not dropped |
| `Composer.ComposedSources` | src/ai_hats/composer.py:342-402 | every component comes from the place the library gives its name |
| `Composer.ComposedOnce` | src/ai_hats/composer.py:342-402 | nothing is composed twice |
| `Composer.OfferedIsDeclared` | src/ai_hats/composer.py:290-402 | what is offered is what the role and its composable effective traits declare |
| `Composer.NothingIsLostSilently` | src/ai_hats/composer.py:104-185 | every effective trait, declared rule and declared skill is in the result, taken by a removal, or named in a lossy error, and nothing else is in the result |
| `Materialize.ComposeForRole` | src/ai_hats/materialize.py:75-97 | the facade returns the composition with the user's rules attached iff it is tolerant, the name is empty, or the role is known and every effective trait, declared rule and declared skill is there |
| `Materialize.FacadeReturnsIff` | src/ai_hats/materialize.py:80-97 | the same of any answer; a removal that met nothing never makes a strict facade refuse |
| `Materialize.RuntimeLayerWins` | src/ai_hats/materialize.py:80-82 | the runtime layer comes last: what it adds ends the final list, and what it removes is asked away |
| `Materialize.StrictIsComplete` | src/ai_hats/materialize.py:80-97 | a strict facade that returns has every declared name present or removed by request |
| `Materialize.StrictRefusesLoss` | src/ai_hats/materialize.py:80-97 | strictness does not depend on which admissible composition it was given, and the composed lists are determined |
| `Assembler.EffectiveTraits` | src/ai_hats/assembler.py:537-561 | the layer-by-layer walk that removes present names and appends absent ones |
| `Assembler.ShownIsComposed` | src/ai_hats/assembler.py:537-561 | the traits shown are the traits composed in visiting order, when the base list is distinct and the last removal of every name meets it at most once |
| `Agreement.ResultsAgreeIff` | src/ai_hats/assembler.py:537-561 | for any base list and edits, the list shown is the list composed in visiting order iff the base list's repetitions are removed, no name is composed only as a left-over, and left-overs reorder nothing |
| `Agreement.NamesAgreeIff` | src/ai_hats/composer.py:244-273 | both hold the same names iff the composer holds more of each than was left behind |
| `Agreement.NamesAgreeEditByEdit` | src/ai_hats/composer.py:244-273 | for a distinct base list, iff every removal that is the last edit of its name meets it at most once |
| `Agreement.LeftoverMayReorder` | src/ai_hats/assembler.py:537-561 | edits after which the names are the same and their order is not |
| `Agreement.RepeatedRemovalSeparates` | src/ai_hats/assembler.py:537-561 | adding a name twice and removing it once separates them |
| `Lists.DedupKeepsFirstOrder` | src/ai_hats/composer.py:290-293 | what visiting with a seen-set yields: elements in the order of their first occurrences |
| `Consent.ResolvedConsent` | src/ai_hats/composer.py:410-470 | the dictionary fold asks the points of `Asked` and warns as `Disarms` says, in order, naming who armed and who disarmed |
| `Consent.WarnedOncePerFall` | src/ai_hats/composer.py:441-470 | for every key the number of warnings is the number of falls of its answers from true to false |
| `Consent.AskedMembers` | src/ai_hats/composer.py:419-438 | a point is asked iff the statement that began its final run of equal values is true, and is attributed to that statement's declarer |
| `Consent.AskedIffLastIsTrue` | src/ai_hats/composer.py:410-438 | a point is asked iff the last value declared for it is true |
| `Consent.AskedByRows` | src/ai_hats/composer.py:410-438 | row by row: a point is asked in a declarer's name iff a row of that declarer began the final run of equal answers about it and asks |
| `Consent.SaysExactly` | src/ai_hats/libraries/models.py:106-110 | a row says its one answer at each of its points, in its own name, and nothing else |
| `Consent.DisarmsExactly` | src/ai_hats/composer.py:441-470 | the warnings are exactly the false answers over a true run, each naming who began that run and who ends it |
| `Consent.AskedKeepsOrder` | src/ai_hats/composer.py:410-438 | points are asked in the order of their first declaration |
| `Consent.FinalRunIsUnique` | src/ai_hats/composer.py:419-438 | the attribution is unambiguous |
| `Wire.WireFrameParser.Feed` | src/ai_hats/pty_relay.py:54-71 | one call leaves and returns what a parse of the whole buffer does, and raises on an oversized length |
| `Wire.CuttingIsInvisible` | src/ai_hats/pty_relay.py:54-71 | for arbitrary bytes some call raises iff the one-shot parse does, and otherwise frames and remainder are the one-shot ones |
| `Wire.FrameLayout` | src/ai_hats/pty_relay.py:28-30 | the bytes of a frame: its type, its length in four bytes with the highest first, its payload; none for a type that is no byte or a length of more than four |
| `Wire.FramesSurviveCutting` | src/ai_hats/pty_relay.py:28-71 | frames within the guard survive any cutting of their encodings, leaving an empty buffer |
| `Wire.GuardIsExact` | src/ai_hats/pty_relay.py:25-71 | however the encodings of any encodable frames are cut, some call raises iff some payload is longer than 1048576 bytes |
| `Wire.RaisesForever` | src/ai_hats/pty_relay.py:60-66 | after a raise every later call raises and returns nothing |
| `Wire.BufferIsBounded` | src/ai_hats/pty_relay.py:54-71 | after a normal return less than one largest frame is buffered |
| `Wire.RaiseLosesItsCall` | src/ai_hats/pty_relay.py:54-71 | when a call raises, exactly the frames completed by earlier calls were delivered |
| `Wire.RaiseLosesNothingIff` | src/ai_hats/pty_relay.py:54-71 | an error loses no frame iff the buffer given to the raising call starts with the length that breaks the guard |
| `Wire.DeliveryDependsOnCutting` | src/ai_hats/pty_relay.py:54-71 | two cuttings of the same bytes that both raise and deliver different frames |
| `InitialInput.InitialInputInjector.OnOutput` | src/ai_hats/initial_input.py:57-61 | drawing restarts the quiet time and arms the injector |
| `InitialInput.InitialInputInjector.OnTick` | src/ai_hats/initial_input.py:76-92 | what a tick writes and the state it leaves |
| `InitialInput.InitialInputInjector.NextTimeout` | src/ai_hats/initial_input.py:63-74 | how long to wait, none when nothing is pending |
| `InitialInput.PasteClosesOnce` | src/ai_hats/initial_input.py:40-46 | whatever the text, the paste-close sequence occurs in the payload once, at its end |
| `InitialInput.PayloadReadsBack` | src/ai_hats/initial_input.py:40-46 | the payload is the paste-open sequence, bytes that decode to the text without escapes, and the paste-close sequence |
| `InitialInput.EscapeIsDropped` | src/ai_hats/initial_input.py:40-46 | dropping escapes keeps every other character in order |
| `InitialInput.EmissionsArePrefix` | src/ai_hats/initial_input.py:57-92 | any run writes a prefix of the payload followed by Enter |
| `InitialInput.PasteWaitsForSilence` | src/ai_hats/initial_input.py:76-92 | the payload goes out at a tick iff something was drawn, the quiet time has passed since the latest drawing and the cap is not reached |
| `InitialInput.WrittenIffSomeTickWasDue` | src/ai_hats/initial_input.py:57-92 | over every run with an ordered clock something has been written iff some tick came after a drawing, the quiet time past and the cap not reached |
| `InitialInput.EnterFollowsPaste` | src/ai_hats/initial_input.py:76-81 | the first tick after the paste writes Enter, whenever it comes |
| `InitialInput.TimeoutIsExact` | src/ai_hats/initial_input.py:63-92 | the time asked for is the least after which a tick changes anything; after the paste it is the Enter delay |
| `InitialInput.TwoTicksEnd` | src/ai_hats/initial_input.py:63-92 | after any run, with nothing more drawn, waiting as long as asked and ticking ends the wait in at most two ticks |
| `InitialInput.MissedMayHaveWritten` | src/ai_hats/initial_input.py:76-92 | by itself, a machine that reports the cap missed has written everything iff it was ticked late after finishing |
| `InitialInput.MissedMeansNotDelivered` | src/ai_hats/wrap_runner.py:1207-1220 | ticked only while pending, as its loop does, a machine that reports the cap missed has written nothing |
| `InitialInput.LateTickMisses` | src/ai_hats/initial_input.py:76-92 | ticked freely, it misses the cap after writing everything, for any settings and such times |
| `Closure.Close` | scripts/migrate_experimental.py:149-170 | ends on every composite map and picks exactly the names reached along trait edges with exactly their rules and skills; refuses iff that reaches something unknown, and names something unknown that is reached |
| `Closure.RunClosure` | scripts/migrate_experimental.py:149-170 | the same for the requested names, or for every composite when none is requested |
| `Closure.ReachedIsLeast` | scripts/migrate_experimental.py:149-170 | the reached names are the least set that holds the requested ones and is closed under trait edges |
| `SignedFold.SpellingResolves` | scripts/migrate_experimental.py:189-193 | whatever `spell` writes resolves back to the full name it stands for |
| `SignedFold.SpellsShortly` | scripts/migrate_experimental.py:189-193 | a term is written as it is when no other name is it or ends with it, else the full name is |
| `SignedFold.ResolvesExactly` | scripts/migrate_experimental.py:735-743 | a term that is no name is ambiguous iff two names end with it, a leaf iff none does, and else stands for the one that does |
| `SignedFold.UnfoldFlips` | scripts/migrate_experimental.py:761-775 | opening a composite under the other sign flips every sign, also through cycles |
| `SignedFold.TermsUnfoldInOrder` | scripts/migrate_experimental.py:764-775 | terms are opened one after the other |
| `SignedFold.LeafUnfolds` | scripts/migrate_experimental.py:765-775 | a term that is no name and that no name ends with stands for itself under its own sign |
| `SignedFold.Visit` | scripts/migrate_experimental.py:761-775 | the nested visitor over shared state is the fold of the sign-multiplied, cycle-cut unfolding, and stops iff that meets an ambiguous term |
| `SignedFold.LastSignWins` | scripts/migrate_experimental.py:763-775 | add-if-absent and remove-if-present keep a list without repetition that holds a term iff its last sign is positive |
| `SignedFold.LastSignIsLast` | scripts/migrate_experimental.py:763-775 | the last sign is that of the latest mention |
| `SignedFold.Brought` | scripts/migrate_experimental.py:757-777 | on any graph, cyclic ones included, the members brought are the base terms whose last occurrence is positive |
| `SignedFold.CarriedAway` | scripts/migrate_experimental.py:746-802 | exactly the members that some composite removes with a composite while another one it adds brings them; refuses iff some composite holds a term that is no name and that two names end with |
| `SignedFold.ClearUnfolds` | scripts/migrate_experimental.py:735-743 | without ambiguous terms no unfolding is refused |
| `Expressions.WrapExpr` | scripts/migrate_experimental.py:206-217 | the greedy wrapper produces the indented lines |
| `Expressions.Terms` | scripts/migrate_experimental.py:714-726 | the reader produces the signed terms of the words |
| `Expressions.WrappedReadsBack` | scripts/migrate_experimental.py:206-726 | reading a wrapped expression of plain terms gives those terms, all positive |
| `Expressions.WordIsTerm` | scripts/migrate_experimental.py:714-726 | wherever it stands, a word that is no sign is read as a term, negative iff right behind a minus |
| `Expressions.SignsAreNoTerms` | scripts/migrate_experimental.py:714-726 | nothing is read iff there are only signs |
| `Expressions.SignedReadsBack` | scripts/migrate_experimental.py:714-726 | plain terms, each behind its sign, are read back with their signs |
| `Expressions.LinesFit` | scripts/migrate_experimental.py:206-217 | each line of the text is two blanks and at most 78 characters or a single piece, and was begun because its first piece did not fit on the line before |
| `HookPump.Channel.PumpOut` | src/ai_hats/hook_exec.py:416-442 | one chunk goes to the sink in order, a failed echo leaves a note behind it, an empty read closes |
| `HookPump.Teed.PumpStdin` | src/ai_hats/hook_exec.py:396-413 | what fits is delivered, and a broken pipe forgives the rest |
| `HookPump.RunTeed` | src/ai_hats/hook_exec.py:334-394 | the loop takes wake-ups while anything is registered, stops at a time-out or when all is closed, and leaves what stepping through them leaves |
| `HookPump.SinksCarryStreams` | src/ai_hats/hook_exec.py:416-442 | at every moment of every schedule each sink holds a prefix of its stream in order, with exactly the notes of the echo faults of the served reads, each behind its chunk |
| `HookPump.StdinIsFed` | src/ai_hats/hook_exec.py:396-413 | at every moment stdin has received a prefix of the payload; the child has hung up iff a broken pipe was met while something was pending |
| `HookPump.StepMakesProgress` | src/ai_hats/hook_exec.py:396-442 | a wake-up whose key is registered moves between one byte and 65536 from its own stream, or closes it at its end, or delivers something; any other changes nothing |
| `HookPump.NormalReturnKeepsStreams` | src/ai_hats/hook_exec.py:371-394 | after a normal return each sink holds the whole stream plus one note per served echo fault |
| `HookPump.NormalReturnIsComplete` | src/ai_hats/hook_exec.py:371-394 | after a normal return the child received the whole payload iff it did not hang up |
| `HookPump.ServedAreBounded` | src/ai_hats/hook_exec.py:371-381 | every wake-up that serves a key makes the measure smaller, so at most as many do as there are bytes to move, plus one for each stream |
| `HookPump.ContentsAreData` | src/ai_hats/hook_exec.py:427-442 | without echo faults the file is the stream |
| `LogNames.Escape` | src/ai_hats/check_points.py:555-574 | the loop computes the escaped component, percent-encoded over UTF-8 |
| `LogNames.EscapedReadsBack` | src/ai_hats/check_points.py:555-574 | an escaped component decodes to itself |
| `LogNames.EscapedIsInjective` | src/ai_hats/check_points.py:555-574 | different components never escape alike |
| `LogNames.EscapedIsSafe` | src/ai_hats/check_points.py:551-574 | a token holds only letters, digits and `._-+%`, so never the joiner |
| `LogNames.EscapedInPlainTerms` | src/ai_hats/check_points.py:551-574 | wherever it stands, a letter, digit or `._-` is kept, a slash becomes a plus, and anything else its UTF-8 bytes in upper-case percent notation |
| `LogNames.NamespaceReadsBack` | src/ai_hats/libraries/models.py:712-714 | a namespaced skill without slashes can be read back from its path form |
| `LogNames.TokenTellsComponents` | src/ai_hats/check_points.py:577-590 | any two rows, with any number of path parts, share a token iff app, path, skill, script and digest tag are the same |
| `LogNames.TokenIsInjective` | src/ai_hats/check_points.py:246-250 | among the rows that resolution lets through, iff they are the same row up to the digest |
| `LogNames.NameTellsEventAndToken` | src/ai_hats/check_points.py:593-602 | any two firings share a log name iff the tokens are the same and so are the events, the empty event counting as `event` |
| `LogNames.NameIsInjective` | src/ai_hats/check_points.py:593-602 | so, among the rows that resolution lets through, iff event and row are the same |
| `LogNames.SlashlessRunsCollide` | src/ai_hats/libraries/models.py:82-90 | different rows share a token iff their runs differ by one slash behind a name without any and all else is the same |
| `Encoding.Utf8ReadsBack` | src/ai_hats/check_points.py:572-573 | the UTF-8 bytes of a character spell it, and the first tells how many there are |
| `Encoding.TextReadsBack` | src/ai_hats/initial_input.py:40-46 | an encoded text decodes to its characters whatever follows it |
| `Normalize.Normalize` | src/ai_hats/migration_v07.py:298-311 | the loop that strips lines and collapses blank runs |
| `Normalize.IsUserEdit` | src/ai_hats/migration_v07.py:276-295 | edited iff undecodable, without a baseline, or of another normal form |
| `Normalize.NormalizedIsCore` | src/ai_hats/migration_v07.py:298-311 | a normal form is the join of paragraph lines with one blank line per gap |
| `Normalize.NormalizedTwice` | src/ai_hats/migration_v07.py:298-311 | normalising is idempotent |
| `Normalize.SameNormalFormIffSameCore` | src/ai_hats/migration_v07.py:276-311 | two texts are told apart iff their cores differ |
| `Normalize.NoEditIsTidying` | src/ai_hats/migration_v07.py:276-311 | two texts have one normal form iff one is reached from the other by such changes and changes of the first line's indent |
| `DisableHooks.BasenameLocates` | src/ai_hats/migration_healer.py:731-758 | a command names a hook iff it is a path below one of the two old locations, with or without the project variable, and the name is its first part |
| `DisableHooks.DisableUserHooks` | src/ai_hats/migration_healer.py:761-875 | the pass reports each condemned entry in order and writes the filtered tree, iff some editable matcher holds a user's hook |
| `DisableHooks.CondemnedIsUserHook` | src/ai_hats/migration_healer.py:823-832 | an entry is condemned iff it is an object whose text command lies at an old location and names a hook that is not owned |
| `DisableHooks.MatcherInPlainTerms` | src/ai_hats/migration_healer.py:808-853 | a matcher that is tagged, no object or without a list of entries stays as it is; any other keeps exactly the entries that are no user's hooks and goes when there are none |
| `DisableHooks.SettingsInPlainTerms` | src/ai_hats/migration_healer.py:790-875 | the settings change iff some editable matcher of some event holds a user's hook; the hooks become what is left of the events, and the key goes when nothing is |
| `DisableHooks.ReportNamesHook` | src/ai_hats/migration_healer.py:832-846 | the report names the command and the same hook among the user's own, behind the same start |
| `DisableHooks.OnlyCondemnedGo` | src/ai_hats/migration_healer.py:803-856 | the entries of the written tree are the original ones without the condemned, in order |
| `DisableHooks.NothingElseIsLost` | src/ai_hats/migration_healer.py:803-856 | removed plus surviving entries are the original ones, and an entry survives iff it is not condemned |
| `DisableHooks.SecondPassIsIdle` | src/ai_hats/migration_healer.py:858-875 | a second pass removes nothing and leaves the tree alone |
| `DisableHooks.OtherSettingsStay` | src/ai_hats/migration_healer.py:858-875 | every setting other than the hooks keeps its value |
| `DisableHooks.EventsKeepTheirPlace` | src/ai_hats/migration_healer.py:803-856 | events keep key and order: each that is left is what the one at its place became, and exactly the emptied ones go |
| `DisableHooks.EventKeepsItsShape` | src/ai_hats/migration_healer.py:804-807 | an event that is no list is left as it is, and a list goes iff none of its matchers is left |
| `DisableHooks.MatchersKeepTheirPlace` | src/ai_hats/migration_healer.py:808-856 | matchers keep their order within their event: each that is left is what the one at its place became |
| `DisableHooks.SurvivorKeepsItsFields` | src/ai_hats/migration_healer.py:847-853 | a matcher that is left keeps every field in its place and, but for its own filtered entries, its value |
| `DisableHooks.ClosedOnesStay` | src/ai_hats/migration_healer.py:808-822 | tagged and malformed matchers survive untouched and in order |
| `DisableHooks.MatcherGoesWhenEmptied` | src/ai_hats/migration_healer.py:847-853 | a matcher goes iff none of its entries may stay |
| `Recovery.LazyLiveness.IsLive` | src/ai_hats/session_liveness.py:295-308 | the verdict under the one table read, and when it is read |
| `Recovery.VerdictIsExactly` | src/ai_hats/session_liveness.py:226-308 | any owner is judged live iff its pid answers and the table in use does not contradict it |
| `Recovery.FreshVerdictIsTrue` | src/ai_hats/session_liveness.py:226-308 | a complete table read now makes the verdict exact |
| `Recovery.ReapReason` | src/ai_hats/environment_recovery.py:123-144 | a reason is given iff the anchor is usable and every owner is judged dead, or there is no owner and the directory was touched before the cutoff |
| `Recovery.ExpireSessionDirs` | src/ai_hats/environment_recovery.py:95-120 | the sweep leaves the directories it must, in order, and counts the others |
| `Recovery.LiveSessionIn` | src/ai_hats/environment_recovery.py:251-274 | the two sweeps agree: a key has no session that must stay iff the session sweep making the same looks would leave none, else it names the first left |
| `Recovery.SweepOrphanProjectKeys` | src/ai_hats/environment_recovery.py:188-234 | which keys are taken, while the one table is carried from key to key |
| `Recovery.KeysTakenAt` | src/ai_hats/environment_recovery.py:216-234 | a key is taken iff it is foreign, a directory, aged, without worktrees, and the session sweep would leave nothing in it under the table carried to it |
| `Recovery.KeyIsTakenExactly` | src/ai_hats/environment_recovery.py:206-234 | the same look by look: a key is taken iff it is foreign, a directory, aged, without worktrees, and no look at a session in it keeps that session |
| `Recovery.RunningSessionIsTakenOnlyRecycled` | src/ai_hats/environment_recovery.py:95-144 | over every history, no directory with an unusable anchor is taken, and one with a running owner only if its pid was freed and taken again after an earlier look |
| `Recovery.OwnedSessionIsTakenExactly` | src/ai_hats/environment_recovery.py:123-144 | a directory that names owners is taken iff the table in use is outdated for each of them whose pid answers |
| `Recovery.OwnerlessIsTakenWhenAged` | src/ai_hats/environment_recovery.py:123-144 | a directory that names no owner is taken iff it was touched before the cutoff, whatever table is in use |
| `Recovery.RunningSessionIsTakenExactly` | src/ai_hats/environment_recovery.py:123-144 | so one whose owners all run is taken iff the table in use is outdated for every one |
| `Recovery.RunningSessionIsTakenOnlyAfterReuse` | src/ai_hats/environment_recovery.py:95-144 | so while no pid is freed nothing with a running owner is taken |
| `Recovery.RecycledPidLosesRunningSession` | src/ai_hats/session_liveness.py:299-308 | a history in which a running session is lost |
| `Recovery.TakenKeyHeldNothingRunning` | src/ai_hats/environment_recovery.py:206-273 | a key that is taken is foreign, aged and holds no worktrees, and each of its sessions was usable, aged if it named no owner, and had no running owner of that kind when looked at |

## Left out

- Ownership.Registry.HeldBy: the answer is a set and not a sorted list; with the single slot it holds at most one task, so there is nothing to sort.
- Composer.ResolveTraits: leaves out the injections and bindings gathered on the same walk.
- Closure.Close: which of several unknown names a refusal carries is not stated.
- SignedFold.CarriedAway: the members are a set, because the order of discovery follows the order of files on disk.
- Composer.Compose: leaves out injections, checks and consent points; refused removals come in any order, because the original walks a set. The wording of messages is left out everywhere.
- Injections, checks and integration bindings gathered by `compose`, and `resolve_checks` with its merge of the stricter row.
- `FdPtyTap`: two commands decoded from one chunk share one carriage return unless wakes are handled one by one.
- `_tail` and the verdict classification of a hook run, which only compute.
- `consent_wrapper.py`, `_markdown.py`, `collect_hooks`, the generators and the linters, whose results are mostly branches.
- The rewriting of legacy paths in `heal_external_refs`, which rests on a table of paths.
- Malformed registry files, which load as empty, and a time-out while waiting for the lock.
- Removal, reading and writing of files that fail: the sweeps and the settings pass assume they succeed.
- YAML, JSON and process-table text: the model starts from parsed trees, lists and rows, with start times already normalised.
- A session directory whose processes change between the verdict and its removal: a look is one instant.
- LogNames.TokenIsInjective: speaks of the digest tag, not of what was digested, because eight hexadecimal digits may collide.
- LogNames.NameIsInjective: characters are Unicode characters, so unpaired surrogates, which the original cannot encode, are not modelled.
- Normalize.NoEditIsTidying: lines are joined by newlines; other line endings are covered by the equality of normal forms only.
- HookPump.RunTeed: the payload, the child's streams and the schedule are given, and one wake-up brings one key; that a normal return eventually comes rests on the child closing its streams.
