# Verified models of GoPOSIX

GoPOSIX implements POSIX utilities and a JSON-RPC daemon in Go. This project models the parts of it whose
correctness rests on an algorithm or a protocol, and proves what those parts promise. The command
`dafny verify dfyconfig.toml` checks the whole project.

| files | what they model |
|---|---|
| `EditScript`, `Myers`, `Diff`, `GenerateDiff`, `Hunks` | the difference algorithm of diff, its normalisation and its hunks |
| `Patch`, `PatchPlaces`, `DiffPatch`, `PatchRun`, `PatchReverse` | applying and reversing hunks, where they go, diff and patch together, whole patches forwards and backwards |
| `NumberTheory`, `RhoWalk`, `Factor` | factor: modular arithmetic on 64-bit words, Miller-Rabin, Pollard's rho |
| `Sed`, `SedBranches`, `SedAddress` | sed: compiling nested blocks, labels and branches into a flat program, and address ranges |
| `JsonRpc`, `WorkerPool`, `RateLimiter` | the daemon: which requests are answered, batches on a bounded pool, the token bucket |
| `Tsort` | building the graph and Kahn's loop |
| `Crc`, `Xmodem` | rx: the table-driven CRC and the XMODEM receiver against a lossy line |
| `Uucode` | the traditional encoding of uuencode and uudecode |
| `Tabs`, `TabLines`, `TabColumns` | expand and unexpand on bytes, characters and columns |
| `Options`, `Sequences` | shared: missing values, reversing a list in place |
| `Decimal`, `SquareRoot`, `Digits`, `DcText`, `BcText` | decimal arithmetic, and the number texts of dc and bc |
| `DcValues`, `DcLexer`, `DcSemantics`, `DcCommands`, `DcRuns`, `DcMachine` | the dc interpreter: values, lexing, meaning, single commands, invariants of runs, the machine in place |

Code that updates state in place is modelled by methods and classes that update state in place, each proved against
a specification function; what the code promises is proved about that function. Rational numbers (`big.Rat`) are
Dafny `real`s; `int` and `uint64` wrap where the code's do.

## Where the code does not keep a promise

Each of these names a lemma that shows the failure and one that says when the promise is kept.

- patch takes a fresh hunk for already applied when its result stands near its place:
  `DiffPatch.FreshDeletionRefused`. A hunk is accepted on its own file exactly when that is not the case:
  `DiffPatch.OwnHunkAccepted`.
- A hunk that was applied before is not always recognised and can go in a second time: `PatchPlaces.ElevenBelowIsRepeated`,
  `PatchPlaces.AboveIsRepeated`, `PatchPlaces.EmptyContextHidesResult`. `PatchPlaces.RecognisedWhen` says exactly when it
  is, and `PatchPlaces.AppliedTwice` that this covers every hunk put at its anchor or up to ten lines below.
- Hunks that expect no lines always go to the top of the file: `DiffPatch.AppendedLineGoesToTop`. That is right exactly
  when their lines commute with those above: `DiffPatch.InsertionIsRightWhen`.
- The search of patch does not carry the offset of one hunk over to the next: `PatchRun.OffsetIsNotCarried`. A run
  follows the script exactly when every hunk, in the file that the hunks before it leave, goes to its place or to one
  that makes no difference: `PatchRun.PatchFollowsScriptWhen`. Hunks that keep the number of lines give the new file
  exactly when none is taken for applied: `PatchRun.EvenHunksRebuildWhen`. `DiffPatch.HunksRebuildNewFile` covers
  application from last to first.
- tsort identifies an edge by its two words joined with an arrow, so words that contain an arrow can hide an edge and
  with it a cycle: `Tsort.ArrowsHideCycle`. `Tsort.AllPairsRecorded` says exactly when none is hidden.
- XMODEM padding cannot be told from data, and an ACK garbled out of a refusal can hide that the last block never
  arrived: `Xmodem.PaddingByteIsLost`, `Xmodem.ForgedAckLosesBlock`. `Xmodem.TransferDelivers` says exactly which runs
  deliver which files.
- Digit counts in dc are 64-bit integers and can wrap, after which ~ can lose digits: `DcValues.CountsCanWrap`,
  `DcValues.WrappedDivisorLoses`. `DcValues.ExactWhenDigitsSuffice` says exactly for which counts it cannot.
- The dc square root can be too small for operands with many digits: `SquareRoot.RootTooSmall`.
  `DcValues.RootsAreGreatestWhen` says exactly for which digit counts it cannot.
- A failed dc comparison puts a number back without its digit count, and ? lets a run go on after that:
  `DcRuns.ComparisonLosesCount`, `DcRuns.InputLineLosesCount`. `DcRuns.StepKeepsTruthWhen` and
  `DcRuns.TestKeepsTruthWhen` say exactly which commands lose a count, and `DcRuns.RunKeepsTruth` covers all runs in which ? passes over no error.
- A hunk header with a negative count can make patch panic: `Patch.NegativeCountPanics`. `Patch.ApplyHunk` says exactly
  when it does.
- A connection rate below one per second gives a burst of 0 (internal/daemon/server.go:321), which refuses everything:
  `RateLimiter.NoBurstNoCalls`. `RateLimiter.SteadyStreamPasses` is the promise for a burst of at least 1.

In the sweep of diff, the recorded column can exceed the length of the first file by up to the number of rounds; the
reference grid of `Myers` therefore continues past both files. In `BuildHunks` the variables that count lines while
scanning are never read and are not modelled.

## Model

| member | source | states |
|---|---|---|
| `Diff.Diff` | pkg/diff/diff.go:144-239 | For all files the script keeps the first file as its Eq and Del lines and the second as its Eq and Ins lines, and no edit script between the two has fewer changes. |
| `Myers.FurthestIsBound` | pkg/diff/diff.go:158-184 | No path of d edits gets further along a diagonal than what round d records. |
| `Myers.FurthestIsReached` | pkg/diff/diff.go:158-184 | What round d records for a diagonal is the end of a path of exactly d edits; the grid continues past both files. |
| `Myers.Clamp` | pkg/diff/diff.go:158-184 | A path that leaves the grid spends one edit on every step outside it, so leaving never pays. |
| `Myers.FirstHitIsCorner` | pkg/diff/diff.go:174-179 | The first point that satisfies the stop test is (n, m) itself, although the test also accepts points outside the grid. |
| `Myers.RoundsAreMinimal` | pkg/diff/diff.go:158-184 | Every edit script between the files costs at least as many edits as the sweep takes rounds. |
| `Diff.Slide` | pkg/diff/diff.go:168-171 | The inner loop stops where the run of matching lines ends. |
| `Diff.Enter` | pkg/diff/diff.go:161-165 | The in-place row still holds the entries of the round before where round d reads them. |
| `Diff.Round` | pkg/diff/diff.go:159-183 | One round either stops exactly at the corner or leaves a correct row and no hit so far; all accesses are in bounds. |
| `Diff.Sweep` | pkg/diff/diff.go:147-184 | The forward loop always stops, within n + m rounds, at (n, m), and the saved rows are correct. |
| `Diff.Predecessor` | pkg/diff/diff.go:196-207 | Each step back finds the diagonal and the point of the round before from which the forward sweep came. |
| `Diff.StepBack` | pkg/diff/diff.go:190-223 | Going back one round adds one edit and the matching lines before it to what the script covers. |
| `Diff.Backtrack` | pkg/diff/diff.go:186-231 | The reversed script covers both files and has one edit per round. |
| `Sequences.Reverse` | pkg/diff/diff.go:233-236 | Swapping from both ends reverses the list. |
| `GenerateDiff.FixUp` | pkg/diff/diff.go:395-411 | Putting the original lines back keeps every operation; the old side is then the first file exactly, the new side the second up to what is ignored. |
| `GenerateDiff.GenerateScript` | pkg/diff/diff.go:362-434 | A difference is reported exactly when the compared lines differ, and the script describes the original files. |
| `Hunks.FindEnd` | pkg/diff/diff.go:270-308 | A hunk ends at its last change plus context, and the next change is more than twice the context away. |
| `Hunks.MakeHunk` | pkg/diff/diff.go:310-348 | Start lines and counts are those of the script before and inside the hunk. |
| `Hunks.BuildHunks` | pkg/diff/diff.go:242-359 | The hunks are consecutive spans of the script that start and end as the context size says and leave out no change. |
| `Hunks.NeighboursShareHunk` | pkg/diff/diff.go:270-308 | Two neighbouring changes go into one hunk exactly when at most twice the context separates them. |
| `Hunks.ContextIsExact` | pkg/diff/diff.go:264-308 | Before its first and after its last change a hunk shows as many unchanged lines as the context asks for, or all there are, and no other change. |
| `DiffPatch.SpansAreDisjoint` | pkg/diff/diff.go:242-359 | Hunks come in order, never touch, and no change falls between two of them. |
| `DiffPatch.ChangesAreCovered` | pkg/diff/diff.go:242-359 | Every change of the script lies in some hunk. |
| `DiffPatch.StartsDifferByGrowth` | pkg/diff/diff.go:310-348 | The two start lines of a hunk differ by the net growth of the hunks before it. |
| `DiffPatch.HunksRebuildNewFile` | pkg/patch/patch.go:325-353 | For every script and context size, applying the hunks last to first at OldStart-1 turns the old file into the new one. |
| `DiffPatch.GenerateDiff` | pkg/diff/diff.go:361-442 | Patching the first file backwards with the generated hunks gives the second, up to what -b and -w ignore, and exactly without them. |
| `Patch.ApplyAt` | pkg/patch/patch.go:325-353 | The result is the file with the lines at pos replaced by the hunk's new part, for positions past the end as well. |
| `Patch.VerifyHunk` | pkg/patch/patch.go:290-322 | Verification succeeds exactly when every expected line inside the file is there; past the end deletions pass and context must be empty. |
| `Patch.VerifiesIsEquality` | pkg/patch/patch.go:290-322 | Inside the file, verification is equality of the expected part with the lines present. |
| `Patch.ReverseHunk` | pkg/patch/patch.go:217-236 | The reversed hunk swaps the counts, the starts and the signs. |
| `Patch.ReversedSwaps` | pkg/patch/patch.go:217-236 | Reversing exchanges what a hunk expects with what it puts in place. |
| `Patch.ReversedTwice` | pkg/patch/patch.go:217-236 | Reversing twice gives the hunk back. |
| `Patch.ReverseRestores` | pkg/patch/patch.go:217-236 | A verified hunk, applied and then reversed, verifies again at the same place and restores the file exactly. |
| `Patch.AlreadyApplied` | pkg/patch/patch.go:356-395 | The scan finds the hunk's result exactly when it is somewhere in the window it looks at. |
| `Patch.Search` | pkg/patch/patch.go:253-279 | The offset loop returns the first fitting position in its own order, or none fits. |
| `Patch.ApplyHunk` | pkg/patch/patch.go:239-287 | All outcomes, for every header: hunks that expect no lines go to the top, hunks found applied are refused or skipped, others go to the first fitting position, are refused when none fits, and panic exactly when a negative count leads before the start of the file. |
| `Patch.NegativeCountPanics` | pkg/patch/patch.go:347-350 | A header with a negative count of old lines that panics. |
| `Patch.CountedNeverPanics` | pkg/patch/patch.go:347-350 | Headers whose counts are not negative never do. |
| `PatchPlaces.AppliedTwice` | pkg/patch/patch.go:245-251 | A hunk of marked lines that was put at its anchor or up to ten lines below is recognised: a second application leaves the file alone and succeeds exactly when applied hunks are to be ignored. |
| `PatchPlaces.RecognisedWhen` | pkg/patch/patch.go:356-395 | A hunk of marked lines is taken for applied if and only if what it puts in place stands at its anchor or up to ten lines below. |
| `PatchPlaces.ElevenBelowIsRepeated` | pkg/patch/patch.go:376-379 | The limit is exact: put eleven lines below its anchor, a hunk goes in a second time. |
| `PatchPlaces.AboveIsRepeated` | pkg/patch/patch.go:372-375 | So does one that was put above its anchor. |
| `PatchPlaces.EmptyContextHidesResult` | pkg/patch/patch.go:358-365 | The counterexample for unmarked lines: with an empty context line in it, an applied hunk is refused even where applied hunks are to be ignored. |
| `PatchPlaces.NearestPlaceWins` | pkg/patch/patch.go:253-279 | Wherever the file holds what the hunk expects, within its own length of the anchor, the hunk goes in there or nearer, and of two places equally near in the upper one. |
| `PatchPlaces.PastEndVerifies` | pkg/patch/patch.go:290-322 | Behind the end of the file a hunk fits exactly when its context lines are empty; deletions are not looked at. |
| `DiffPatch.OwnHunkFits` | pkg/patch/patch.go:290-353 | A hunk cut from a script has matching counts, verifies at its own start line and replaces exactly its own items there. |
| `DiffPatch.OwnHunkIsFirstChoice` | pkg/patch/patch.go:239-287 | On the file it was made from, the search never prefers another position to a hunk's own. |
| `DiffPatch.OwnHunkAccepted` | pkg/patch/patch.go:239-287 | On the file it was made from, a hunk is accepted exactly when its result is not found near its place, and then replaces exactly its own items. |
| `DiffPatch.FreshDeletionRefused` | pkg/patch/patch.go:239-287 | The counterexample: a fresh hunk that deletes a line before its context is taken for already applied. |
| `DiffPatch.AppendedLineGoesToTop` | pkg/patch/patch.go:240-243 | The counterexample for hunks that expect no lines: a line appended below another is put above it. |
| `DiffPatch.InsertionIsRightWhen` | pkg/patch/patch.go:240-243 | Such a hunk is always accepted, and does what it stands for exactly when its lines commute with the lines above it. |
| `PatchRun.ApplyAll` | pkg/patch/patch.go:100-131 | The loop over the hunks passes the file on from one accepted hunk to the next and stops at the first refusal or panic. |
| `PatchRun.OffsetIsNotCarried` | pkg/patch/patch.go:100-131 | The counterexample for two hunks: the second lands on an equal line because the offset of the first is forgotten, and success is reported. |
| `PatchRun.ShiftedHunkFits` | pkg/patch/patch.go:290-353 | In the file that the hunks before it leave, a hunk verifies at its new start line, and applying it there carries the script on to its end. |
| `PatchRun.SplicesAgree` | pkg/patch/patch.go:325-353 | Applying a hunk at one place does the same as at another exactly when its new lines commute with what lies between. |
| `PatchRun.HunkIsRightWhen` | pkg/patch/patch.go:239-287 | In its turn, a hunk carries the script on exactly when it is not taken for applied and the place it goes to, the top or its first fit, is its new start line or makes no difference. |
| `PatchRun.PatchFollowsScriptWhen` | pkg/patch/patch.go:100-131 | The run follows the script hunk by hunk exactly when every hunk is right in its turn, and then it gives the new file. |
| `PatchRun.EvenHunksRebuildWhen` | pkg/patch/patch.go:100-131 | When every hunk replaces lines by as many, the run gives the new file exactly when no hunk is taken for applied in its turn. |
| `PatchReverse.FlippedHunk` | pkg/patch/patch.go:217-236 | Reversing a hunk gives the hunk of the script with deletions and insertions exchanged. |
| `PatchReverse.ReversedHunksRestoreOldFile` | pkg/patch/patch.go:217-236 | The reversed hunks of a whole patch, applied last to first, turn the new file back into the old one. |
| `PatchReverse.ReverseRunRestoresWhen` | pkg/patch/patch.go:100-131 | patch -R follows the script back exactly when every reversed hunk is right in its turn, and then restores the old file. |
| `Factor.HighWordFits` | pkg/factor/factor.go:98-102 | The 128-by-64 division is defined as soon as one factor is below the modulus. |
| `Factor.MulMod64` | pkg/factor/factor.go:98-102 | The two-word product and division give the exact product modulo m. |
| `Factor.PowMod` | pkg/factor/factor.go:105-116 | Square-and-multiply computes the power modulo m, every multiplication in range; modulus 1 with exponent 0 gives 1. |
| `Factor.SplitTwos` | pkg/factor/factor.go:130-136 | The loop writes n - 1 as an odd number times a power of two. |
| `Factor.TestBase` | pkg/factor/factor.go:145-159 | The squaring loop decides the strong test to one base. |
| `Factor.MillerRabin` | pkg/factor/factor.go:119-162 | Exactly the numbers passing the strong test to every base below them are accepted, and every prime is. |
| `Factor.PrimesPass` | pkg/factor/factor.go:119-162 | Every prime passes, proved from Fermat's little theorem and the square roots of one. |
| `Factor.DivisorIsWitness` | pkg/factor/factor.go:138-159 | A divisor of n is never a strong liar of n. |
| `Factor.ExactBelow41Squared` | pkg/factor/factor.go:119-162 | Below 1681 the test accepts exactly the primes. |
| `Factor.GcdLoop` | pkg/factor/factor.go:164-169 | The result divides both numbers and every common divisor divides it. |
| `Factor.PollardRho` | pkg/factor/factor.go:172-205 | Even numbers and multiples of 3 give 2 and 3. For all others the search ends within a number of turns if and only if, of the constants 1, 2, 3, ..., each up to some c first shares n itself and c + 1 first shares a divisor below n, in that many turns together; it returns that divisor. So on a prime it never returns. |
| `Factor.MeetWalkers` | pkg/factor/factor.go:180-198 | The inner loop ends on the first turn whose gap between the two walkers shares a divisor with n, with that divisor. |
| `Factor.TryConstants` | pkg/factor/factor.go:180-204 | The outer loop wastes exactly the constants whose first shared divisor is n. |
| `Factor.RhoIsStep` | pkg/factor/factor.go:185-187 | Each step of the code, with its constant wrapped to 64 bits, is a step of the recurrence. |
| `Factor.RhoIsQuadratic` | pkg/factor/factor.go:185-187 | A step is x * x + c modulo n as long as the sum fits in 64 bits. |
| `RhoWalk.ValueIsQuadratic` | pkg/factor/factor.go:185-187 | As long as n + c fits in 64 bits the whole walk is that of the quadratic map. |
| `RhoWalk.NoHitWithin` | pkg/factor/factor.go:180-204 | A search that ran out of turns has missed nothing: every schedule that meets a divisor needs more turns. |
| `RhoWalk.HitOnce` | pkg/factor/factor.go:180-204 | At most one constant and turn can end a search. |
| `RhoWalk.TwentyFive` | pkg/factor/factor.go:180-204 | For 25 the constant 1 is wasted after three turns and 2 meets the divisor 5 on its second. |
| `Factor.Factorize` | pkg/factor/factor.go:208-219 | The list grows by numbers accepted by the primality test whose product is n; if the search gives up, what was listed still divides n and the rest is known. |
| `Factor.PrimeDivisorIsListed` | pkg/factor/factor.go:208-219 | Every prime divisor of n divides a listed factor. |
| `Sed.FlattenInto` | pkg/sed/engine.go:519-532 | The recursive pass appends the flat form of the blocks and fills in each brace's target afterwards. |
| `Sed.FindLabels` | pkg/sed/engine.go:535-540 | The label table holds the last position of each label. |
| `Sed.ResolveJumps` | pkg/sed/engine.go:542-554 | Resolution succeeds exactly when no branch dangles, and stops at a label that is missing. |
| `Sed.CompileAst` | pkg/sed/engine.go:516-557 | Every target of a compiled program is within it and is right: a branch lands on its label or on the end, a brace on its matching brace. |
| `Sed.BracesMatch` | pkg/sed/engine.go:519-532 | Each opening brace targets the closing brace that balances it. |
| `Sed.ExecFlat` | pkg/sed/engine.go:314-493 | The loop over the instruction position performs the flat semantics, whose turns `SedBranches.BranchGoesOn` and `SedBranches.OthersGoOn` describe one by one. |
| `SedBranches.BranchGoesOn` | pkg/sed/engine.go:471-484 | In every program a selected b goes on at its target; t does so exactly when a substitution was made and T exactly when none was, otherwise the run goes on at the next position; t and T clear the flag either way. |
| `SedBranches.BranchTarget` | pkg/sed/engine.go:535-554 | In a compiled program the target of a branch is the last place of its label, or the end without one. |
| `SedBranches.OthersGoOn` | pkg/sed/engine.go:314-330 | Commands hand on their state or halt the run, a brace that is not selected jumps behind its closing brace, and everything else falls through. |
| `SedBranches.BranchMeans` | pkg/sed/engine.go:471-484 | The same of the nested script: a branch without a label that is taken ends it, one not taken goes on behind it with the flag cleared. |
| `SedBranches.LabelledBranchMeans` | pkg/sed/engine.go:471-484 | A branch that is taken enters the script at its label. |
| `Sed.BlockSimulated` | pkg/sed/engine.go:314-323 | The flat form of a block, wherever it is placed, simulates the block for any stateful address test. |
| `Sed.CompiledMeansBlocks` | pkg/sed/engine.go:516-557 | Without branches, running the flat program gives the final state and outcome of the nested blocks, for every script, state and address test. |
| `SedBranches.WalkFollows` | pkg/sed/engine.go:314-323 | From the start of any block, the flat run does exactly what the block does, up to where it falls through, stops or branches, in a known number of turns. |
| `SedBranches.EnterFollows` | pkg/sed/engine.go:535-554 | From the position of a label, the flat run does what entering the nested blocks at that label does, leaving each enclosing block in turn. |
| `SedBranches.CompiledMeansScript` | pkg/sed/engine.go:516-557 | For every script that compiles, b, t and T included, and any address test: the flat program ends exactly when the nested blocks with labels do, with the same state and for the same reason. |
| `SedBranches.WalkIsExec` | pkg/sed/engine.go:314-323 | Without branches the meaning with labels is the meaning of the blocks alone. |
| `Sed.MoreFuel` | pkg/sed/engine.go:314-323 | A flat run that ends does so independently of the step bound. |
| `SedAddress.Engine.ShouldRun` | pkg/sed/engine.go:259-312 | A test answers by the address rules and touches only its own command's range memory. |
| `SedAddress.Engine.constructor` | pkg/sed/engine.go:259-312 | No command remembers a range at the start. |
| `SedAddress.RangeSelects` | pkg/sed/engine.go:259-312 | Over any ascending sequence of lines it is asked about, a line range selects the first line at or after its start and every line whose predecessor was before its end, and never opens again. |
| `SedAddress.RangeOnEveryLine` | pkg/sed/engine.go:259-312 | Asked on every line, n,m selects exactly the lines from n to the larger of both. |
| `SedAddress.PatternRangeSelects` | pkg/sed/engine.go:259-312 | Between two expressions a range selects the lines from each match of the first up to the next match of the second, which may be the same line. |
| `SedAddress.LineToPatternSelects` | pkg/sed/engine.go:259-312 | From a line number to an expression it selects the first line at or after the number and everything up to the next match, once. |
| `SedAddress.PatternToLineSelects` | pkg/sed/engine.go:259-312 | From an expression to a line number it selects every match, and up to that line everything after one. |
| `SedAddress.StepRangeSelects` | pkg/sed/engine.go:259-312 | From an expression over +N lines it selects each match that finds no range open and N lines more; matches in between do not extend it. |
| `SedAddress.SingleAddressSelects` | pkg/sed/engine.go:259-312 | One address selects its line, the last line or the lines it matches, and none selects every line. |
| `JsonRpc.ProcessRequest` | internal/daemon/server.go:458-786 | Although responses without an id could be built, every branch answers exactly when the request has an id, and with that id (sections 4.1 and 6 of the JSON-RPC 2.0 Specification). |
| `JsonRpc.ErrorCodes` | internal/daemon/server.go:458-786 | For every request with an id: exactly when each of the four error codes is answered, that no other is, and what is answered otherwise. |
| `WorkerPool.StepInv` | internal/daemon/server.go:370-408 | Every step of every interleaving keeps the invariant that ties slots, the wait group and stored results together. |
| `WorkerPool.ProducedAnswers` | internal/daemon/server.go:376-382 | Whatever processing a request yields is an answer with its id, or none for a notification. |
| `WorkerPool.BoundedConcurrency` | internal/daemon/server.go:92-110 | At no point of any run are more than size jobs running. |
| `WorkerPool.Progress` | internal/daemon/server.go:97-110 | With a worker, some step is enabled until every batch has replied: no deadlock. |
| `WorkerPool.RunsAreFinite` | internal/daemon/server.go:370-408 | No run is longer than the work it starts with. |
| `WorkerPool.ReplyIsComplete` | internal/daemon/server.go:370-408 | A reply holds the responses to the requests with an id, once each and in request order, each stored by its own job; a batch of notifications sends nothing. |
| `WorkerPool.ResultWasProduced` | internal/daemon/server.go:376-396 | A stored result was stored by a step of its own job. |
| `WorkerPool.FinishedStays` | internal/daemon/server.go:376-396 | A stored result never changes. |
| `WorkerPool.CompleteRunsReply` | internal/daemon/server.go:370-408 | When no step is left, every batch has replied. |
| `WorkerPool.NoWorkersNoReply` | internal/daemon/server.go:92-110 | A pool of size 0, which the daemon command never makes, would never answer a batch with a request. |
| `RateLimiter.RateLimiter.Allow` | internal/daemon/ratelimit.go:28-47 | The state after a call is the refilled, capped and charged bucket. |
| `RateLimiter.RateLimiter.constructor` | internal/daemon/ratelimit.go:18-26 | A limiter starts with a full bucket. |
| `RateLimiter.TokensStayInRange` | internal/daemon/ratelimit.go:28-47 | Over every trace at non-decreasing times, tokens stay between 0 and burst. |
| `RateLimiter.AllowedIsPaidFor` | internal/daemon/ratelimit.go:28-47 | Every allowed call was paid from the initial tokens or from what flowed in since. |
| `RateLimiter.EveryWindowBound` | internal/daemon/ratelimit.go:28-47 | In any window of any trace at most burst + rate * length calls are allowed. |
| `RateLimiter.SteadyStreamPasses` | internal/daemon/ratelimit.go:28-47 | With burst at least 1, a stream no faster than the rate is never refused. |
| `RateLimiter.NoBurstNoCalls` | internal/daemon/ratelimit.go:28-47 | With burst below 1 nothing is ever allowed. |
| `RateLimiter.BurstPasses` | internal/daemon/ratelimit.go:28-47 | Of any number of calls at one instant, a full bucket allows exactly the burst. |
| `RateLimiter.EmptyBucketRefills` | internal/daemon/ratelimit.go:28-47 | After the bucket ran empty, a call passes exactly when the rate has brought a whole token since. |
| `Tsort.BuildGraph` | pkg/tsort/tsort.go:62-92 | The tables describe one graph: its nodes are the words, in-degrees count its edges, and its edges are the pairs whose key did not occur before. |
| `Tsort.AllPairsRecorded` | pkg/tsort/tsort.go:86-91 | Every input pair becomes an edge exactly when no two different pairs share a key. |
| `Tsort.KeysDiffer` | pkg/tsort/tsort.go:86-91 | Keys cannot collide unless a first word contains an arrow. |
| `Tsort.NoArrowsNoLoss` | pkg/tsort/tsort.go:86-91 | Without an arrow in the first word of a pair, every pair becomes an edge. |
| `Tsort.ArrowsHideCycle` | pkg/tsort/tsort.go:86-91 | The counterexample: three pairs that contradict each other, of which one is hidden by its key, so that an order is reported. |
| `Tsort.Sources` | pkg/tsort/tsort.go:94-100 | The first queue is the nodes without predecessors, each once. |
| `Tsort.Visit` | pkg/tsort/tsort.go:106-114 | Popping a node keeps the invariant that an in-degree counts the predecessors not popped yet. |
| `Tsort.Kahn` | pkg/tsort/tsort.go:94-115 | Each node is output at most once, none before a predecessor, and every node left out waits for another left out. |
| `Tsort.LeftOverCycle` | pkg/tsort/tsort.go:117-118 | The nodes left out contain a cycle. |
| `Tsort.CompleteIffAcyclic` | pkg/tsort/tsort.go:117-118 | All nodes are output exactly when the graph without self-loops has no cycle. |
| `Tsort.Tsort` | pkg/tsort/tsort.go:55-135 | Odd input fails; otherwise the output is a topological order of part of the words with respect to the recorded pairs, all words exactly when these have no cycle; the recorded pairs are all pairs unless a first word contains an arrow. With a cycle, every word left out has a recorded predecessor that is left out too. |
| `Crc.ShiftsLinear` | pkg/rx/rx.go:37-51 | Shifting the register is linear in exclusive or, for any number of shifts. |
| `Crc.TableStep` | pkg/rx/rx.go:53-59 | One table look-up does the work of feeding eight bits. |
| `Crc.InitCrc` | pkg/rx/rx.go:39-51 | Every table entry is its index shifted eight times through the polynomial 0x1021. |
| `Crc.Crc16` | pkg/rx/rx.go:53-59 | On all data the table-driven loop computes the bit-serial CRC with initial value 0. |
| `Crc.CrcFromInjective` | pkg/rx/rx.go:53-59 | Different registers stay different, whatever follows. |
| `Crc.DetectsTwoBytes` | pkg/rx/rx.go:53-59 | Damage confined to two neighbouring bytes changes the CRC of any block. |
| `Crc.ChecksumIsLinear` | pkg/rx/rx.go:53-59 | The checksum of the exclusive or of two messages of equal length is the exclusive or of their checksums. |
| `Crc.ZerosHaveNone` | pkg/rx/rx.go:53-59 | Any number of zero bytes has checksum 0. |
| `Crc.LeadingZerosUnseen` | pkg/rx/rx.go:53-59 | Zero bytes in front of a message change nothing. |
| `Crc.ResidueIsZero` | pkg/rx/rx.go:53-59 | A message and two bytes after it have checksum 0 together if and only if the two bytes are its checksum, high byte first. |
| `Crc.LastBitIsPolynomial` | pkg/rx/rx.go:37-59 | The last bit of a message alone leaves 0x1021. |
| `Xmodem.Receiver.constructor` | pkg/rx/rx.go:61-65 | A receiver starts before the handshake with block 1 expected and nothing received. |
| `Xmodem.Receiver.Handle` | pkg/rx/rx.go:66-136 | One turn of the loop answers and moves as the receiver's transition relation says. |
| `Xmodem.StaysInStep` | pkg/rx/rx.go:66-136 | Every exchange, with payload damage caught by the CRC and replies lost or garbled into an ACK, keeps sender and receiver at most one block apart although block numbers wrap at 256. |
| `Xmodem.BufferIsPrefix` | pkg/rx/rx.go:66-136 | At every point of every run, forged replies included, the buffer is a run of whole blocks from the start of the file. |
| `Xmodem.EotCompletes` | pkg/rx/rx.go:66-149 | For every run, forged replies included, that leaves the sender through and the receiver listening: the EOT finds the whole file if and only if there is no block or the last one was sent undamaged at least once, and then all blocks without trailing 0x1A are written. |
| `Xmodem.EotFinds` | pkg/rx/rx.go:66-149 | In any case it finds every block or all but the last. |
| `Xmodem.HonestRepliesComplete` | pkg/rx/rx.go:66-149 | Without forged replies the last block was always sent undamaged. |
| `Xmodem.ForgedAckLosesBlock` | pkg/rx/rx.go:66-149 | The counterexample: the only copy of a block is damaged, its refusal is garbled into an ACK, and the file ends up empty. |
| `Xmodem.TransferDelivers` | pkg/rx/rx.go:61-149 | End to end, for every run: the file that was sent is written if and only if it is empty, or its last block went out undamaged and it does not end in 0x1A. |
| `Xmodem.PaddingByteIsLost` | pkg/rx/rx.go:138-148 | The counterexample: a file of one 0x1A byte, sent without any fault, arrives empty. |
| `Xmodem.GoodRoundAdvances` | pkg/rx/rx.go:77-136 | A round without damage or loss gets the sender to the next block. |
| `Xmodem.RepliesInRuns` | pkg/rx/rx.go:66-136 | At every point of every run without forged replies: an undamaged block that is due is answered with 0x06 and kept, a damaged one with 0x15 and not kept, a repeated one with 0x06 and not kept twice. |
| `Xmodem.ControlBytes` | pkg/rx/rx.go:66-136 | EOT ends the transfer and is answered with 0x06; CAN ends it without an answer. |
| `Xmodem.SilenceGivesUp` | pkg/rx/rx.go:66-90 | A silent line is asked again with 0x43 after each of nine attempts and given up after the tenth. |
| `Xmodem.StripPadding` | pkg/rx/rx.go:138-148 | The loop removes exactly the trailing 0x1A bytes. |
| `Xmodem.TransferIsFaithful` | pkg/rx/rx.go:138-148 | A padded file is restored exactly when it is empty or does not itself end in 0x1A. |
| `Uucode.EncRange` | pkg/uuencode/uuencode.go:201-207 | Encoded characters are printable; only a zero becomes the grave accent. |
| `Uucode.EncodeTraditionalLine` | pkg/uuencode/uuencode.go:209-232 | The loop writes the length character and one group per three bytes. |
| `Uucode.EncodeData` | pkg/uuencode/uuencode.go:234-246 | The string form is the data in lines of 45 bytes followed by the terminator. |
| `Uucode.LinesAreFull` | pkg/uuencode/uuencode.go:234-246 | Full lines carry 45 bytes in 61 characters and start with M; there are no more lines than that takes. |
| `Uucode.KnownLines` | pkg/uuencode/uuencode.go:201-232 | The bytes of Cat give the line #0V%T, and a zero byte gives grave accents. |
| `Uucode.EncodeBody` | pkg/uuencode/uuencode.go:182-196 | The body is the data lines, the terminator and the closing line. |
| `Uucode.DecodeTraditionalLine` | pkg/uudecode/uudecode.go:218-256 | A line decodes to as many bytes as its length character says, if its characters suffice. |
| `Uucode.DecodeBody` | pkg/uudecode/uudecode.go:194-258 | The decoding loop is line splitting followed by decoding line by line. |
| `Uucode.DataLineIsData` | pkg/uudecode/uudecode.go:200-216 | No data line can be mistaken for the terminator, a blank length or the closing line. |
| `Uucode.RoundTrip` | pkg/uudecode/uudecode.go:194-258 | Decoding what was encoded gives back every byte string, with and without the closing line (uuencode and uudecode utilities of POSIX.1-2017). |
| `TabLines.ExpandLine` | pkg/expand/expand.go:28-55 | The loop computes the expansion of the line, -i included. |
| `TabColumns.ExpandedShape` | pkg/expand/expand.go:28-55 | An expanded line has no tab, is as wide as the line was, and has the same other characters in the same order. |
| `TabColumns.TabGoesToStop` | pkg/expand/expand.go:28-55 | A tab goes to the next multiple of the tab width. |
| `TabColumns.InitialOnlyKeepsRest` | pkg/expand/expand.go:28-55 | With -i everything behind the leading blanks stays as it is. |
| `TabColumns.OnlyLeadingBlanksChange` | pkg/unexpand/unexpand.go:63-119 | Without -a a line in ASCII without tabs that does not start with a blank stays as it is. |
| `TabLines.UnexpandLine` | pkg/unexpand/unexpand.go:63-119 | The loop rewrites exactly the blank runs its mode says. |
| `TabLines.BlankRunContainsTab` | pkg/unexpand/unexpand.go:121-133 | The answer is whether the run of blanks at the start holds a tab. |
| `TabLines.BlanksLoop` | pkg/unexpand/unexpand.go:144-158 | The loop writes the tabs and blanks between two columns. |
| `Tabs.BlanksSpan` | pkg/unexpand/unexpand.go:144-158 | The rewritten blanks span exactly the columns they replace. |
| `Tabs.FewestBlanks` | pkg/unexpand/unexpand.go:144-158 | No blank string that spans the same columns is shorter. |
| `TabLines.UnexpandSplits` | pkg/unexpand/unexpand.go:63-119 | Rewriting blanks never merges or splits the other characters, malformed UTF-8 included. |
| `TabLines.ExpandAfterUnexpand` | pkg/unexpand/unexpand.go:63-119 | For every line, width and mode, expanding the unexpanded line is expanding the line. |
| `TabLines.UnexpandTwice` | pkg/unexpand/unexpand.go:63-119 | For every line, width and mode, unexpanding twice is unexpanding once. |
| `Decimal.TruncateError` | pkg/common/rat.go:15-30 | Truncation moves a number toward zero by less than one unit of its last place. |
| `Decimal.TruncateExact` | pkg/common/rat.go:15-30 | A number that has no more digits than the scale is unchanged. |
| `Decimal.TruncateIsMultiple` | pkg/common/rat.go:15-30 | The result has no more digits than the scale. |
| `Decimal.DivisionIsExact` | pkg/dc/dc.go:668-695 | Truncated quotient times divisor plus remainder is the dividend, with a small remainder of its sign. |
| `SquareRoot.NestedFloors` | pkg/dc/dc.go:1029-1051 | The integer root of the scaled fraction, cut down once more, is still the greatest root. |
| `SquareRoot.RootIsGreatest` | pkg/dc/dc.go:1029-1051 | The truncated root is the greatest number with f digits whose square fits, when f digits divide the precision used. |
| `SquareRoot.RootTooSmall` | pkg/dc/dc.go:734-747 | A small instance beyond the two guard digits: the root of 2.000 at scale 0. |
| `DcValues.RootIsGreatestNumber` | pkg/dc/dc.go:734-747 | For every operand with at most scale + 2 digits, v yields the greatest number of the result's digits whose square does not exceed it. |
| `DcValues.RootsAreGreatestWhen` | pkg/dc/dc.go:734-747 | For every scale and digit count: all operands with that count get their greatest root if and only if the count is at most scale + 2. |
| `DcValues.ProductIsNear` | pkg/dc/dc.go:610-627 | A product loses less than one unit of its last place, never grows, and is exact while the scale allows its digits. |
| `DcValues.DivisionLosesNothing` | pkg/dc/dc.go:668-695 | In ~, q * b + rem = a exactly, |rem| < |b| / 10^scale and rem is zero or of the sign of a, whenever the remainder keeps as many digits as scale and divisor need. |
| `DcValues.ExactWhenDigitsSuffice` | pkg/dc/dc.go:668-695 | For every pair of digit counts and scale: all divisions with those counts are exact if and only if the remainder keeps as many digits as scale and divisor need. |
| `DcValues.CountsCanWrap` | pkg/dc/dc.go:610-627 | The counterexample that reaches a negative digit count: K K * at the greatest scale. |
| `DcValues.WrappedDivisorLoses` | pkg/dc/dc.go:668-695 | The counterexample to exact division, with the commands that lead to it: K K - 3 + and K K - 1 + at the greatest scale multiply to a 3 with count -2, which at scale 2 does not divide 1 exactly. |
| `DcValues.PowInt` | pkg/dc/dc.go:1016-1027 | Square-and-multiply computes the power; a negative exponent leaves 1. |
| `DcValues.PowerIsNear` | pkg/dc/dc.go:697-732 | A positive power loses less than one unit of its last place, and nothing while the scale allows its digits. |
| `DcValues.UntaggedIsTruthful` | pkg/dc/dc.go:163-174 | A number put back without its digit count is represented truly exactly when it is whole. |
| `DcText.FormatRat` | pkg/dc/dc.go:190-267 | The digit loop, padding and trimming give the text in closed form: digits of the whole part and of the fraction. |
| `DcText.NewNumStr` | pkg/dc/dc.go:47-107 | The reading loop and branches compute the value and digit count in closed form, errors included. |
| `DcText.SecondPointIsBad` | pkg/dc/dc.go:92-99 | A second point is an error. |
| `DcText.ReadIsMultiple` | pkg/dc/dc.go:47-107 | Every number read has a true digit count. |
| `DcText.FixedReadsBack` | pkg/dc/dc.go:190-267 | For every number and k > 0, the text printed with k digits reads back as the number cut off after k places, with count k. |
| `DcText.PrintedReadsBack` | pkg/dc/dc.go:190-267 | Every number with a true digit count reads back as itself. |
| `DcText.PointComesFirst` | pkg/dc/dc.go:190-267 | A number below one is printed without a zero before the point. |
| `BcText.ParseNumberInBase` | pkg/bc/bc.go:1998-2059 | The loops compute the positional value of the digits, capped and skipped as the single-digit rule says. |
| `BcText.LargeDigitsAreCapped` | pkg/bc/bc.go:1998-2059 | In a numeral of several digits, each too large for the base, they make the greatest number of that many digits. |
| `BcText.SingleDigitKeepsValue` | pkg/bc/bc.go:1998-2059 | A single digit keeps its value in every base. |
| `Digits.DigitsAreUsual` | pkg/bc/bc.go:1998-2188 | Digits are 0 to 9 and A to F, read in both cases. |
| `Digits.NumeralLength` | pkg/bc/bc.go:2098-2188 | A printed whole number has k digits exactly when it lies between the powers k - 1 and k of the base. |
| `BcText.FormatRat` | pkg/bc/bc.go:2098-2188 | The loops give the digits of whole part and fraction in the output base; in base ten and for scales up to 0 the places are the scale. |
| `BcText.PrintedReadsBack` | pkg/bc/bc.go:2098-2188 | In every base 2 to 16, what is printed reads back as the number cut off at the printed places, negated when the sign was forced. |
| `BcText.ExactWhenPlacesSuffice` | pkg/bc/bc.go:2098-2188 | It reads back as the number itself exactly when the printed places hold it. |
| `BcText.DecimalTextIsExactWhen` | pkg/bc/bc.go:2098-2188 | In base ten the text reads back as the number exactly when the number has no more digits than the scale. |
| `BcText.WholeTextIsExact` | pkg/bc/bc.go:2098-2188 | Whole numbers read back as themselves in every base from 2 to 16, whatever the scale and the places. |
| `BcText.ZeroReadsBack` | pkg/bc/bc.go:2098-2113 | Zero reads back as zero, the forced -.000 included. |
| `DcLexer.ReadLiteral` | pkg/dc/dc.go:454-482 | The loop takes the characters up to the bracket that closes the literal. |
| `DcLexer.QuotedTextReadsBack` | pkg/dc/dc.go:454-482 | Every text with matching brackets, quoted, is read back unchanged, backslashes included. |
| `DcLexer.ParseNumber` | pkg/dc/dc.go:399-430 | The text accepted can always be read, so pushing it never fails. |
| `DcLexer.ParseRegName` | pkg/dc/dc.go:282-304 | The loop takes one character or, extended, the longest run of identifier characters. |
| `DcSemantics.ResultsAreTruthful` | pkg/dc/dc.go:586-732 | The result of every arithmetic command has a true digit count. |
| `DcRuns.StepKeepsTruth` | pkg/dc/dc.go:501-784 | Every command that succeeds keeps every digit count on the stack and in the registers true. |
| `DcRuns.RegisterKeepsTruth` | pkg/dc/dc.go:786-823 | So do the register commands. |
| `DcRuns.RunKeepsTruth` | pkg/dc/dc.go:432-999 | In every run that ends without an error, macros, registers and lines read by ? included, every number is a multiple of 10 to the minus its digit count, unless ? has passed over an error. |
| `DcRuns.StepKeepsTruthWhen` | pkg/dc/dc.go:501-868 | Whether it succeeds or fails, a command that names no register keeps every digit count true if and only if it is not a comparison or modular power that lacks operands and puts back a number that is not whole. |
| `DcRuns.TestKeepsTruthWhen` | pkg/dc/dc.go:886-895 | A test without two operands fails, and keeps every digit count true if and only if a lone operand is whole. |
| `DcRuns.ComparisonLosesCount` | pkg/dc/dc.go:839-848 | The counterexample: a comparison with 1.5 as its only operand fails and leaves 1.5 with digit count 0. |
| `DcRuns.InputLineLosesCount` | pkg/dc/dc.go:970-976 | The counterexample for whole runs: ? passes over that failure, and the run ends without an error. |
| `DcRuns.DivisionCommandLosesNothing` | pkg/dc/dc.go:668-695 | The command ~ keeps what lies below its operands and leaves q and rem with q * b + rem = a exactly, |rem| < |b| / 10^scale, and rem zero or of the sign of a. |
| `DcRuns.ShownReadsBack` | pkg/dc/dc.go:269-276 | The text of a number with a true digit count reads back as that number. |
| `DcRuns.PrintedReadsBack` | pkg/dc/dc.go:504-533 | In every state with true digit counts, what p and f print for numbers reads back as those numbers, in order, behind what was printed before. |
| `DcRuns.RunExtends` | pkg/dc/dc.go:432-999 | No run, failed ones and those that read input included, takes back or changes output already written. |
| `DcRuns.RegisterStackRestores` | pkg/dc/dc.go:807-823 | S then L on a register restores the stack and all registers, but for the mark of a negative zero. |
| `DcRuns.QuotedMacroRunsInPlace` | pkg/dc/dc.go:826-836 | Quoting a text with matching brackets and executing it is the same as running it in place, for every state and text. |
| `DcRuns.MoreFuel` | pkg/dc/dc.go:432-999 | A run that ends does so independently of the bound on macro depth. |
| `DcMachine.Machine.constructor` | pkg/dc/dc.go:31-36 | The machine starts with an empty stack, no registers, scale 0, no output and the given input. |
| `DcCommands.SumCommand` | pkg/dc/dc.go:586-597 | In every state with two operands + keeps what lies below and leaves t with t - b = a and the greater digit count. |
| `DcCommands.DifferenceCommand` | pkg/dc/dc.go:598-609 | Likewise - leaves t with t + b = a. |
| `DcCommands.ProductCommand` | pkg/dc/dc.go:610-628 | * leaves the product cut toward zero by less than a unit of its last place, with the digits of both operands as far as the scale and their counts allow. |
| `DcCommands.QuotientCommand` | pkg/dc/dc.go:629-645 | / leaves the quotient cut toward zero by less than a unit of the last place of the scale. |
| `DcCommands.DivisionCommandsAgree` | pkg/dc/dc.go:629-695 | ~ leaves what / leaves and on top what % leaves. |
| `DcCommands.DivisionByZeroFails` | pkg/dc/dc.go:629-695 | A division by zero fails, and both operands are gone. |
| `DcCommands.TooFewOperands` | pkg/dc/dc.go:149-174 | With fewer than two values an operation fails, and a single value stays as a number. |
| `DcCommands.PowerCommand` | pkg/dc/dc.go:697-732 | ^ by its exponent: one for 0, repeated multiplication for a positive one, the inverse at the scale for a negative one, each cut by less than a unit of the last place. |
| `DcCommands.RootCommand` | pkg/dc/dc.go:734-747 | v leaves the greatest number of its digits whose square fits, up to two digits beyond the scale; a negative number fails and is gone. |
| `DcCommands.ModularPowerCommand` | pkg/dc/dc.go:749-767 | On whole numbers | leaves the r between 0 and the modulus that is congruent to the power. |
| `DcCommands.CompareCommands` | pkg/dc/dc.go:839-870 | (, { and G leave 1 exactly when the operand below the top is greater, not less, equal. |
| `DcCommands.TestCommand` | pkg/dc/dc.go:886-924 | A test takes both operands and calls its register exactly when the top is less than, greater than or equal to the one below; otherwise the register of an else clause. |
| `DcCommands.NegatedTest` | pkg/dc/dc.go:926-967 | A negated test with an else clause is the test with its registers exchanged. |
| `DcCommands.DuplicateDropped` | pkg/dc/dc.go:539-552 | d shows the top value again, and R then restores everything. |
| `DcCommands.ExchangedTwice` | pkg/dc/dc.go:544-549 | r exchanges the top two values, and a second r undoes it. |
| `DcCommands.StackCounted` | pkg/dc/dc.go:536-556 | z leaves the number of values, c none. |
| `DcCommands.ScaleRestored` | pkg/dc/dc.go:770-783 | What K leaves, k takes: the scale is as before. |
| `DcCommands.ScaleIsSet` | pkg/dc/dc.go:770-779 | k takes a whole number as the scale, a negative one as 0. |
| `DcCommands.StoredValueLoads` | pkg/dc/dc.go:786-805 | Storing and loading again leaves the value, and the register holds it. |
| `DcCommands.InputLineRunsInPlace` | pkg/dc/dc.go:970-976 | A line of input that succeeds runs in place of the ?. |
| `DcCommands.PointedNumberIsPushed` | pkg/dc/dc.go:399-430 | Typed digits with a point push the number they write with the digits behind the point counted; an underscore negates it. |
| `DcCommands.WholeNumberIsPushed` | pkg/dc/dc.go:399-430 | Typed digits alone push a whole number. |
| `DcCommands.LengthCommand` | pkg/dc/dc.go:557-584 | At scale 0, Z leaves the number of decimal digits of a whole number. |
| `DcCommands.NothingCommand` | pkg/dc/dc.go:872-884 | N leaves 1 for a zero and for an empty string, otherwise 0. |
| `DcCommands.CharacterCommand` | pkg/dc/dc.go:979-991 | a leaves the character of a small number. |
| `DcCommands.AppendCommand` | pkg/dc/dc.go:510-518 | n takes the top value and writes it at the end of the last line; earlier lines stay. |
| `DcCommands.PlainTextIsUnescaped` | pkg/dc/dc.go:1082-1107 | P writes a text without backslashes as it is. |
| `DcCommands.EscapesAreReplaced` | pkg/dc/dc.go:1082-1107 | It replaces four escapes and leaves the others. |
| `DcCommands.EmptyRegister` | pkg/dc/dc.go:786-823 | An unused register loads as 0 and gives nothing to L; storing from an empty stack leaves an empty string. |
| `DcCommands.CommentIsIgnored` | pkg/dc/dc.go:446-451 | A comment does nothing. |
| `DcMachine.Machine.PopTwo` | pkg/dc/dc.go:149-174 | Two operands come off the stack as numbers; a lone one goes back, losing its digit count in one of the two forms. |
| `DcMachine.Machine.Arithmetic` | pkg/dc/dc.go:586-732 | The new stack is exact on success, on a missing operand and on division by zero; what each command leaves is said by the rows of `DcCommands`. |
| `DcMachine.Machine.SquareRoot` | pkg/dc/dc.go:734-747 | A negative operand is dropped with an error, otherwise replaced by its root. |
| `DcMachine.Machine.ModularPower` | pkg/dc/dc.go:749-767 | Three operands are replaced by the power modulo the third; with fewer, all are put back without digit counts. |
| `DcMachine.Machine.Compare` | pkg/dc/dc.go:839-870 | Two operands are replaced by 1 or 0. |
| `DcMachine.Machine.PrintAll` | pkg/dc/dc.go:530-533 | f prints the stack from the top down. |
| `DcMachine.Machine.UseRegister` | pkg/dc/dc.go:786-823 | Registers are stacks; storing replaces one, loading from an empty one gives 0. |
| `DcMachine.Machine.Test` | pkg/dc/dc.go:886-967 | A test with its else clause calls at most one register and moves behind both names. |
| `DcMachine.Machine.ReadInput` | pkg/dc/dc.go:970-976 | ? takes the next line of input, evaluates it unless it is empty, and goes on even when that fails. |
| `DcMachine.Machine.Eval` | pkg/dc/dc.go:432-999 | The loop over the cursor performs the run semantics, ? included, keeps digit counts true unless it fails or passes over a failure, and only adds output. |

## Left out

- Files, sockets, processes, system calls, flag parsing, JSON envelopes and rendered output: input and output only.
- The thin utilities over libraries (awk, the archivers and compressors, hashes) and the shell.
- Floating-point and locale utilities (seq, sleep, date, cal).
- diff: reading files into lines, the -B filter, header texts and the no-newline marker.
- Hunks.BuildHunks: the two newline flags, which it takes and does not use.
- patch: parsing patch files, stripping paths, choosing and writing the file, and the wording of failures.
- PatchRun.PatchFollowsScriptWhen: a run that strays from the script may still end at the new file by accident; that is decided only for hunks that keep the number of lines.
- Factor.MillerRabin: that the fixed bases accept no composite of 64 bits is stated only below 1681; beyond, it rests on a published computation.
- Factor.PollardRho: `fuel` bounds the turns of its inner loop, because termination is heuristic; the exact condition for success is stated over the walks, and for which n it holds is not.
- Factor.Factorize: when that fuel runs out, says only that what was listed is part of a factorisation.
- sed: regular expressions, commands that read or write, in-place editing and the D restart; commands and address tests are arbitrary stateful functions.
- Sed.CompiledMeansBlocks: is about scripts without b, t and T, for which it also bounds the number of turns; `SedBranches.CompiledMeansScript` covers all scripts.
- Sed.CompileAst: positions in the list stand for the identity of instructions.
- The daemon: connections, sessions, single asynchronous requests and cancelled contexts.
- JsonRpc.ProcessRequest: what a command prints is a parameter.
- RateLimiter.RateLimiter.Allow: time and tokens are reals, without rounding, and the lock is not modelled.
- tsort: splitting the input into words and rendering the result.
- Xmodem.StaysInStep: headers arrive intact, because the duplicate-block branch acknowledges before it checks anything else.
- Xmodem.EotCompletes: the wording of errors and the time limits of reads are not modelled.
- Uucode.RoundTrip: header lines, file modes and the base64 form are not modelled.
- unexpand and expand: splitting input into lines and lists of tab stops.
- dc: wrapping long lines, and `|` with a negative exponent, which ends a run with the outcome `NotModelled`; an unfinished last line of input, which ? reads and ignores, is not represented.
- DcRuns.RunKeepsTruth: `fuel` bounds the depth of macros and input lines in the model; `DcRuns.MoreFuel` says it changes no run that ends. After ? has passed over an error, later commands may still remove what it misrepresents; that is not decided.
- DcValues.RootIsGreatestNumber: at scales of 2^62 and more the source's exponent wraps; the power of ten needed afterwards cannot be represented there.
- DcText.PrintedReadsBack: numerals with an exponent, a fraction bar or a base prefix, which `big.Rat` would accept but the lexer never produces, are not modelled.
- DcText.WholeReadsBack: numbers that are not whole but have a digit count of 0 or less, which no run produces, print up to 200 digits; reading those back is not stated.
- bc: the language itself, its square root, its math library, bases above 16, and letters outside ASCII in numerals.
- BcText.FormatRat: the number of places in a base other than ten is a parameter, because the source computes it with floating-point logarithms.
