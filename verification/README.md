# Verified models of the artifact pipeline's hand-written algorithms

The repository generates tests with a language model, compiles them, and lets a fixer edit them until
they build. Between the model and the disk stands code that scans, patches and reconciles files by
hand. This project models that code in Dafny and proves what its comments and callers rely on. Loops
are methods with invariants, proved against a specification; the laws are lemmas about that
specification. `dafny verify dfyconfig.toml` checks everything.

Source text is a `string` with one `char` per byte.

- **Escapes** (`EscapeLexer`, `EscapeGate`, `EscapeLaws`, `EscapeScan`, `Literals`, `SourceElements`,
  `ElementLex`). The illegal-escape gate and the repair meant to satisfy it are separate loops over
  different texts. Both are proved against one lossless token stream, and the gate's scan of the
  repaired text is shown to stay in step, token for token, with the repair's scan of the original.
  What the stream is comes from the text alone: a file printed from code, comments and literals is
  read back as just those.
- **Stray backslashes** (`JsScanner`, `JsPieces`). One flag and a stack of brace counters refine a lexer
  with an explicit stack of template, interpolation and brace contexts; and every text is printed from
  nested pieces and an ending that gives the lexer's answer.
- **Strippers** (`Stripper`, `CSharpStripper`, `ElementStrip`). Idempotence, the exact effect on line
  numbers, and what is left of each element of a file.
- **Project graphs** (`ProjectRefs`, `Reachable`). A bounded breadth-first queue returns the ball of
  its radius; a bounded depth-first walk answers with the whole closure or not at all.
- **Audit sink** (`AuditSink`, `Redaction`). A step system of producers, channel, drain and close, with
  invariants over every interleaving; and what redaction hides and keeps.
- **Edits and patches** (`FixEdits`, `GoStrings`, `SlnBuild`, `Reconcile`, `ReconcileOutcome`,
  `ChangeSummary`). Nothing is
  picked arbitrarily as long as the anchor cannot overlap itself, a second pass is a no-op, what is
  merged ends up in the file or is reported, backups undo a failed run, a summary is an exact multiset
  difference.
- **Attribution and overlays** (`LogPattern`, `Words`, `FileDiagnostics`, `LogOrder`, `PrintedLogs`,
  `Stalls`, `Props`, `ProjectFacts`). The diagnostic pattern, tiling a compiler log with it, what an
  order of diagnostics leaves in the fingerprints, and MSBuild's import order as ordered overlays.

`Text` and `Sorting` hold the vocabulary the modules share.

## Where the code and its comments part

The model follows the code. Each point below is a theorem with both directions, or a lemma with a
concrete input.

- A repaired file is not always one the gate accepts: it is exactly when its char literals are legal
  (`RepairedFileAccepted`, `RepairedFileStillRefused`). C# files holding
  verbatim or raw literals are not returned unchanged either: such literals are copied and the rest is
  repaired (`ChangedIff`, `VerbatimFileIsRepaired`).
- The C# stripper moves code up a line for every line feed an ordinary literal's scan swallows, so an
  apostrophe in a directive shifts all later line reports (`LineKeptIff`, `ApostropheShiftsLines`).
- "Appears once" is a non-overlapping count. For an anchor that can overlap itself a count of one may
  hide a second occurrence, and a count of N may be less than all (`CountIsTrueIffUnbordered`,
  `BorderedCountsOnce`, `AllAreCountedIffUnbordered`).
- Reordered diagnostics do look like progress unless the same words follow every diagnostic: what
  stands before a location belongs to the block before it, and what ends the log to the last
  (`OrderNeverShowsIff`, `SwappedMavenLines`, `SwappedMSBuildLines`). Two compiler paths ending alike
  make the stall lookup depend on map order (`UnchangedIsStalledIff`, `TwoModulesHideAStall`).
- The breadth-first walk reads a project under the first spelling that reaches it. Over any paths of
  which two share a key and a third has another, some files make it miss a project within its limit;
  over all other paths none do (`NeverMissesIff`, `SecondSpellingIsNotRead`).
- The depth-first walk marks directories, not projects: with two projects in one directory it can
  answer with a wrong set (`TrustedLayouts`, `SharedDirMisleads`). Sixteen projects are always within
  its bound, seventeen are not (`FewDirsAreAnswered`, `RingIsNotAnswered`).
- A dependency mapped to nothing in the solution gets a build row that disagrees with the mapping in
  force (`BuildMatchesActive`, `BlankMappingMismatches`).
- An Update item counts as a package reference (`ReferencedIsIncludedIff`, `UpdateIsRecorded`).

## Assumptions

- `ProjectRefs`: that all projects within the limit are found assumes that two spellings of one
  project read alike wherever the walk can meet both (`SpellingsAgree`); that nothing else is found
  assumes nothing.
- `Reachable`: exactness assumes one project per directory, and `TrustedLayouts` says how far that is
  needed.
- `AuditSink`: the documented contract, no Log during Close, is a hypothesis only of the `Contract`
  lemmas.
- `Reconcile`: groups are disjoint and their paths distinct, as discovery builds them.
- `FileDiagnostics`: nothing is assumed of the digest; where results are said to differ, a collision
  on the two texts digested is the stated exception (`Collides`). The path normalisation is a
  parameter.
- `SourceElements`: an element must end where it does whatever follows it (`EndsBefore`), as when no
  quote follows a closing quote.
- `SlnBuild`: rows as parsed, with upper-case GUIDs and configuration names without a dot.

## Model

| member | source | states |
|---|---|---|
| `EscapeLaws.RepairedFileAccepted` | `internal/evaluator/fix_quality_gate.go:842-944` | once the repair changes a file, the gate accepts the result if and only if every char literal of the original was legal; the comment at 829-833 promises acceptance always, which RepairedFileStillRefused refutes |
| `EscapeLaws.GateOnRepairedFile` | `internal/evaluator/fix_quality_gate.go:980-1062` | the gate on a repaired file gives, escape and line, its answer on the original with everything but the char literals out of reach |
| `EscapeGate.LexAfterRepair` | `internal/evaluator/fix_quality_gate.go:842-944` | the simulation: lexing the repaired text gives the repaired tokens one for one, across comments and skipped verbatim and raw C# literals |
| `EscapeGate.NextTokenAfterRepair` | `internal/evaluator/fix_quality_gate.go:861-936` | one step of the simulation: the token read at the head of the repaired text is the repair of the token read at the head of the original, though the two loops look at different bytes |
| `EscapeGate.UnmodelledAfterRepair` | `internal/evaluator/fix_quality_gate.go:596-605` | doubling backslashes further on never makes or unmakes an unmodelled C# literal at a position |
| `EscapeLaws.RepairIsExact` | `internal/evaluator/fix_quality_gate.go:855-943` | the output is the input with one backslash inserted per reported repair: deleting the inserted bytes gives the input back, and the lengths add up |
| `EscapeLaws.RepairsAreLocated` | `internal/evaluator/fix_quality_gate.go:905-916` | each report names the escape standing at its own offset of the input and that offset's line (1 + line feeds before it); the offsets rise strictly |
| `EscapeLaws.RepairPreservesMeaning` | `internal/evaluator/fix_quality_gate.go:834-944` | every token outside double-quoted literals is untouched, and every double-quoted literal denotes what it denoted when an illegal `\x` is read as two characters |
| `EscapeLaws.RepairIsIdempotent` | `internal/evaluator/fix_quality_gate.go:842-944` | on every input a second repair changes nothing and reports nothing |
| `EscapeScan.RepairIllegalEscapes` | `internal/evaluator/fix_quality_gate.go:842-944` | the repair loop, with its all-or-nothing bail-outs, computes the repair the laws are about, for every language and text |
| `EscapeScan.RepairLiteral` | `internal/evaluator/fix_quality_gate.go:894-935` | the inner loop writes the repaired literal and reports its escapes, or finds that the literal is not closed on its line |
| `EscapeScan.IllegalEscapeReason` | `internal/evaluator/fix_quality_gate.go:980-1062` | the gate loop reports the first illegal escape of the token stream with its line, or acceptance when there is none or the scan loses its place |
| `ElementLex.GateReads` | `internal/evaluator/fix_quality_gate.go:980-1062` | told from the text: a file written from code, comments and literals is accepted if and only if every escape in its ordinary and char literals is in the language's list, and what is reported is the first that is not, with its line; verbatim and raw literals and comments are never judged |
| `ElementLex.RepairReads` | `internal/evaluator/fix_quality_gate.go:842-944` | told from the text: the repaired file is the same elements with each bad escape of an ordinary string mended, and no other byte touched |
| `ElementLex.CopiedLiteralUntouched` | `internal/evaluator/fix_quality_gate.go:861-873` | a verbatim or raw C# literal comes out byte for byte, wherever in the file it stands |
| `ElementLex.RawIsCopied` | `internal/evaluator/fix_quality_gate.go:596-605` | `n` quotes, three or more, a text that neither starts nor ends with a quote nor holds `n` in a row, and `n` quotes again are one copied token, whatever follows but a quote |
| `ElementLex.VerbatimIsCopied` | `internal/evaluator/fix_quality_gate.go:596-605` | a string behind `@`, `$@` or `@$`, with its quotes doubled, is one copied token, whatever follows but a quote |
| `ElementLex.FileLexes` | `internal/evaluator/fix_quality_gate.go:855-943` | a file is read as the tokens of the elements it was written from, and then what follows them is read |
| `ElementLex.OpenFileUntouched` | `internal/evaluator/fix_quality_gate.go:877-935` | a file that ends in an open literal or comment is returned as it came, whatever elements stand before it |
| `ElementLex.GateReadsOpen` | `internal/evaluator/fix_quality_gate.go:1024-1057` | the gate judges what was read of a literal that does not close on its line, after everything before it |
| `EscapeScan.GateLiteral` | `internal/evaluator/fix_quality_gate.go:1024-1057` | the gate's inner loop reports a bad escape before it knows whether the literal closes, and only then whether it does |
| `EscapeLaws.ChangedIff` | `internal/evaluator/fix_quality_gate.go:842-944` | a file is changed if and only if the scan keeps its place to the end and some closed double-quoted literal, outside the copied ones, holds an illegal escape |
| `EscapeScan.VerbatimFileIsRepaired` | `internal/evaluator/fix_quality_gate.go:829-833` | the C# line `@"\d";"\d"` holds a verbatim literal and is repaired, although such files are said to be returned unchanged |
| `EscapeScan.RepairedFileStillRefused` | `internal/evaluator/fix_quality_gate.go:829-838` | a concrete Java line, `"\d"'\d'`, that is repaired and still refused |
| `EscapeLexer.ScanBodyRoundTrip` | `internal/evaluator/fix_quality_gate.go:894-935` | reading back the text of a well-formed literal body gives exactly that body |
| `EscapeLexer.Lex` | `internal/evaluator/fix_quality_gate.go:855-943` | the token stream loses nothing: the texts of the tokens add up to the source, and literal bodies are well formed |
| `Literals.RawClosesAtFirstRun` | `internal/evaluator/fix_quality_gate.go:653-668` | a raw string closes at the leftmost place holding as many quotes in a row as opened it, taking the whole run there; else at the end of input |
| `Literals.QuotedClosesAtFirst` | `internal/evaluator/fix_quality_gate.go:670-685` | an ordinary string closes at the first quote that no backslash takes (an even run of backslashes stands before it), a verbatim one with the first odd run of quotes; with none it takes the rest of the input |
| `Literals.StringLiteralStable` | `internal/evaluator/fix_quality_gate.go:619-686` | the end of a string literal does not depend on what follows it, up to the first byte after it |
| `Literals.StringLiteralEnd` | `internal/evaluator/fix_quality_gate.go:619-686` | the index loops find the end that the structural definition gives, for all five string forms, or that no literal starts |
| `Literals.CSharpUnmodelledLiteralEnd` | `internal/evaluator/fix_quality_gate.go:596-605` | a position starts a verbatim or raw literal exactly when the three-way test and the literal scan say so, and where it ends |
| `SourceElements.RawLength` | `internal/evaluator/fix_quality_gate.go:653-668` | a raw literal in front of any text but a quote is as long as it was written, with a dollar sign before it or not |
| `SourceElements.VerbatimLength` | `internal/evaluator/fix_quality_gate.go:622-686` | so is a verbatim literal, its doubled quotes included |
| `SourceElements.QuotedLength` | `internal/evaluator/fix_quality_gate.go:670-685` | and an ordinary one, escaped quotes included |
| `JsScanner.JsStrayBackslash` | `internal/evaluator/fix_quality_gate.go:446-567` | the flag-and-counters scanner refines the explicit-stack lexer, whose answer StrayIff and AnswerOfText tell from the text: found exactly when it reaches a backslash in code before anything it declines on, with that byte's line and column |
| `JsPieces.StrayIff` | `internal/evaluator/fix_quality_gate.go:446-567` | a backslash is what the scan finds if and only if the text before it is complete pieces of code (bytes, comments, strings, templates with nested code, blocks) inside blocks and interpolations that may still be open: never one inside a string, a template's text or a comment |
| `JsPieces.AnswerOfText` | `internal/evaluator/fix_quality_gate.go:446-567` | for every file printed from pieces and an ending, the answer is the ending's: the offset of a code backslash, none at the end of the file or in a line comment, and declined for an open string, template or block comment and for a slash that opens no comment |
| `JsPieces.EveryFileReads` | `internal/evaluator/fix_quality_gate.go:446-567` | every text whatever is printed from open contexts, pieces and one ending, so the previous statement covers all inputs |
| `JsScanner.PushEncodes` | `internal/evaluator/fix_quality_gate.go:475-481` | opening a template, an interpolation or a brace keeps flag and counters a faithful encoding of the context stack |
| `JsScanner.PopBraceEncodes` | `internal/evaluator/fix_quality_gate.go:551-559` | on `}` the last counter tells whether a block or an interpolation ends, and the encoding survives the pop |
| `JsScanner.PopTemplateEncodes` | `internal/evaluator/fix_quality_gate.go:473-474` | on a backtick in template text the encoding survives the pop |
| `JsScanner.PositionIsTrue` | `internal/evaluator/fix_quality_gate.go:447-455` | line and column kept byte by byte are 1 + line feeds before the byte and its distance from the last of them |
| `JsScanner.StrayIsABackslash` | `internal/evaluator/fix_quality_gate.go:560-561` | what is reported is a backslash of the text |
| `Stripper.StripIsIdempotent` | `internal/evaluator/fix_quality_gate.go:688-772` | the stripped text opens no literal or comment and is stripped to itself, for every dialect and input |
| `Stripper.StripFixesExactlyBare` | `internal/evaluator/fix_quality_gate.go:707-772` | the stripper leaves a text alone if and only if nothing in it opens a literal or a comment |
| `Stripper.StripIsBare` | `internal/evaluator/fix_quality_gate.go:707-772` | nothing the stripper recognises is left in its output |
| `Stripper.NothingGlued` | `internal/evaluator/fix_quality_gate.go:714-734` | removing a comment or literal never glues its neighbours into a new comment opener |
| `Stripper.StripStringsAndComments` | `internal/evaluator/fix_quality_gate.go:707-772` | the loop computes the stripped text of the structural definition |
| `ElementStrip.FileStrips` | `internal/evaluator/fix_quality_gate.go:707-772` | told from the text, in each dialect: code stays as it is, a line comment leaves its line feed, a block comment nothing, and every literal one underscore |
| `ElementStrip.CharEndsFirst` | `internal/evaluator/fix_quality_gate.go:741-756` | a char literal of Java or C# ends at the first apostrophe that no backslash takes, in any text |
| `ElementStrip.BacktickEndsFirst` | `internal/evaluator/fix_quality_gate.go:757-767` | a Go raw string ends at the first backtick, in any text |
| `CSharpStripper.CodeKeepsItsLine` | `internal/dotnetproj/csharpsrc.go:21-112` | every code byte survives, and its line in the output is its line in the source less the line feeds swallowed by ordinary literals before it |
| `CSharpStripper.LineKeptIff` | `internal/dotnetproj/csharpsrc.go:88-106` | a code byte keeps its line if and only if no ordinary literal before it has swallowed a line feed |
| `CSharpStripper.ApostropheShiftsLines` | `internal/dotnetproj/csharpsrc.go:88-106` | the concrete failure: a lone apostrophe swallows its line feed and the next line is reported one too low |
| `CSharpStripper.PartsInOrder` | `internal/dotnetproj/csharpsrc.go:28-110` | surviving code bytes come out in source order |
| `CSharpStripper.PartsLoseNothing` | `internal/dotnetproj/csharpsrc.go:28-110` | the parts the stripper distinguishes add up to the source |
| `CSharpStripper.StripCSharpIsIdempotent` | `internal/dotnetproj/csharpsrc.go:21-112` | stripping twice is stripping once, and what is left alone is exactly the text with no quote and no comment opener |
| `CSharpStripper.StripCSharpCommentsAndStrings` | `internal/dotnetproj/csharpsrc.go:21-112` | the loop computes the stripped text of the structural definition |
| `ElementStrip.FileStripsInCSharp` | `internal/dotnetproj/csharpsrc.go:21-112` | told from the text: code stays, an ordinary or char literal becomes an underscore, and comments, verbatim and raw strings leave exactly their line feeds |
| `ElementStrip.LooseEndsFirst` | `internal/dotnetproj/csharpsrc.go:88-106` | an ordinary literal ends at the first quote or line feed that no backslash takes, in any text |
| `ElementStrip.OpenCommentGoes` | `internal/dotnetproj/csharpsrc.go:28-48` | a comment with no end takes the rest of the file with it, in both strippers |
| `ElementStrip.OpenRawGoes` | `internal/dotnetproj/csharpsrc.go:49-64` | a raw string with no end takes the rest of the file with it; the other stripper leaves an underscore for it |
| `ProjectRefs.WalkTransitiveProjectRefs` | `internal/evaluator/csharp_scoped_nuget.go:236-274` | the queue loop terminates and computes the specified answer (limit 32 when not positive, a positive one as given; nothing for blank arguments) |
| `ProjectRefs.AnswerIsTheBall` | `internal/evaluator/csharp_scoped_nuget.go:236-274` | the answer holds only projects at reference distance at most the limit, for every graph with cycles and duplicate queue entries; and all of them when two spellings of one project that the walk can meet read alike |
| `ProjectRefs.NeverMissesIff` | `internal/evaluator/csharp_scoped_nuget.go:249-256` | over a given set of paths, whatever refers to whatever, no project within the limit is missed if and only if no two of the paths share a key or all of them do |
| `ProjectRefs.SecondSpellingIsNotRead` | `internal/evaluator/csharp_scoped_nuget.go:252-256` | the failure: met again under another spelling a project is not read again, and what only that spelling refers to is missed |
| `ProjectRefs.CyclicSpellingsAgree` | `internal/evaluator/csharp_scoped_nuget.go:236-274` | a cyclic repository whose paths differ in case only: the spellings agree, and both its projects are found |
| `ProjectRefs.WithinIsPaths` | `internal/evaluator/csharp_scoped_nuget.go:236-274` | the distance layers are what reference paths of bounded length reach, in both directions |
| `ProjectRefs.VisitKeeps` | `internal/evaluator/csharp_scoped_nuget.go:249-271` | finding a project at its queued depth and queueing its references keeps the walk sound, complete and ordered by depth |
| `ProjectRefs.SkipKeeps` | `internal/evaluator/csharp_scoped_nuget.go:252-255` | dropping a duplicate queue entry loses nothing: its project was found no later than this |
| `ProjectRefs.EmptyQueueIsComplete` | `internal/evaluator/csharp_scoped_nuget.go:249-273` | with the queue empty every project within the limit has been found, and at its shortest distance |
| `Reachable.AnswerIsExact` | `internal/dotnetproj/reachable.go:55-129` | an answer is exactly the directories of all reachable projects, cycles or not, and every one of those projects could be read in full (one project per directory) |
| `Reachable.AnswerIsSound` | `internal/dotnetproj/reachable.go:55-129` | with no assumption at all, whatever directory is claimed belongs to a reachable project |
| `Reachable.AnswerIffReadable` | `internal/dotnetproj/reachable.go:39-49` | answer exactly or say nothing: for closures of up to 16 projects there is an answer if and only if every reachable project is readable, and it is then exact |
| `Reachable.FewDirsAreAnswered` | `internal/dotnetproj/reachable.go:23-25` | a readable closure with at most 16 directories is always answered |
| `Reachable.RingIsNotAnswered` | `internal/dotnetproj/reachable.go:23-25` | the bound is sharp: a ring of 17 well-formed projects is not answered |
| `Reachable.TrustedLayouts` | `internal/dotnetproj/reachable.go:83-86` | the walk is exact on every reference graph over a layout if and only if no two projects share a directory, or all do |
| `Reachable.SharedDirMisleads` | `internal/dotnetproj/reachable.go:83-86` | a layout with a shared directory has a reference graph on which a wrong set is answered |
| `Reachable.Traversal.Visit` | `internal/dotnetproj/reachable.go:68-117` | the recursive closure over shared `seen` and `complete` computes the specified walk |
| `Reachable.TestProjectReachableDirs` | `internal/dotnetproj/reachable.go:55-129` | the whole function computes the specified answer |
| `AuditSink.InvAlways` | `internal/audit/audit.go:126-214` | the invariant (conservation, order, close sequence, bounded queue) holds in every state of every run |
| `AuditSink.EveryCallAccounted` | `internal/audit/audit.go:126-138` | in every state: calls past the closed check = written + dropped + queued + held by the drain + in flight + panicked, and the queue never exceeds its capacity |
| `AuditSink.CountersCount` | `internal/audit/audit.go:131-180` | the dropped counter is the number of calls that found the queue full and of entries that could not be written; the written counter is the number of those that could |
| `AuditSink.AcceptedAreEnqueued` | `internal/audit/audit.go:126-138` | the accepted entries are the payloads of the sends that found room, in the order of the sends |
| `AuditSink.LoggingNeverWaits` | `internal/audit/audit.go:131-137` | in every state of every run exactly one of send, default and panic is possible for a goroutine in the select, and taking it ends the call: it never waits for anyone |
| `AuditSink.InFlightUntilOut` | `internal/audit/audit.go:126-138` | a goroutine leaves the select by one of those three steps of its own and no other, with the payload it froze |
| `AuditSink.LinesInOrder` | `internal/audit/audit.go:157-180` | the lines written are a subsequence of the accepted entries in the order they were queued |
| `AuditSink.NoWriteAfterClose` | `internal/audit/audit.go:203-214` | no write and no second close happens once the writer has been closed |
| `AuditSink.EveryCloseSameError` | `internal/audit/audit.go:200-214` | every Close call returns the error of the one close of the writer |
| `AuditSink.EveryCloseReturnsTheFiles` | `internal/audit/audit.go:200-214` | that error is the one the close of the writer gave in the one step in which it ran |
| `AuditSink.CloseErrorIsTheFiles` | `internal/audit/audit.go:207-213` | the close is finished if and only if that step has run, and what it gave is what is stored |
| `AuditSink.CloseErrorIsFinal` | `internal/audit/audit.go:207-213` | that error, and the lines in the file, do not change afterwards |
| `AuditSink.ClosedMeansDrained` | `internal/audit/audit.go:200-214` | when a Close has returned the queue is empty and the drain has exited |
| `AuditSink.ContractAccountsForAll` | `internal/audit/audit.go:64-66` | if no Log runs while Close does, nothing panics, and once Close has returned calls = written + dropped |
| `AuditSink.ContractKeepsQuiet` | `internal/audit/audit.go:64-66` | under that contract no call is in flight from the start of the close on |
| `AuditSink.LogDuringCloseCanPanic` | `internal/audit/audit.go:126-138` | outside it: a run in which a call between the check and the send panics |
| `AuditSink.CloseMakesProgress` | `internal/audit/audit.go:203-214` | while a close is under way its next step is always enabled, and every step of the drain and the close brings the end nearer, and once the channel is closed no logging call puts it off |
| `Redaction.RedactionHidesExactly` | `internal/audit/audit.go:233-280` | two payloads are redacted to the same value if and only if they differ at most in text under prompt-like keys, and there only within one length and one hash, both spelled out |
| `Redaction.HiddenFieldIs` | `internal/audit/audit.go:263-329` | a field under a prompt-like key that holds text becomes exactly the two-field object of the hash and the length of that text, or of its encoding |
| `Redaction.RedactedKeyIff` | `internal/audit/audit.go:224-227` | the keys meant are those with "prompt" or "completion" in them and "messages", whatever the case |
| `Redaction.CarriesIff` | `internal/audit/audit.go:291-312` | a value carries text if and only if some path of indices and names in it ends in a string |
| `Redaction.RedactValue` | `internal/audit/audit.go:252-280` | the in-place walk computes the redaction and reports a change exactly when there was something to redact |
| `Redaction.CarriesText` | `internal/audit/audit.go:291-312` | true exactly when some string occurs in the value, at any depth |
| `Redaction.NoTextNoChange` | `internal/audit/audit.go:282-290` | counts and flags under prompt-like keys, having no text, are not touched |
| `Redaction.RedactKeepsCarries` | `internal/audit/audit.go:252-280` | redaction neither introduces text where there was none nor removes the last of it |
| `Redaction.RedactingTwiceShows` | `internal/audit/audit.go:252-280` | redaction is not a projection: the redacted payload has something to redact exactly when the original had |
| `Redaction.RedactPayload` | `internal/audit/audit.go:233-250` | bytes that do not parse, or hold nothing to redact, are returned as they came; others are the encoding of the redaction |
| `FixEdits.JudgeIsJustified` | `internal/evaluator/fix_edits.go:46-111` | every edit changes the content only as the one counted occurrence, all occurrences when exactly as many identical unconflicted edits were sent, or the one tolerant window; refused edits and later copies change nothing; each gets one outcome |
| `FixEdits.RefusalIsTrue` | `internal/evaluator/fix_edits.go:73-105` | each refusal is given only when what it says is so |
| `FixEdits.OutcomesMatchEdits` | `internal/evaluator/fix_edits.go:63-110` | outcomes match the edits one for one and in order, and the applied set is what the outcomes say |
| `FixEdits.AllRefusedChangesNothing` | `internal/evaluator/fix_edits.go:33-36` | if all edits are refused the content is byte for byte the input |
| `FixEdits.CopiesAreSatisfied` | `internal/evaluator/fix_edits.go:66-72` | a later copy of an applied edit is reported applied and changes nothing |
| `FixEdits.FallbackSucceedsIff` | `internal/evaluator/fix_edits.go:115-148` | the tolerant fallback succeeds if and only if the trimmed anchor is not blank and exactly one window, overlapping ones counted, matches line by line under trimming |
| `FixEdits.FallbackChangesOneWindow` | `internal/evaluator/fix_edits.go:149-162` | on success all lines before and after that window are kept (CRLF read as LF) and the line count moves by replacement lines less anchor lines |
| `FixEdits.WindowKeepsIndent` | `internal/evaluator/fix_edits.go:149-163` | each line put in the window's place is empty when the replacement's is blank, and otherwise that line trimmed behind all the spaces and tabs the window's first line starts with |
| `FixEdits.LinesAre` | `internal/evaluator/fix_edits.go:115-132` | the lines of a file are its lines without their terminators, `\r\n` and `\n` in any mixture |
| `FixEdits.WindowIs` | `internal/evaluator/fix_edits.go:133-148` | a window matches when each of its lines and the anchor's line are the same once trimmed |
| `FixEdits.AnchorIsTrimmedLines` | `internal/evaluator/fix_edits.go:116-128` | joining the trimmed anchor and splitting it again gives its trimmed lines |
| `FixEdits.ApplyWhitespaceTolerant` | `internal/evaluator/fix_edits.go:115-163` | the window scan and the splice compute the fallback, and leave the content as it was when they decline |
| `FixEdits.ApplyFixEdits` | `internal/evaluator/fix_edits.go:46-111` | the loop over the edits computes the specified content and outcomes |
| `FixEdits.OnlyOneIsSole` | `internal/evaluator/fix_edits.go:14-20` | for an anchor that cannot overlap itself the one counted occurrence is the only one: nothing is picked |
| `FixEdits.EveryOneIsAll` | `internal/evaluator/fix_edits.go:96-100` | for an anchor that cannot overlap itself, replacing as many occurrences as identical edits were sent replaces all there are |
| `GoStrings.AllAreCountedIffUnbordered` | `internal/evaluator/fix_edits.go:89-100` | in every content with more than one counted occurrence all occurrences are counted, if and only if the anchor has no border |
| `GoStrings.CountIsTrueIffUnbordered` | `internal/evaluator/fix_edits.go:89-106` | a count of one means a single occurrence, in every content, if and only if the anchor has no border |
| `GoStrings.BorderedCountsOnce` | `internal/evaluator/fix_edits.go:89-106` | any bordered anchor has a content in which it occurs twice and counts once, so the first occurrence is taken arbitrarily |
| `GoStrings.EveryOccurrenceCounted` | `internal/evaluator/fix_edits.go:89-90` | an anchor without a border is counted wherever it occurs |
| `GoStrings.SplitOfJoin` | `internal/evaluator/fix_edits.go:116-128` | splitting what was joined from lines gives the lines |
| `SlnBuild.NothingLeftDisabled` | `internal/evaluator/csharp_projectref_autofix.go:1396-1522` | after the patch a listed dependency builds in every configuration in which the target builds: recomputing the disabled set gives none |
| `SlnBuild.SecondPassIsNoOp` | `internal/evaluator/csharp_projectref_autofix.go:1395-1522` | a second pass adds no row |
| `SlnBuild.BuildMatchesActive` | `internal/evaluator/csharp_projectref_autofix.go:1448-1494` | an inserted build row has the right-hand side in force for that project and configuration, if and only if the file did not already map it to nothing |
| `SlnBuild.AddedRowReads` | `internal/evaluator/csharp_projectref_autofix.go:1459-1483` | an added row has the dependency's own mapping for the configuration when that is not blank; else that of the least configuration, in string order, whose last active row is not blank; and the configuration's own name when there is none |
| `SlnBuild.BlankMappingMismatches` | `internal/evaluator/csharp_projectref_autofix.go:1465-1488` | a file with such a blank mapping: the build row disagrees with the active row |
| `SlnBuild.InsertedAre` | `internal/evaluator/csharp_projectref_autofix.go:1431-1504` | exactly the rows needed are inserted: those of listed dependencies in their disabled configurations |
| `SlnBuild.AddedRowsAre` | `internal/evaluator/csharp_projectref_autofix.go:1431-1494` | a row is added exactly for a listed dependency where the target builds and the dependency, case and spaces aside, does not; an active row only where the file has none |
| `SlnBuild.AddedRowsOrdered` | `internal/evaluator/csharp_projectref_autofix.go:1444-1494` | no row is added twice, and those of one dependency come in the order of their configurations, the active row before the build row |
| `SlnBuild.OnlyDependenciesTouched` | `internal/evaluator/csharp_projectref_autofix.go:1396-1522` | no other project's rows or mappings change |
| `SlnBuild.TargetUntouched` | `internal/evaluator/csharp_projectref_autofix.go:1396-1522` | the configurations in which the target itself builds do not change |
| `SlnBuild.ParseActiveRows` | `internal/evaluator/csharp_projectref_autofix.go:1092-1103` | the map the loop fills gives, per project and configuration, the last row's right-hand side |
| `SlnBuild.ParseBuildRows` | `internal/evaluator/csharp_projectref_autofix.go:1081-1091` | the map the loop fills gives the configurations in which each project builds |
| `SlnBuild.DiffConfigs` | `internal/evaluator/csharp_projectref_autofix.go:1223-1240` | the configurations of one list with no counterpart in the other up to case and spaces, sorted |
| `SlnBuild.CfgKeyIs` | `internal/evaluator/csharp_projectref_autofix.go:1227-1227` | white space around a name does not tell configurations apart |
| `SlnBuild.SqueezedConcat` | `internal/evaluator/csharp_projectref_autofix.go:1227-1227` | and byte by byte spaces vanish and capitals become small letters |
| `SlnBuild.TryAutoEnable` | `internal/evaluator/csharp_projectref_autofix.go:1396-1522` | the patched rows are the old ones in order followed by the specified insertions |
| `Reconcile.BackupsRestore` | `internal/generator/duplicate_artifacts.go:173-176` | replaying the backups gives the original file system back, after any number of groups and whichever reads, removes or writes fail |
| `Reconcile.OnlyAuthoredRemoved` | `internal/generator/duplicate_artifacts.go:51-67` | only redundant members recorded as authored by the tool are ever removed, and files of no group are untouched |
| `Reconcile.EachMemberReportedOnce` | `internal/generator/duplicate_artifacts.go:178-238` | one result per group in order, every redundant member in exactly one of merged and skipped |
| `Reconcile.TextHoldsAbsorbed` | `internal/generator/duplicate_artifacts.go:204-226` | the loop's text is the canonical text with exactly the absorbed members folded in, in order; EveryGroupOutcome says where it ends up |
| `ReconcileOutcome.EveryGroupOutcome` | `internal/generator/duplicate_artifacts.go:178-238` | of the final files and reports, whatever fails: in each attempted group a member is absorbed exactly when it can be read and merges into what was merged before it; with something absorbed the canonical file holds the canonical text with those members folded in, or what the failed write left, reported as not written; with nothing absorbed it is unchanged; merged members are gone and are among the absorbed, all others stand as they were, each with its true reason |
| `Reconcile.ReplayRestores` | `internal/generator/duplicate_artifacts.go:218-234` | backups that hold original contents and cover every difference undo any state |
| `Reconcile.ReconcilableLoop` | `internal/generator/duplicate_artifacts.go:53-67` | reconcilable exactly when there are redundant members and all are recorded as authored |
| `Reconcile.Disk.ReconcileDuplicates` | `internal/generator/duplicate_artifacts.go:180-238` | the loops over the mutable disk and backup list compute the specified run |
| `ChangeSummary.SummarizeAppliedChange` | `internal/evaluator/fix_attempt_memory.go:155-194` | before the cap: new file exactly for a blank before-text, no net change exactly when the multisets of trimmed non-blank lines agree, else their exact differences |
| `ChangeSummary.DifferenceIsExact` | `internal/evaluator/fix_attempt_memory.go:155-188` | before minus removed plus added is after, and no line is both removed and added |
| `ChangeSummary.DifferenceFromCounts` | `internal/evaluator/fix_attempt_memory.go:167-188` | the second loop, run on counters the first has raised, still takes exactly what is missing |
| `ChangeSummary.TakeShortfall` | `internal/evaluator/fix_attempt_memory.go:168-177` | one loop takes, line by line, exactly the shortfall of each line and raises its counter by as much |
| `LogPattern.FindIsLeftmost` | `internal/evaluator/fix_primary_progress.go:144-144` | the search from run to run of path bytes finds a match of the diagnostic pattern whenever there is one, the leftmost, and the only one that starts there |
| `LogPattern.FoundMatches` | `internal/evaluator/fix_primary_progress.go:144-144` | what it finds is a match of the pattern, path and span |
| `LogPattern.SourcePathIff` | `internal/evaluator/fix_primary_progress.go:144-144` | the paths meant are a stem of path bytes and one of the eight extensions |
| `LogPattern.FindInFront` | `internal/evaluator/fix_primary_progress.go:144-144` | a text closed off by white space is searched on its own: what follows counts only when nothing is found in it |
| `Words.CollapseConcat` | `internal/evaluator/fix_primary_progress.go:608-610` | what text appended to a complete line does to its collapsed form |
| `Words.CollapseIs` | `internal/evaluator/fix_primary_progress.go:608-610` | of words with any white space before, between and after them, the words joined by single spaces are left |
| `FileDiagnostics.BlocksTileTheLog` | `internal/evaluator/fix_file_progress.go:40-57` | the blocks are disjoint and consecutive, one per match, from the first diagnostic to the end of the log |
| `FileDiagnostics.ResultIsTheBags` | `internal/evaluator/fix_file_progress.go:61-68` | two logs get the same result if and only if every file has the same multiset of collapsed blocks or two texts its digest does not tell apart; the same multisets always give the same result |
| `FileDiagnostics.FileDiagnostics` | `internal/evaluator/fix_file_progress.go:35-69` | the offset loop and the per-file sort compute the specified entry for each named file and no others |
| `PrintedLogs.LogReads` | `internal/evaluator/fix_file_progress.go:40-57` | a log of printed diagnostics, with any texts free of locations between and after them, is read as one block each, owning the text that follows |
| `LogOrder.SwapShowsIff` | `internal/evaluator/fix_file_progress.go:63-66` | exchanging two diagnostics is invisible to the multisets if and only if the same words follow in both places or the two are the same |
| `LogOrder.OrderShowsIff` | `internal/evaluator/fix_file_progress.go:63-66` | two orders, with one text before every location and any text at the end, give the same multisets if and only if the two texts have the same words or the same diagnostic is last |
| `LogOrder.OrderNeverShowsIff` | `internal/evaluator/fix_file_progress.go:63-66` | no order can be told from another if and only if the same words stand everywhere between and after the diagnostics or all diagnostics are the same; the comment promises it always |
| `PrintedLogs.SwappedLog` | `internal/evaluator/fix_file_progress.go:35-69` | the same for whole logs and results of FileDiagnostics, up to a collision of the digest |
| `PrintedLogs.ReorderedLog` | `internal/evaluator/fix_file_progress.go:35-69` | the results for two orders of one log agree when tail and lead have the same words or the same diagnostic is last, and otherwise differ up to a collision of the digest |
| `PrintedLogs.SwappedMavenLines` | `internal/evaluator/fix_file_progress.go:63-66` | a concrete failure: two Maven errors before "[ERROR] BUILD FAILURE", in both orders |
| `PrintedLogs.SwappedMSBuildLines` | `internal/evaluator/fix_file_progress.go:63-66` | another, with nothing before the locations: two MSBuild errors before "Build FAILED." |
| `Stalls.StalledFiles` | `internal/evaluator/fix_file_progress.go:78-93` | the result is sorted, contains each written file that must count as stalled as often as it was written, and none that cannot |
| `Stalls.LookupDiagnostic` | `internal/evaluator/fix_file_progress.go:102-113` | answers with the entry under the path itself, else that of some path naming the same file, and fails only when there is none |
| `Stalls.SameFileIff` | `internal/evaluator/fix_primary_progress.go:620-633` | two paths name one file if and only if neither is empty and they are the same or one is the other behind some directories and a slash |
| `Stalls.UnchangedIsStalledIff` | `internal/evaluator/fix_file_progress.go:71-77` | with nothing changed, a file is certain to be reported whatever the fingerprints if and only if its path is a key or names the file of exactly one key; the map is ranged over in no fixed order |
| `Stalls.SameBagsStall` | `internal/evaluator/fix_file_progress.go:63-93` | from log to report: if every file has the same multiset of blocks as before and the path of a file reads one way, that file is certain to be reported when written |
| `PrintedLogs.ReorderedIsStalled` | `internal/evaluator/fix_file_progress.go:63-93` | a file is still certain to be reported when its diagnostics only changed places, if lead and tail have the same words or the same diagnostic is last |
| `Stalls.TwoModulesHideAStall` | `internal/evaluator/fix_file_progress.go:102-113` | the failure: with entries for `workspace/src/A.java` and `A.java`, an unchanged `src/A.java` may be reported or not |
| `Sorting.SortIsCanonical` | `internal/evaluator/fix_file_progress.go:63-64` | sorting forgets the order it was given |
| `Sorting.AtMostIff` | `internal/evaluator/fix_file_progress.go:63-64` | the order is that of bytes: a prefix, or the lesser at the first difference |
| `Props.AncestorImportChain` | `internal/dotnetproj/props.go:180-210` | collecting upwards and reversing in place gives exactly the files that apply, each once, farthest first |
| `Props.ChainReadsAsPromised` | `internal/dotnetproj/props.go:171-210` | the chain stays inside the repository, every file but the farthest imports its parent, and it ends at the nearest file of that name |
| `Props.ChainIsUnique` | `internal/dotnetproj/props.go:171-210` | the description determines the chain |
| `ProjectFacts.ResolveFacts` | `internal/dotnetproj/props.go:80-126` | the facts are those of props chain, project and targets chain laid over one another in that order, then completed from the nearest central file, with the first spelling of each package and the central opt-in |
| `ProjectFacts.NearestStatementWins` | `internal/dotnetproj/props.go:97-122` | a value in .targets overrules the project, which overrules .props |
| `ProjectFacts.LaterOverrides` | `internal/dotnetproj/props.go:137-157` | of two stretches of groups the later decides if it states anything, else the earlier |
| `ProjectFacts.LastWinsIsUnique` | `internal/dotnetproj/props.go:137-157` | there is only one last stated value |
| `ProjectFacts.CentralNeverAdds` | `internal/dotnetproj/props.go:282-310` | a package is present exactly when referenced; its version is the last one stated inline, else the first one pinned centrally; the central file adds and overrules nothing |
| `ProjectFacts.ReferencedIsIncludedIff` | `internal/dotnetproj/props.go:267-277` | the packages said to be referenced are those with an Include item if and only if every package an Update item names is also included; the comment says Update adds none |
| `ProjectFacts.UpdateIsRecorded` | `internal/dotnetproj/props.go:267-277` | the failure: a lone Update item is recorded as a reference |
| `ProjectFacts.Facts.ApplyProperties` | `internal/dotnetproj/props.go:137-157` | overlaying the unconditional groups keeps every property the last value stated so far |
| `ProjectFacts.Facts.ReadPackageReferences` | `internal/dotnetproj/props.go:225-265` | recording references keeps every version the last one stated and every name its first spelling |
| `ProjectFacts.LoneReferenceReads` | `internal/dotnetproj/props.go:225-277` | one item: Include, else Update, names the package; the version is the attribute's, else that of the child element unless the item is self-closing |
| `ProjectFacts.Facts.ResolveCentral` | `internal/dotnetproj/props.go:282-310` | blank versions are filled with the first central pin from the nearest file, nothing else moves |
| `ProjectFacts.LonePinFills` | `internal/dotnetproj/props.go:282-310` | of a central pin only the Version attribute counts |
| `ProjectFacts.FindCentral` | `internal/dotnetproj/props.go:312-336` | the nearest Directory.Packages.props inside the repository and the walk bound, or none |

## Left out

- Language-model calls, prompts, databases, version control, containers, mail and process control: input and output.
- The fix loop and its circuit breakers, and the configuration tables.
- Regular expressions other than the diagnostic pattern, XML, JSON, hashes and path normalisation: parameters or parsed data with the stated assumptions.
- Language dispatch by file extension: a `Language` or `Dialect` value instead; the texts of refusals and reports are datatypes.
- White space other than ASCII, Unicode case folding, and Java's `\uXXXX` translation before lexing.
- The regex-based shell, stray-character and low-value-test gates built on the strippers.
- Reading a solution file's text: rows are taken as parsed, so the byte offset of the insertion and the line endings are not modelled, and a test for a row's text in the section is a test for the row. The pattern for an active row yields a blank right-hand side only on the section's last row; on an earlier one it runs over the line end and takes the next row's text.
- Which dependencies are examined and in which solution file: the list of dependencies is an argument.
- Depth-first walk: project files and directories are named by numbers; sorting the answer's directories and the Directory.Build chain each project is read with are part of the data.
- The audit sink's file format, partial writes and payload marshalling; the queue's entries are opaque and a failed write leaves no line.
- AuditSink.EveryCallAccounted: writing a line and counting it are one step, so the moment between them, when the file is one line ahead of the counter, is not a state of the model.
- Redaction.RedactPayload: an encoder that fails is not modelled, because what it is given was decoded just before; numbers are whole.
- ProjectRefs.AnswerIsTheBall: that nothing within the limit is missed assumes that spellings agree. That is enough but not needed, since another reference can make up for one not read; NeverMissesIff says exactly for which paths nothing can be missed.
- Reachable.AnswerIsExact: assumes one project per directory, because SharedDirMisleads shows the walk wrong without it.
- Discovery and ranking of duplicate tests; the merge itself is a function that may refuse.
- A backup callback that is nil, and restoring directories or permissions.
- The cap and the rendering of change summaries, and the bounds of the attempt memory.
- PrintedLogs.ReorderedLog: each diagnostic ends its line, because a last line without a line feed would run into the text after it; other logs fall under ResultIsTheBags.
- SDK detection, framework monikers and the queries on the finished facts; TFM lists and language versions are read as the parsers return them.
- ResolveFacts' cleaning of paths and symbolic links: paths are sequences of segments, already clean.
