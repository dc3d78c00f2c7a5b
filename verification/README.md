# Verified model of the criper-mcp tool core

criper-mcp is a small MCP server that edits, searches and moves files below one root directory and runs
child processes there. This project models the parts of it whose behaviour is not plain from reading one
function, and proves what they promise:

- **`TextEdit.dfy`, `Patch.dfy`** (with `Json.dfy`): the four in-place edits of a byte string and the
  operation lists of `fs_patch`. The replacing loop with its moving cursor is proved against a split at
  the leftmost non-overlapping occurrences followed by a join; programs of edits compose, desugar and undo.
- **`Utf8.dfy`**: `sanitize_utf8` as a scanner with an exact algebra: its fixed points, when it
  distributes over concatenation, what it drops, and exactly when its output is valid under section 4 of
  RFC 3629.
- **`Lines.dfy`, `Tail.dfy`, `Grep.dfy`, `Walk.dfy`**: streaming `fs_tail` and `fs_grep` against
  definitions over the line array, and the recursive directory iterator behind `fs_find` and `fs_grep`
  against a pruned pre-order.
- **`Pump.dfy`, `Process.dfy`**: `execute_command` as a system of interleaved steps (a child that may do
  anything, three bounded pipes, a writer thread, two reader threads, a waiter with a deadline), and its
  single loops and descriptor handling as methods over an operating system whose calls may be interrupted,
  partial or failing.
- **`Paths.dfy`**: path resolution below the root on a tree with symbolic links, which the operating
  system follows up to a limit, and the printer of root-relative paths.
- **`FileTree.dfy`**: `fs_move` step by step on a tree that is a map from paths to nodes.
- **`JsonRpc.dfy`**: request dispatch and batches as a state-threading fold.
- **`Base.dfy`**: optional values, results with errors, byte strings.

What the source does by changing things in place is a class or a method with loops here, each proved
against a function on values; the laws are lemmas about those functions.

Where the code and its documentation differ, the code is modelled. The schema text of `fs_patch` says that
`all` applies to inserts and that the find text must not be empty; the code ignores `all` for both inserts
and lets the single replace prepend on an empty find text.

Properties that one might expect and that are false are stated with their counterexample or their exact
condition: no needle remains after replacing all (`DeletionLeavesNoneExactly`, `ReplacingLeavesNoneExactly`),
desugaring of operations with an empty find text (`DesugarExact`), concatenation and validity of sanitized
text (`SanitizeDistributesExactly`, `SanitizeValidExactly`, `OverlongPasses`), an entry is searched under its
own path (`OwnPathExactly`, `LinkIsSearchedAsTarget`), a reported path can be sent back
(`ReportedPathsResolve`), a move without leave to overwrite loses nothing (`NothingLostExactly`,
`MoveCanReplaceLink`), a failed move keeps its source (`FailedMoveKeepsSource`, `FailedMoveCanLoseSource`), a
timeout implies a signal exit (`TimeoutMayReportExit`, `KilledExactly`), the flat form of `fs_patch` is a
one-element list (`FlatFormIsOneElementList`, `FlatFormIsStricter`), a batch is its entries posted one by one
(`BatchIsSequential`, `ExceptionEndsBatch`).

Run `dafny verify dfyconfig.toml` to check the project.

## Model

| member | source | states |
|---|---|---|
| TextEdit.FindBehindCursor | src/fs_tools/support.cpp:592 | searching from a cursor is searching the text behind it and adding the cursor |
| TextEdit.SplitIsLeftmost | src/fs_tools/support.cpp:590-596 | the split spells the text, each part meets the needle only at its end, and the last part holds none |
| TextEdit.LeftmostSplitIsUnique | src/fs_tools/support.cpp:590-596 | those three facts determine the split, so they are an independent definition of the cuts the loop makes |
| TextEdit.ReplaceFirstMeaning | src/fs_tools/support.cpp:576-583 | the count is 0 or 1, it is 0 exactly when the needle occurs nowhere and then nothing changes; size law |
| TextEdit.ReplaceFirstActsOnLeftmost | src/fs_tools/support.cpp:576-583 | in any decomposition around a needle that starts nowhere earlier, exactly that occurrence is exchanged |
| TextEdit.ReplaceEveryMeaning | src/fs_tools/support.cpp:585-598 | count 0 exactly when the needle occurs nowhere; the size changes by count times the length difference |
| TextEdit.ReplaceEveryRoundTrip | src/fs_tools/support.cpp:585-598 | replacing by a mark whose bytes do not occur in the text, and back, restores the text with the same count |
| TextEdit.RoundsReachReplaceEvery | src/fs_tools/support.cpp:576-598 | replacing one occurrence at a time stops after exactly the replace-all count with the same text and no needle left, if needle and replacement are non-empty and share no byte |
| TextEdit.DeletionCanRevealNeedle | src/fs_tools/support.cpp:585-598 | for every needle that does not repeat one byte there is a text whose deletions leave exactly the needle |
| TextEdit.DeletionLeavesNoneExactly | src/fs_tools/support.cpp:585-598 | deleting all occurrences leaves none, whatever the text, exactly for the needles that repeat one byte |
| TextEdit.ReplacingLeavesNoneExactly | src/fs_tools/support.cpp:585-598 | for a needle that repeats one byte, replacing all leaves none, whatever the text, exactly if the replacement is empty, or does not hold the needle and does not end in its byte |
| TextEdit.InsertFirstIsReplaceFirst | src/fs_tools/support.cpp:600-618 | inserting beside the leftmost occurrence is replacing it by itself with the payload on that side |
| TextEdit.TextBuffer.ReplaceSingle | src/fs_tools/support.cpp:576-583 | the buffer and the returned count are those of replacing the leftmost occurrence; an empty needle prepends |
| TextEdit.TextBuffer.ReplaceAll | src/fs_tools/support.cpp:585-598 | the in-place cursor loop terminates and leaves the split of the original joined with the replacement, counting the cuts; an empty needle is refused |
| TextEdit.TextBuffer.InsertRelative | src/fs_tools/support.cpp:600-618 | the buffer becomes the original with the leftmost needle replaced by needle and payload in the asked order; an empty needle is refused |
| TextEdit.TextBuffer.DeleteSingle | src/fs_tools/support.cpp:620-631 | the leftmost occurrence is gone and nothing else; an empty needle is refused |
| Patch.ParseEncoded | src/fs_tools/fs_patch.cpp:112-132 | every operation is what its own JSON form is read as |
| Patch.WrittenForms | src/fs_tools/fs_patch.cpp:114-129 | how every kind of operation is written, with `op` or `type`, and what stands for the members that are not given |
| Patch.RunComposes | src/fs_tools/fs_patch.cpp:111-142 | running a list in two halves is running it whole: text, report and failing index |
| Patch.RunReportsEveryStep | src/fs_tools/fs_patch.cpp:134-141 | success reports one entry per operation, each with a match; failure names an operation of the list |
| Patch.RunOneMore | src/fs_tools/fs_patch.cpp:111-142 | one operation more edits the text so far and adds an entry with its own kind and count, or ends the run with its index and its error |
| Patch.RunFailsAtFirst | src/fs_tools/fs_patch.cpp:134-136 | a failing run has done all operations before the one it names, and that one fails on the text they leave |
| Patch.AllMeansEvery | src/fs_tools/fs_patch.cpp:122-129 | replace and delete with `all` exchange every needle of any leftmost split of the text and count them |
| Patch.OneMeansLeftmost | src/fs_tools/fs_patch.cpp:121-129 | otherwise exactly the leftmost occurrence is exchanged, deleted, or given the payload on the side asked for, and inserts do so with `all` as well |
| Patch.StepFailsExactly | src/fs_tools/fs_patch.cpp:134-136 | an operation fails exactly if its find text is empty and that is refused, or occurs nowhere, and with which error |
| Patch.RunSize | src/fs_tools/fs_patch.cpp:111-142 | the final size is the initial size plus the match-weighted size change of every operation |
| Patch.DesugarPreservesRuns | src/fs_tools/fs_patch.cpp:121-132 | rewriting inserts to replacements by find text and payload, and deletes to replacements by nothing, keeps final text, match counts and failing index of every program |
| Patch.DesugarExact | src/fs_tools/fs_patch.cpp:121-132 | for which single operations that rewriting is sound on every text: all but inserts and single deletes with an empty find text |
| Patch.UndoRestores | src/fs_tools/fs_patch.cpp:124-129 | deleting the payloads of fresh inserts in reverse order restores the original, one match each |
| Patch.MakeOperationFromArguments | src/fs_tools/support.cpp:183-206 | the object that is filled member by member is the restriction of the arguments to those of an operation, with replace as the default kind, and the same first error |
| Patch.ApplyInPlace | src/fs_tools/fs_patch.cpp:120-132 | the dispatch leaves the content and the count that the operation means, or the content unchanged and an error |
| Patch.CallFsPatch | src/fs_tools/fs_patch.cpp:95-148 | the file ends as the whole run says, or, when any operation fails, byte for byte as it was |
| Patch.CallRunsItsList | src/fs_tools/fs_patch.cpp:106-111 | a call with a list of encoded operations runs exactly those; one with no array for a list fails |
| Patch.FlatFormIsOneElementList | src/fs_tools/support.cpp:183-206 | the flat arguments succeed exactly when the one-element list does and both text arguments are strings, and then with the same outcome |
| Patch.FlatFormIsStricter | src/fs_tools/support.cpp:183-206 | a deletion with a `replace` argument of the wrong type: the list form runs it, the flat form refuses it |
| Utf8.SanitizeUtf8 | src/fs_tools/fs_grep.cpp:13-67 | the byte loop computes the scan on every input |
| Utf8.SanitizeIsShaped | src/fs_tools/fs_grep.cpp:13-67 | the output is a concatenation of complete lead and continuation units |
| Utf8.SanitizeFixedPoints | src/fs_tools/fs_grep.cpp:13-67 | exactly the concatenations of complete units pass unchanged; sanitizing is idempotent |
| Utf8.SanitizeSize | src/fs_tools/fs_grep.cpp:19-24 | at most three bytes come out per byte that goes in |
| Utf8.SanitizeShows | src/fs_tools/fs_grep.cpp:13-67 | however a text is taken apart into complete units, single bytes at which none starts and a short rest, the output shows the units as they are and one U+FFFD for every other piece |
| Utf8.ScanExists | src/fs_tools/fs_grep.cpp:13-67 | every text can be taken apart in that way |
| Utf8.ReplacementIsFFFD | src/fs_tools/fs_grep.cpp:19-24 | the three bytes that are put in are the valid encoding of U+FFFD |
| Utf8.SanitizeDistributesExactly | src/fs_tools/fs_grep.cpp:44-47 | sanitizing a+b is sanitizing a and b apart, for every b, exactly when the scan of a does not end in the short-tail branch |
| Utf8.EndsShortLocally | src/fs_tools/fs_grep.cpp:44-47 | the scan ends in the short-tail branch exactly when one of the last three bytes announces a unit that runs past the end |
| Utf8.AsciiIsConserved | src/fs_tools/fs_grep.cpp:44-47 | no ASCII byte is lost, added or moved except those among the at most three bytes dropped at a short tail |
| Utf8.StrictCharExactly | src/fs_tools/fs_grep.cpp:35-61 | a unit is a character of the RFC 3629 grammar exactly when it is not overlong, a surrogate or above U+10FFFF |
| Utf8.SanitizeKeepsValid | src/fs_tools/fs_grep.cpp:13-67 | text valid under section 4 of RFC 3629 passes unchanged |
| Utf8.SanitizeValidExactly | src/fs_tools/fs_grep.cpp:13-67 | the output is valid exactly when no copied unit is overlong, a surrogate or above U+10FFFF |
| Utf8.OverlongPasses | src/fs_tools/fs_grep.cpp:49-63 | an overlong unit is copied through, so validity is not guaranteed |
| Lines.LineReader.GetLine | src/fs_tools/fs_grep.cpp:148-157 | each successful call takes the first line off the lines that are left; it fails exactly at the end |
| Lines.LinesSpellText | src/fs_tools/fs_tail.cpp:39-49 | the lines hold no newline and, stacked, spell the text without its final newline |
| Lines.LineCount | src/fs_tools/fs_tail.cpp:43-49 | there are as many lines as newlines, and one more if the text does not end in one |
| Tail.CallFsTail | src/fs_tools/fs_tail.cpp:28-75 | the single pass with its bounded window returns what the line array says; zero lines are refused |
| Tail.TailLines | src/fs_tools/fs_tail.cpp:43-72 | the result is the last min(k, n) lines under their true numbers, truncated exactly when n > k |
| Tail.TailContent | src/fs_tools/fs_tail.cpp:51-73 | the content is a suffix of the text without its final newline, and all of it exactly when not truncated |
| Grep.LiteralMeaning | src/fs_tools/support.cpp:433-456 | a literal pattern matches exactly where it occurs, up to letter case on request; ignoring case loses no match |
| Grep.MatchingIsAccepting | src/fs_tools/support.cpp:441-456 | the same for every matcher, a regular expression being asked itself |
| Grep.SameLetter | src/fs_tools/support.cpp:433-439 | what ignoring case identifies: equal bytes, and the two cases of an ASCII letter |
| Grep.HitsAreTheMatches | src/fs_tools/fs_grep.cpp:159-193 | one hit for every accepted line and no other, in order, with the true path, number, text and context lines, and only the line itself flagged |
| Grep.FileHitsMeaning | src/fs_tools/fs_grep.cpp:133-193 | the same for the hits of a file; a file that is skipped has none |
| Grep.WindowSize | src/fs_tools/fs_grep.cpp:159-197 | neither context window exceeds the requested number of lines at the loop head |
| Grep.WindowSlides | src/fs_tools/fs_grep.cpp:195-222 | every way to advance keeps the window around the next line, and the loop ends at the last line |
| Grep.RefillNeverReads | src/fs_tools/fs_grep.cpp:209-219 | when a line is read with nothing ahead, no context was asked for, so the refill loop reads no line |
| Grep.FillLookahead | src/fs_tools/fs_grep.cpp:152-157 | the filling loop takes the next lines off the stream, up to the requested number, and appends them under their true numbers |
| Grep.ReportHit | src/fs_tools/fs_grep.cpp:162-191 | the match object built from the two windows and the current line is the line's hit: own number, sanitized text, context in order with only that line flagged |
| Grep.SearchFile | src/fs_tools/fs_grep.cpp:133-224 | the streaming pass appends the first hits of the file, up to the limit, each with lines max(1,l-c) to min(n,l+c) |
| Grep.ReportedHits | src/fs_tools/fs_grep.cpp:133-224 | so what the pass adds to the matches are true hits of this file, all of them unless the limit is reached |
| Walk.PrunedVisitsTheReachable | src/fs_tools/support.cpp:424-431 | the pruned pre-order visits exactly the entries reachable without crossing a .git, .hg or .svn directory |
| Walk.PrunedIsPreOrder | src/fs_tools/fs_find.cpp:90-95 | no entry is visited twice, a directory comes before what is in it, and entries in the order of their directory |
| Walk.RecursiveIterator.Increment | src/fs_tools/fs_find.cpp:90-95 | one increment delivers the rest of the walk, with or without what is below the current entry, and makes progress |
| Walk.OwnPathExactly | src/fs_tools/fs_find.cpp:96 | the text that the recursive search matches is the entry's own path below the searched directory exactly when the entry lies there; for a link that leads somewhere it is the path of what it leads to |
| Walk.LinkIsSearchedAsTarget | src/fs_tools/fs_find.cpp:96 | a link to a file beside it is searched under the name of that file |
| Walk.SearchVisitsTheTree | src/fs_tools/support.cpp:424-431 | over a tree with links, the recursive search visits exactly the nodes below the directory that are not ignored directories and lie in none |
| Walk.LocationIsCanonical | src/fs_tools/support.cpp:370-374 | where an entry is said to lie is the canonical path of the entry in the tree, links and dangling links included |
| Walk.ReportedPathsResolve | src/fs_tools/support.cpp:410 | a reported path sent back resolves to where the matching entry really lies if that is under the root, and is refused as escaping the root if it is not, for every form of the search and every tree |
| Walk.FindRecursive | src/fs_tools/fs_find.cpp:90-100 | the walk returns the first matches of the pruned pre-order, matched and reported with links followed; truncated exactly when there are more than the limit |
| Walk.CallFsFind | src/fs_tools/fs_find.cpp:66-112 | the same for all three forms of the search; only the recursive one prunes and matches relative paths, the others match names |
| Walk.FindMeaning | src/fs_tools/fs_find.cpp:50-112 | the result holds matches only, in the order of the walk, and all of them if it is not truncated; if it is, it is full and lacks only later ones. A match is told by where the entry is found, its own kind, the pattern in its path or name, and the path it is reported under |
| Walk.FindLimits | src/fs_tools/fs_find.cpp:78-81 | a smaller limit gives a prefix, and a larger one adds matches exactly when the result was truncated |
| Walk.GrepDirectory | src/fs_tools/fs_grep.cpp:226-244 | the first hits of the concatenated hit lists of all files, under the paths they really have, with one limit shared across files |
| Walk.CallFsGrep | src/fs_tools/fs_grep.cpp:226-257 | truncated exactly when at least the limit exists; anything but a file or directory is refused |
| Walk.GrepMeaning | src/fs_tools/fs_grep.cpp:226-257 | every hit is true of a file that the search reads, links followed, under the path where that file lies; if not truncated, every accepted line of every such file is reported |
| Walk.GrepLimits | src/fs_tools/fs_grep.cpp:255 | a smaller limit gives a prefix; a truncated result is complete exactly when there are as many hits as the limit |
| Pump.StepKeepsInv | src/fs_tools/support.cpp:538-566 | every step of the writer, a reader, the waiter, the clock or the child keeps the invariant |
| Pump.Conservation | src/fs_tools/support.cpp:70-103 | over every interleaving, bytes taken by the child and in its pipe are a prefix of the input text, and collected plus buffered output is all that the child wrote |
| Pump.FinalMeaning | src/fs_tools/support.cpp:558-573 | when all joins return: whole output at end of file, every pipe end closed once, child reaped once, a kill only with a timeout |
| Pump.NoUseAfterClose | src/fs_tools/support.cpp:538-563 | once the parent has closed an end, no step of any later interleaving writes to it, reads from it or closes it |
| Pump.StepDecreases | src/fs_tools/support.cpp:538-563 | every step that is not a retry or an early poll decreases the measure |
| Pump.RunsAreBounded | src/fs_tools/support.cpp:538-563 | no interleaving does more work than the measure of its first state, for a finite child |
| Pump.NeverStuck | src/fs_tools/support.cpp:538-563 | in every reachable state that is not final some actor can move, for every pipe capacity and every next call of the child |
| Pump.MaximalRunsAreFinal | src/fs_tools/support.cpp:561-563 | after every interleaving, all joins have returned exactly when no actor can move, and with a finite child that comes after boundedly many working steps |
| Pump.FiniteChildFinishes | src/fs_tools/support.cpp:561-563 | from every reachable state with a finite child, actors that can move bring all joins to return |
| Pump.AllJoinsReturn | src/fs_tools/support.cpp:538-563 | from every reachable state, with a child that may never stop or hangs, all joins can return, at the latest through the timeout |
| Pump.TimeoutBoundsEveryRun | src/fs_tools/support.cpp:117-124 | after the deadline and three turns of the waiter, every interleaving has bounded work left and is stuck only with all joins returned, whatever the child |
| Pump.TimeoutEndsChild | src/fs_tools/support.cpp:117-124 | once the deadline has passed no child, finite or not, survives three turns of the waiter |
| Pump.TimeoutMayReportExit | src/fs_tools/support.cpp:117-124 | a call that has returned with all joins may report a timeout and a normal exit code, having killed nothing |
| Pump.KilledExactly | src/fs_tools/support.cpp:117-124 | a call that has returned has killed its child exactly when the child did not end by itself; then it reports a timeout and the signal |
| Pump.StatusIsReported | src/fs_tools/support.cpp:556-571 | the exit code that is returned is the one that the child chose, or 128 and the signal it died of, if it ended by itself, and 137 otherwise |
| Pump.TextsAreReported | src/fs_tools/support.cpp:542-566 | the texts that are returned are exactly what the child's own writes moved, in order, unless a read failed, and a prefix then; what it took is the start of the input text |
| Pump.CatEchoes | src/fs_tools/support.cpp:471-575 | for every text that fits the pipes there is a run in which the child copies its input to its output and exits with any code, and just that is returned |
| Process.ReadFromFd | src/fs_tools/support.cpp:70-89 | what is collected and what is left are the stream; without an error the text is complete, whatever the chunks and interrupts |
| Process.WriteAllToFd | src/fs_tools/support.cpp:91-103 | a prefix is handed over, and without an error everything, through partial writes and interrupts |
| Process.WaitForProcess | src/fs_tools/support.cpp:105-127 | a call that returns has reaped once and gives the status of the child; it throws exactly if a wait failed; one kill exactly when it timed out |
| Process.OpenPipes | src/fs_tools/support.cpp:482-494 | a failing pipe call leaves no descriptor of this call open |
| Process.Launch | src/fs_tools/support.cpp:478-540 | which failure is thrown when; failures leave the descriptor table as it was, success leaves exactly the three near ends open, each the other end of the pipe that the child has as that standard descriptor |
| Paths.NormalForm | src/fs_tools/support.cpp:154 | normalising ends in the normal form of [fs.path.generic], keeps exactly what is in it, and is idempotent |
| Paths.PathHasPrefix | src/fs_tools/support.cpp:236-247 | the iterator loop decides the prefix relation on components |
| Paths.CombinedIsNormal | src/fs_tools/support.cpp:149-171 | whatever the client sends, what is handed to `weakly_canonical` consists of names only |
| Paths.CanonicalIsStable | src/fs_tools/support.cpp:172 | with whatever links: a canonical form is its own canonical form, and what exists of it is free of links |
| Paths.CombinedRelativeString | src/fs_tools/support.cpp:370-374 | a printed path followed from the root is the path that was printed, below the root or outside |
| Paths.ResolveRelativeString | src/fs_tools/support.cpp:370-374 | resolving the printed relative form of a canonical path gives it back exactly if it lies under the root, and exists where that is asked for; which error it gives if not |
| Paths.ResolveIsIdempotent | src/fs_tools/support.cpp:165-181 | a result lies under the root and resolves to itself again in absolute and in relative form, whatever links there are |
| Paths.ResultsHoldNoLiveLink | src/fs_tools/support.cpp:172-181 | an existing result leads to itself, through no link; a result that does not exist holds at most one link below the root, dangling, as its first component that does not exist |
| Paths.LinkLeadsToTarget | src/fs_tools/support.cpp:172 | a link that names a real node, by its absolute path or relative to its own directory, leads to that node |
| Paths.ResolveWithoutLinks | src/fs_tools/support.cpp:149-181 | where absolute paths inside and outside the root and relative paths of non-negative running depth resolve to |
| Paths.StaysBelowExactly | src/fs_tools/support.cpp:171 | the running depth goes below the start exactly when the normal form still climbs |
| Paths.RelativeResolvesExactly | src/fs_tools/support.cpp:165-176 | a relative path is accepted exactly when every level it climbs out of the root is entered again by name |
| FileTree.FileSystem.CreateParents | src/fs_tools/fs_move.cpp:39-41 | all missing ancestors become directories, or none when one of them is something else |
| FileTree.FileSystem.RemoveExistingPath | src/fs_tools/support.cpp:458-469 | exactly the subtree at the path is removed, except that a dangling link is left alone |
| FileTree.FileSystem.Copy | src/fs_tools/fs_move.cpp:49-53 | the entry-by-entry recursive copy adds exactly the source subtree, files, directories and links, under the destination |
| FileTree.FileSystem.CallFsMove | src/fs_tools/fs_move.cpp:33-57 | the steps leave the tree and the error that the move on values says, on one device with any destination, and across two |
| FileTree.MoveMeaning | src/fs_tools/fs_move.cpp:33-57 | a successful move re-roots exactly the source subtree and leaves every other node but replaced ones and new parents |
| FileTree.MoveKeepsClosed | src/fs_tools/fs_move.cpp:33-57 | whatever the outcome, every node still lies in a directory |
| FileTree.MoveSucceedsExactly | src/fs_tools/fs_move.cpp:33-57 | the exact condition for success; paths that contain each other fail although only equality is checked, and a dangling link as destination is no obstacle to a file |
| FileTree.MoveFails | src/fs_tools/fs_move.cpp:33-57 | which error stops a move when, and what the tree is then: unchanged before the rename is tried, and after that up to created ancestors and a removed destination |
| FileTree.NothingLostExactly | src/fs_tools/fs_move.cpp:36-47 | a successful move without leave to overwrite keeps every node outside the source exactly if the destination was no dangling link |
| FileTree.MoveCanReplaceLink | src/fs_tools/fs_move.cpp:36-47 | a file moved onto a dangling link without leave to overwrite: the link is gone |
| FileTree.FailedMoveKeepsSource | src/fs_tools/fs_move.cpp:42-57 | a failed move has kept the source exactly when it had not removed an existing destination around or inside it |
| FileTree.FailedMoveCanLoseSource | src/fs_tools/fs_move.cpp:42-47 | told to overwrite an entry of the source, the move removes it and then fails |
| FileTree.MoveBack | src/fs_tools/fs_move.cpp:33-57 | moving back undoes a move to a free place |
| JsonRpc.DispatchMeaning | src/mcp_server.cpp:98-186 | ids are echoed, only tool calls change state, which requests are refused with which code, and when the serialiser throws |
| JsonRpc.AnswersAre | src/mcp_server.cpp:119-183 | what each method does and answers: a tool call is made once, with the name and arguments sent, and its result is the answer |
| JsonRpc.WritableExactly | src/mcp_server.cpp:170-180 | a value can be written exactly if every text in it, however deep, is valid UTF-8 |
| JsonRpc.RefusalsReachClient | src/mcp_server.cpp:188-233 | which posted bodies are answered with -32700, -32600, -32602 and -32601, and that such a body changes nothing |
| JsonRpc.BadEntryIsAnswered | src/mcp_server.cpp:212-216 | an entry that is no object is answered with -32600 |
| JsonRpc.Server.HandlePayload | src/mcp_server.cpp:188-233 | the loop over the batch threads the state and collects the replies; only a bare object, or the serialiser, throws out of it |
| JsonRpc.Server.HandleHttpRequest | src/mcp_server.cpp:301-322 | the state and body of posting, thrown errors and parse errors converted |
| JsonRpc.BatchIsSequential | src/mcp_server.cpp:211-226 | a batch has the state and the replies, in order, of its entries posted one by one, exactly if none of them ends with an exception of the serialiser; if one does, all replies are lost and the state is that of the entries up to it |
| JsonRpc.BatchAnswersEverything | src/mcp_server.cpp:211-226 | replies plus accepted initialized notifications are as many as the entries, unless an exception ended the batch |
| JsonRpc.NoEmptyArray | src/mcp_server.cpp:207-232 | an empty array is never sent, and exactly when nothing is sent |
| JsonRpc.BatchOfOne | src/mcp_server.cpp:211-232 | a batch of one object carries the response of the bare object, error conversion included |
| JsonRpc.BatchesCompose | src/mcp_server.cpp:211-226 | a batch in two halves is the second half run from the state of the first |
| JsonRpc.ErrorsAreIsolated | src/mcp_server.cpp:218-225 | an entry answered with an error changes neither the state nor any other reply |
| JsonRpc.ExceptionEndsBatch | src/mcp_server.cpp:218-225 | after an entry whose reply cannot be written nothing more is run, and nothing is answered |

## Left out

- HTTP routes, CORS headers, logging, the command line, environment variables and the JSON schemas of the tools.
- `git` operations, the Landlock sandbox, octal permissions and the thin tools `fs_list`, `fs_read`, `fs_write`, `fs_mkdir`, `fs_remove`, `fs_chmod`, `fs_stat`, `fs_copy`: they would only add easy members.
- Regular expressions: a regex matcher is an arbitrary predicate on lines. The letter case of literal matching is that of ASCII.
- Whether a file looks binary, and whether it can be opened, is a flag of the file.
- Texts, counts and line numbers are unbounded; no allocation fails and no 64-bit counter overflows.
- Patch.CallFsPatch: the target is a regular file that has been resolved already, and writing it back succeeds; a disk error while writing, and the re-reading of the written file, are not part of this model.
- Json.ToolError: errors are kept by cause, not by message text.
- Pump.NeverStuck: only the direct child holds the far ends of the pipes; descendants that keep them open are not modelled. A write to a pipe without a reader returns an error.
- Pump.StepKeepsInv: `waitpid` does not fail in the step system (`Process.WaitForProcess` models its failure), and real time is one step at which the deadline has passed.
- Process.Launch: of the steps of the child between fork and exec only which pipe ends become its standard descriptors is modelled, not the change of directory and the environment; a child that cannot start is one that ends with code 127.
- Paths.ParsePath: a trailing separator leaves no empty last component.
- Paths.Resolve: permissions are not modelled, and a trailing separator in the target of a link is dropped. Links count against one limit per path, and more of them than that are an error.
- FileTree.FileSystem.CallFsMove: source and destination are resolved already, a subtree lies on one device, special files do not occur, and nothing else changes the tree meanwhile. Copying across devices onto a dangling link, which writes through the link, is not part of this model.
- TextEdit.ReplacingLeavesNoneExactly: for a needle of different bytes and a replacement that is not empty there is only the sufficient condition of `TextEdit.RoundsReachReplaceEvery`, that they share no byte.
- Walk.RecursiveIterator: reading a directory does not fail, no link needs more links than allowed, and the tree does not change during a search.
- JsonRpc.DispatchRequest: the code's own rules are modelled where they are not those of JSON-RPC 2.0: requests without an id are answered, array parameters are refused, error replies carry a null id. Of writing a reply as text only its failure is modelled.
