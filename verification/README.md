# A verified model of the line editor, the box store, the SQL evaluator and the request reader

Four hand-written parts of the program are modelled in Dafny, each in the form its C code has (classes and
methods that update arrays and fields in place), against specifications on values about which the
properties are proved.

**The line editor** (`amalg/shell.c`; modules `Bytes`, `Lines`, `Terminal`, `EditLine`, `History`,
`Completer`, `Completion`, `DocFormat`, `Listing`, `Session`, `Display`, `Shell`). The 1024-byte edit buffer
refines a zipper. The terminal is the edited row, the cursor column, and the number of rows the cursor stands
below the edited one; plain bytes and the escape sequences that the editor writes act on it. A session is a
function of the byte stream typed (`Session.Run`), and so is what the screen then shows
(`Display.ScreenAfter`); `Shell.Editor` is the imperative program that refines both, with its history array of
owned strings, its match array, the match table and the documentation printed below the line.

**The box store** (`src/pobox.c`; modules `Office` and `OfficeThreads`). `Office` is the linked list as a
sequential class that refines an association list and through it a map. `OfficeThreads` is the same
list under its spinlock, as a state machine in which any number of threads take single steps (acquire, look at
one node, call back, free a value, link a node, store its key, store its value, release).

**The SQL evaluator** (`src/sqlite3/main.c`; module `SqlEval`). The database engine is an oracle: a record of
functions for compiling, binding and stepping, about which only termination is promised. `Pipeline` says what
an evaluation does, `Reference` what evaluating one statement after the other would do, and `Connection` is the
program, with a ledger of everything that happens to statement handles.

**The request reader** (`src/puny-server.c`; module `ReadTcp`). What the socket delivers is a sequence of
chunks and timeouts. The answer is specified on the bursts between timeouts; the program grows a buffer chunk by
chunk and scans it again each time.

## What the proofs found

- With an empty prompt and the cursor at the start of the line, a redraw writes `ESC [0C`, which terminals read
  as a move by one: the cursor stands one column too far right. `Terminal.RedrawIsExact` says that this is the
  only case in which a redraw is not exact. On terminals that erase the last cell when `ESC [0K` follows a full
  row, a slice that fills the row loses its last byte; `Terminal.CursorIsVisible` says where.
- A prompt wider than the terminal, or as wide with the cursor at the end of the line, gives the slice of a
  redraw a negative length, and no other one does (`EditLine.FitSlice`).
- The branch for `ESC O H` and `ESC O F` ("Home (some keyboards)") is nested where the byte after ESC is known
  to be `[`, so it is never taken and each sequence types its last letter (`Session.EscapeOTypesItsLetter`). It
  does what the key it is meant to be would do only in a full line with the cursor there already
  (`Session.EscapeOIsHomeOrEndExactly`). The model follows the code.
- When the longest match plus four is wider than the terminal, the match table wraps and the cursor does not
  return to the edited row; it returns if and only if that is not so (`Listing.TableReturns`). The same holds
  of the lines about a documented value. `Shell.Editor.HandleAll` says for every byte stream typed whether the
  terminal shows the line.
- A second Tab can change the line (`Completion.CompleteTwiceCanDiffer`): a symbol with a space in it completes
  to a text whose last symbol completes further. `Completion.SecondTabExactly` says when it changes nothing:
  among other cases, whenever the first Tab typed symbol characters only (`Completion.CompleteTwice`).
- A session that is cancelled leaves its empty draft in the history (`Session.CancelLeavesDraft`); the
  history stays free of empty entries, without browsing, exactly when sessions are accepted
  (`Session.TidyExactlyWhenAccepted`).
- The word wrapper cuts a word exactly where a non-blank continues a word that already fills a line of its own;
  the words printed are those of the text if and only if that happens nowhere (`DocFormat.DocFormat`).
- A `cget` of a missing key, or an error raised by the callback of `cupdate`, returns with the lock held, and
  these are the only steps that leak it (`OfficeThreads.LeaksExactly`,
  `OfficeThreads.LeakedExactlyWhenLogged`); nobody can use the store again after that
  (`OfficeThreads.LeakIsForever`). Mutual exclusion survives. A `cupdate` of a missing key and a put on the
  empty key crash, and nothing else does (`OfficeThreads.CrashesExactly`). A fresh store reaches each of these
  in three steps of one thread (`OfficeThreads.CrashesAndLeaksAreReachable`).
- Statement k+1 is compiled before statement k runs, so a script that creates a table and then uses it fails
  with nothing run (`SqlEval.LookaheadDiffers`): its second statement fails to compile ahead, and the first is
  skipped. Where what compiles ahead compiles in turn to the same, the two orders agree when no statement with
  an effect stands in front of one that does not compile ahead, and only then, unless evaluating one statement
  after the other ends in a compile error as well (`SqlEval.PipelineIsReference`).
- The bound on indexed parameters admits one value too many; the engine's own range check makes that harmless
  (`SqlEval.BindFromNeedsParams`).
- A request whose first chunk ends inside the value of the length field makes the reader copy a negative number
  of bytes (`ReadTcp.SplitLengthCrashes` gives one). Such a cut is the only way in which chunking matters
  (`ReadTcp.ChunkingMattersExactly`, `ReadTcp.CutMattersExactly`), unless a chunk fills the array it is received
  into: then the reader overruns that array, if it still reads at all (`ReadTcp.CrashesExactly`). A socket that delivers nothing more leaves
  the reader polling for ever.

## Model

| member | source | states |
|---|---|---|
| Terminal.RedrawIsExact | amalg/shell.c:232-263 | whatever was on the row before, a redraw's escape sequence leaves prompt, visible slice and blanks on it (without the last cell where the terminal erases that), and the cursor on its byte if and only if the prompt is non-empty, the cursor is not at the start, or there is one column |
| Terminal.CursorIsVisible | amalg/shell.c:236-247 | the redrawn row keeps the whole prompt, the cursor always lies on it, and every cell behind the prompt shows the byte of the line that is as far from the cursor as the cell is, save a last cell that the terminal erases |
| Terminal.AppendIsRedraw | amalg/shell.c:281-286 | writing one byte at the end of a line that does not scroll is the same as redrawing the longer line |
| Terminal.FeedInRow | amalg/shell.c:250-253 | output that stays on the row overwrites exactly its own cells |
| Terminal.FeedReturns | amalg/shell.c:656-666 | output that starts with a newline leaves the edited row alone, and moving up by its newlines returns to the row it started from if and only if every line of it fits the terminal; otherwise the cursor stays further down |
| EditLine.SkipBackIsMaximal | amalg/shell.c:360-367 | a backward loop over spaces (or non-spaces) stops at the start of the maximal run, and nowhere else |
| EditLine.SkipAheadIsMaximal | amalg/shell.c:377-384 | a forward loop over spaces (or non-spaces) stops at the end of the maximal run, and nowhere else |
| EditLine.BackspaceWordRemovesTheMotion | amalg/shell.c:360-412 | the word deletion removes exactly what the word motion moves over: the maximal run of spaces left of the cursor and the maximal run of non-spaces before it |
| EditLine.DeleteWordRemovesSpacesThenWord | amalg/shell.c:414-422 | the forward deletion removes exactly a maximal run of spaces and the maximal run of non-spaces behind it |
| EditLine.WordRightCrossesWordThenSpaces | amalg/shell.c:377-385 | the forward motion crosses non-spaces first and then spaces, unlike the forward deletion |
| EditLine.SymbolEndIsMaximal | amalg/shell.c:678-680 | the cursor leaves a symbol at the end of its maximal run of symbol characters |
| EditLine.SymbolStartIsMaximal | amalg/shell.c:450-464 | the symbol before the cursor is a maximal run of symbol characters |
| EditLine.FitSlice | amalg/shell.c:236-247 | for every prompt width the scroll loops end; with a prompt narrower than the terminal at the visible slice, and at a negative length exactly for a prompt wider than it, or as wide with the cursor at the end |
| EditLine.Buffer.constructor | amalg/shell.c:126-137 | an empty, terminated buffer on a blank row |
| EditLine.Buffer.Begin | amalg/shell.c:731-740 | an empty line; once the prompt is written the row shows the redraw of it if and only if nothing else stands on the row |
| EditLine.Buffer.Refresh | amalg/shell.c:232-263 | the row shows the redraw of the current line and cursor if the cursor was on the row and unless the prompt is empty and the cursor at the start; a cursor below the row stays below |
| EditLine.Buffer.Insert | amalg/shell.c:276-298 | a byte goes between the text left and right of the cursor unless 1023 are there; the fast path shows what a redraw would |
| EditLine.Buffer.Backspace | amalg/shell.c:387-394 | the byte left of the cursor goes, and nothing else |
| EditLine.Buffer.Delete | amalg/shell.c:396-402 | the byte under the cursor goes, and nothing else |
| EditLine.Buffer.Left | amalg/shell.c:353-358 | the cursor moves, the text stays, and the row follows |
| EditLine.Buffer.Right | amalg/shell.c:370-375 | the cursor moves, the text stays, and the row follows |
| EditLine.Buffer.WordLeft | amalg/shell.c:360-368 | the cursor moves to the start of the word, and the text stays |
| EditLine.Buffer.WordRight | amalg/shell.c:377-385 | the cursor moves behind the word and the spaces after it, and the text stays |
| EditLine.Buffer.BackspaceWord | amalg/shell.c:404-412 | repeated backspaces amount to cutting the word before the cursor |
| EditLine.Buffer.DeleteWord | amalg/shell.c:414-422 | repeated deletions amount to cutting the spaces and the word behind the cursor |
| EditLine.Buffer.KillRight | amalg/shell.c:793-797 | everything right of the cursor goes |
| EditLine.Buffer.KillLeft | amalg/shell.c:811-818 | everything left of the cursor goes |
| EditLine.Buffer.Home | amalg/shell.c:752-755 | the cursor moves to the start, and the text stays |
| EditLine.Buffer.End | amalg/shell.c:774-777 | the cursor moves to the end, and the text stays |
| EditLine.Buffer.Clear | amalg/shell.c:798-801 | a blank screen with the redrawn line as its first row, wherever the cursor was |
| EditLine.Buffer.SkipSymbol | amalg/shell.c:678-680 | the loop, which only the final NUL stops, ends within the line and moves the cursor past the symbol |
| EditLine.Buffer.SymbolPrefix | amalg/shell.c:450-464 | the symbol that ends at the cursor |
| EditLine.Buffer.Load | amalg/shell.c:311-313 | the copy of at most 1023 bytes is always terminated, so the length found is that of the entry, cut to 1023, and the cursor is at its end |
| History.SessionsKeepTidy | amalg/shell.c:319-351 | over any accepted lines: at most 100 entries, none empty, no two adjacent ones equal, and they are the newest of what a boundless history would keep |
| History.SessionIsTidy | amalg/shell.c:319-351 | one accepted line keeps that, and a non-empty line comes first |
| History.SessionFollowsKept | amalg/shell.c:336-351 | one accepted line keeps the entries a prefix of what a boundless history would keep |
| History.HistoryArray.constructor | amalg/shell.c:136-138 | no entry, and no string owned |
| History.HistoryArray.Add | amalg/shell.c:319-334 | the new entry comes first, the oldest of 100 is freed, and the slots keep owning distinct live strings |
| History.HistoryArray.Replace | amalg/shell.c:336-351 | the draft is overwritten, or dropped when the line is empty or repeats the entry below; the string it owned is freed once |
| History.HistoryArray.SaveAndMove | amalg/shell.c:300-310 | the live line replaces the current entry, nothing else changes, and the index is clamped |
| History.HistoryArray.Deinit | amalg/shell.c:932-938 | every string still live is freed, each once |
| History.ShiftUp | amalg/shell.c:330-332 | the entries move up one slot |
| History.ShiftDown | amalg/shell.c:341-343 | the entries move down one slot |
| Completer.CompareIsTotal | amalg/shell.c:466-471 | the comparison is antisymmetric, and 0 only for equal strings when they hold no NUL |
| Completer.LeIsTransitive | amalg/shell.c:466-471 | the comparison is transitive on all byte strings |
| Completer.TakeThenInsert | amalg/shell.c:473-488 | dropping what exceeds 256 before an insertion makes no difference to what is kept after it |
| Completer.SwapStep | amalg/shell.c:479-485 | one conditional swap of the pass extends a sorted insertion by one element |
| Completer.KeepEnvIsKept | amalg/shell.c:631-643 | keeping candidates one by one over the tables of an environment chain is sorting them all and taking the first 256 |
| Completer.KeepAllIsKept | amalg/shell.c:685-687 | the same with the special forms added at the end |
| Completer.SortIsSorted | amalg/shell.c:473-488 | the specification sorts: an ordered permutation of the candidates |
| Completer.KeptAreSmallest | amalg/shell.c:473-488 | what is kept and what is dropped make up all candidates with the prefix, every kept one is no larger than any dropped one, and nothing is dropped unless 256 are kept |
| Completer.KeptMembers | amalg/shell.c:473-477 | every match is a candidate and starts with the prefix |
| Completer.KeptOfLongerPrefix | amalg/shell.c:682-687 | searching again with a longer prefix that all the kept matches share keeps the same list, even when candidates were dropped |
| Completer.FilterSorted | amalg/shell.c:473-488 | selecting by a prefix commutes with sorting |
| Completer.LcpIsLongest | amalg/shell.c:494-512 | a string is a prefix of every match if and only if it is a prefix of the computed one |
| Completer.LcpOfSorted | amalg/shell.c:494-512 | on sorted matches the first and the last one alone determine the common prefix |
| Completer.Sandwich | amalg/shell.c:466-471 | what lies between two strings with a common prefix has that prefix |
| Completer.StrncmpIsPrefix | amalg/shell.c:477 | the comparison of the prefix's length finds exactly the strings that start with it |
| Completer.CommonPrefixIsLongest | amalg/shell.c:501-509 | the prefixes of both of two strings are the prefixes of their computed common prefix |
| Completer.CommonLength | amalg/shell.c:503-508 | the inner loop stops where the two strings part |
| Completer.MatchArray.CheckMatch | amalg/shell.c:473-488 | the array stays sorted, takes the candidate if it starts with the prefix, and drops only the largest when full |
| Completer.MatchArray.BubbleIn | amalg/shell.c:478-485 | the pass of swaps leaves the array and the carried string the sorted insertion of the candidate |
| Completer.MatchArray.FindMatches | amalg/shell.c:631-643 | every symbol of every table of the chain is offered, in order, to an empty array |
| Completer.MatchArray.CheckSpecials | amalg/shell.c:514-527 | every special form is offered to the array |
| Completer.MatchArray.Collect | amalg/shell.c:685-687 | the array holds the first 256 of the sorted candidates that start with the prefix |
| Completer.MatchArray.LongestCommonPrefix | amalg/shell.c:494-512 | the longest common prefix of the matches, nothing when there are none |
| Completion.CompleteReplacesSymbol | amalg/shell.c:678-692 | with an environment, a match and room, Tab turns the symbol at the cursor into the longest common prefix of the kept matches, puts the cursor behind it, and alters no other byte |
| Completion.SecondTabExactly | amalg/shell.c:670-692 | for every line and environment, a second Tab changes nothing if and only if there was no match, the line is full, the completion consists of symbol characters, it ends in no symbol, or its last symbol has no match or no longer common prefix of its own |
| Completion.CompleteStaysExactly | amalg/shell.c:670-692 | at a cursor with no symbol behind it, Tab changes nothing if and only if there is no match, nothing to add, or no room |
| Completion.CompletedIs | amalg/shell.c:678-692 | the symbol before the cursor after Tab is the last symbol of the common prefix, unless the line is full |
| Completion.CompleteTwice | amalg/shell.c:670-692 | a second Tab changes neither text nor cursor, however many candidates were dropped and however little room there was, when what was typed consists of symbol characters |
| Completion.CompleteTwiceCanDiffer | amalg/shell.c:670-692 | a scope and a line on which the second Tab types a further byte |
| Completion.SymbolicScopeSuffices | amalg/shell.c:670-692 | candidates that consist of symbol characters meet the condition |
| Completion.InsertFromIs | amalg/shell.c:690-692 | typing the rest of the prefix adds all of it, or what fills the line, left of the cursor |
| Completion.LcpExtendsPrefix | amalg/shell.c:494-512 | the common prefix of the matches is at least the prefix searched for, and a prefix of every match |
| Completion.PastSymbolIs | amalg/shell.c:678-680 | leaving the symbol changes no byte |
| Completion.CompleteIsValid | amalg/shell.c:670-692 | Tab keeps the line within the buffer and free of NULs |
| Completion.CompleteIsPlain | amalg/shell.c:670-692 | names without control bytes bring none into the line |
| DocFormat.DocFormat | amalg/shell.c:560-629 | for every text and width: nothing but blanks is added or lost, no line exceeds the indent plus the larger of 2 and the line width, the newlines counted are those printed and are those of the text plus the breaks it needs, one word more is printed for each word cut, the words are the text's words if and only if none is cut, and the 256-byte word buffer is never overrun |
| DocFormat.AddByte | amalg/shell.c:570-596 | one byte of a word keeps layout, content and the bound on the pending word |
| DocFormat.EndWord | amalg/shell.c:597-615 | a space or a newline writes the pending word and keeps layout and content |
| DocFormat.Finish | amalg/shell.c:618-628 | the word pending at the end is written like the others |
| DocFormat.WordIsCut | amalg/shell.c:571-579 | a break before a byte that does not fit a line of its own cuts the word the byte continues, and no other |
| DocFormat.WordMovesDown | amalg/shell.c:571-579 | a word that does not fit behind others moves to a new line whole |
| DocFormat.WordFlushed | amalg/shell.c:599-609 | a pending word is separated from the text before it and fits on its line |
| DocFormat.ShortRunsAreNotCut | amalg/shell.c:570-596 | no word is cut in a text whose runs are shorter than a line |
| DocFormat.NarrowParasDoNotBreak | amalg/shell.c:570-628 | no break is added to a text whose paragraphs fit on a line |
| Listing.TableFits | amalg/shell.c:706-721 | when the columns fit side by side no line of the table is longer than the terminal |
| Listing.TableReturns | amalg/shell.c:706-724 | moving up by the newlines counted leaves the edited row unchanged, and returns to the row the table was started from if and only if a column is no wider than the terminal |
| Listing.Columns | amalg/shell.c:707-708 | there is at least one column, and the columns fit side by side whenever one does |
| Session.ReadKey | amalg/shell.c:745-923 | every key takes at least one byte and no more than the input has, so every session ends |
| Session.KeysTypePrintableBytes | amalg/shell.c:748-751 | no key types a NUL or another control byte |
| Session.StepKeepsValid | amalg/shell.c:741-924 | every key keeps the line within 1023 bytes without NUL, the history's length, and the index in range |
| Session.StepKeepsPlain | amalg/shell.c:741-924 | no key brings a control byte into the line or the history unless a symbol name holds one |
| Session.RunKeepsValid | amalg/shell.c:730-926 | so does every byte stream, and none brings in a control byte unless a symbol name holds one |
| Session.StepChangesOnlyCurrent | amalg/shell.c:300-317 | browsing leaves what is shown unchanged and only moves the index, clamped; any other key changes at most the entry being edited |
| Session.BrowsingLosesNothing | amalg/shell.c:300-317 | any sequence of moves loses no text, and a move by plus or minus 100 always reaches the oldest entry or the draft |
| Session.RunChangesOnlyVisited | amalg/shell.c:730-926 | over a whole run an entry that was never edited is never changed |
| Session.RunWithoutBrowsing | amalg/shell.c:730-926 | a run without browsing leaves the stored entries alone |
| Session.EscapeOTypesItsLetter | amalg/shell.c:834-869 | the sequences meant as Home and End type an H and an F, on every line |
| Session.EscapeOIsHomeOrEndExactly | amalg/shell.c:856-869 | that is what Home or End would do if and only if the line is full and the cursor is at its start or its end |
| Session.AcceptedWithoutBrowsing | amalg/shell.c:949-975 | an accepted session without browsing does to the history what the sessions of `SessionsKeepTidy` do |
| Session.AcceptedSessions | amalg/shell.c:949-975 | any number of accepted sessions of typed bytes without browsing do to the history what their lines do |
| Session.TypedSessionsKeepTidy | amalg/shell.c:949-975 | whatever bytes are typed in such sessions from an empty history, it has no empty and no adjacent equal entries, and holds the newest lines that a boundless history would keep |
| Session.TidyExactlyWhenAccepted | amalg/shell.c:949-975 | without browsing, a session leaves the history without empty or repeated entries if and only if its line is accepted |
| Session.CancelLeavesDraft | amalg/shell.c:962-966 | a cancelled session leaves an empty entry first, whatever the history was |
| Display.RoomyStaysShown | amalg/shell.c:730-926 | where every candidate leaves four cells and every line about a value fits, no byte stream loses the line |
| Shell.Editor.ClearLines | amalg/shell.c:265-274 | the rows below are visited and the cursor returns to the row it started from; the edited row is unchanged |
| Shell.Editor.RenderMatches | amalg/shell.c:706-721 | the printed bytes are the table of the matches, and the newlines are counted |
| Shell.Editor.LongestMatch | amalg/shell.c:696-699 | the length of the longest match: one match attains it and none exceeds it |
| Shell.Editor.ListMatches | amalg/shell.c:706-726 | the edited row is unchanged, and the cursor returns to it if and only if the longest match plus four fits the terminal |
| Shell.Editor.CompleteSymbol | amalg/shell.c:670-728 | the line changes as the completion specification says, and the cursor ends below its row if and only if a table was printed, with one symbol or with lines below, whose matches leave less than four cells |
| Shell.Editor.ShowDocumentation | amalg/shell.c:645-668 | the text is unchanged, the cursor leaves the symbol, and the terminal returns to the row if and only if nothing was printed or every line about the value fits |
| Shell.Editor.RenderDoc | amalg/shell.c:657-664 | the newlines counted are those printed, and every line printed fits the terminal if and only if the lines about the value do |
| Shell.Editor.RenderHeader | amalg/shell.c:657-661 | three newlines, the lines about the value and an empty one, counted as printed |
| Shell.Editor.HistoryMove | amalg/shell.c:300-317 | buffer, history array and index move together as the browsing specification says, and the row is redrawn |
| Shell.Editor.Handle | amalg/shell.c:747-923 | every key that does not end the session does to buffer and history what the step specification says, and to the screen what the screen specification says: the row shows the redraw exactly when that predicts it |
| Shell.Editor.HandleNext | amalg/shell.c:742-923 | reading and handling one key is one unfolding of the run and of the screen specification |
| Shell.Editor.HandleAll | amalg/shell.c:741-924 | for every byte stream the program ends in the state and with the exit of the run specification, and as long as no key has ended the session the terminal shows the full redraw of the line if and only if everything printed below it fitted, or the screen was cleared since |
| Shell.Editor.Line | amalg/shell.c:730-926 | the same from the prompt on, on a blank row, with the draft added to the history |
| Shell.Editor.GetLine | amalg/shell.c:949-975 | an accepted line is returned with a newline and recorded, any other session returns nothing and leaves the entries; the next row is edited next, whatever stands on it |
| Office.Find | src/pobox.c:65-83 | the position of a key is that of its first occurrence |
| Office.FindUnique | src/pobox.c:71-78 | the walk's first match is the position of the key |
| Office.LookupIsMap | src/pobox.c:65-83 | looking a key up in a list of distinct keys is looking it up in the map of the list |
| Office.PutIsUpdate | src/pobox.c:85-136 | a put is a map update that keeps the sentinel first and the keys distinct, moves and loses no key, touches no other value, and is what a lookup finds afterwards |
| Office.PutAllIsMap | src/pobox.c:85-136 | any sequence of puts gives the map of the last value put under each key |
| Office.PutAllKeepsKeys | src/pobox.c:85-136 | no key ever disappears or moves |
| Office.Bytecmp | src/pobox.c:29-48 | 0 if and only if the byte strings are equal |
| Office.Office.constructor | src/pobox.c:50-63 | the list holds the empty-key sentinel alone |
| Office.Office.TableGet | src/pobox.c:65-83 | the node of the key, null if and only if there is none |
| Office.Office.Walk | src/pobox.c:97-105 | the node of the key, or the last node |
| Office.Office.TablePut | src/pobox.c:85-136 | the list stays acyclic, an existing node's value is replaced in place, and otherwise one new node is linked behind the others, which stay; it crashes, with nothing changed, if and only if the key is empty |
| OfficeThreads.StepKeepsInv | src/pobox.c:150-219 | every step of every thread keeps the invariant that ties the list under construction to the completed calls |
| OfficeThreads.RunKeepsInv | src/pobox.c:150-219 | so does every interleaving |
| OfficeThreads.Linearizable | src/pobox.c:150-219 | for any number of threads and any interleaving, the completed calls are the first to have acquired the lock, in that order, and each returned what it returns on a plain map in that order; every callback was given the value left by the calls before |
| OfficeThreads.RecordsOnlyGrow | src/pobox.c:150-219 | what has been recorded is never changed |
| OfficeThreads.RealTimeOrder | src/pobox.c:150-219 | a call that has completed when another is made comes before it in the order of the lock |
| OfficeThreads.ReplayIsMap | src/pobox.c:85-136 | the list after the completed calls is well-formed and is the map that the calls build |
| OfficeThreads.SequentialAt | src/pobox.c:150-219 | each completed call answers as it does on that map |
| OfficeThreads.NoUpdateIsLost | src/pobox.c:175-202 | when all updates of a key apply one function, the box holds the value last made with the function applied once for every update completed since |
| OfficeThreads.MutualExclusion | src/pobox.c:150-219 | in every reachable state, leaked or crashed ones included, at most one thread is between lock and unlock, and only that thread changes the list |
| OfficeThreads.LeaksExactly | src/pobox.c:160-163 | the lock is leaked by a step if and only if a get reaches the end without finding its key, or a callback raises an error |
| OfficeThreads.LeakIsForever | src/pobox.c:155-163 | after a leak no call acquires the lock, completes, or changes the list |
| OfficeThreads.LeakedExactlyWhenLogged | src/pobox.c:155-202 | in every reachable state the lock is leaked if and only if some get has returned nothing or some callback has raised an error |
| OfficeThreads.CrashesExactly | src/pobox.c:107-111 | a step crashes if and only if it is an update that reaches the end of the list without finding its key, or a put on the empty key |
| OfficeThreads.CrashesAndLeaksAreReachable | src/pobox.c:150-219 | three steps of one thread on a fresh store reach each crash and a leaked lock |
| OfficeThreads.HolderAdvances | src/pobox.c:155-219 | every step of a lock holder whose key is present, and whose callback returns, brings the release nearer and does not crash |
| OfficeThreads.OthersWait | src/pobox.c:155-219 | no step of another thread disturbs the lock holder |
| OfficeThreads.HolderReleases | src/pobox.c:155-219 | such a lock holder can always go on until it releases the lock, within a bounded number of its own steps |
| SqlEval.BindFromNeedsParams | src/sqlite3/main.c:146-155 | a sequence that binds has no more values than the statement has parameters, although the check admits one more |
| SqlEval.WhatHasRun | src/sqlite3/main.c:297-331 | if compiling statement k+1 fails exactly the first k-1 have run; if binding it fails exactly k have; success means all have; a failed evaluation has no rows |
| SqlEval.RanInOrder | src/sqlite3/main.c:297-328 | for every engine: the statements run are the first of the script, in order, each bound, each compiled in the state that all before it but the last have left; the database ends as they leave it |
| SqlEval.PipelineIsReference | src/sqlite3/main.c:297-331 | when what compiles ahead compiles in turn to the same, the outcome is that of evaluating one statement after the other if no statement that fails or changes the database is skipped because the next one does not compile ahead, and only if, unless that too ends in a compile error or, then, what fails ahead fails in turn |
| SqlEval.PipelineRunsCurrent | src/sqlite3/main.c:298-328 | the same from any turn of the loop on |
| SqlEval.OnlyCompileErrorsSkip | src/sqlite3/main.c:299-316 | an evaluation that reports no compile error has skipped nothing |
| SqlEval.StateFreeAgrees | src/sqlite3/main.c:300-303 | an engine whose compiler never looks at the database compiles ahead as in turn |
| SqlEval.AgreesAheadIsEnough | src/sqlite3/main.c:300-303 | a script all of whose statements compile ahead as in turn meets the condition of the equivalence |
| SqlEval.LookaheadDiffers | src/sqlite3/main.c:299-316 | a table created and then used: the outcomes differ; the script meets the condition above and a statement is skipped, but none is when the table is there before |
| SqlEval.HandleLife | src/sqlite3/main.c:283-338 | every statement handle is opened, then only used, then closed once, and nothing happens to it afterwards |
| SqlEval.OpenWereOpened | src/sqlite3/main.c:283-338 | at most two handles are open at any time |
| SqlEval.Connection.constructor | src/sqlite3/main.c:68-78 | an open connection without statements |
| SqlEval.Connection.Close | src/sqlite3/main.c:35-41 | the engine is told to close exactly once, however often this is called |
| SqlEval.Connection.BindAll | src/sqlite3/main.c:139-202 | parameters are bound in order up to the first that fails, and no other statement is touched |
| SqlEval.Connection.BindIndexed | src/sqlite3/main.c:146-155 | value i is bound to parameter i+1 |
| SqlEval.Connection.BindDictionary | src/sqlite3/main.c:156-197 | empty slots are skipped, and a key without a parameter in range is an error |
| SqlEval.Connection.Execute | src/sqlite3/main.c:204-217 | the statement is stepped to its end or its error |
| SqlEval.Connection.ExecuteCollect | src/sqlite3/main.c:219-280 | the same, with all its rows in order |
| SqlEval.Connection.Turn | src/sqlite3/main.c:298-328 | one turn of the loop is one unfolding of the pipeline, holds one handle afterwards, and consumes input if it goes on |
| SqlEval.Connection.ErrorTurn | src/sqlite3/main.c:300-303 | a statement that does not compile ends the evaluation without the current one being run |
| SqlEval.Connection.EvalAll | src/sqlite3/main.c:297-331 | the loop ends as the pipeline says, with no handle open |
| SqlEval.Connection.Eval | src/sqlite3/main.c:283-338 | on every exit (closed connection, embedded NUL, compile, bind or step error, success) the database, the statements run and the result are those of the pipeline, and every handle opened is finalized |
| ReadTcp.SearchFindsFirst | src/puny-server.c:103-109 | a search finds the first occurrence, and nothing else is found |
| ReadTcp.NameHasNoCr | src/puny-server.c:118-130 | a CR found behind the field name lies behind its 16 bytes |
| ReadTcp.ChunkingMattersExactly | src/puny-server.c:92-188 | two deliveries of the same bytes and timeouts have the same outcome if and only if both or neither cut the length value between two chunks while it is scanned, or a scan fails however the bytes are cut |
| ReadTcp.CutMattersExactly | src/puny-server.c:95-163 | one cut, wherever it is made, changes no burst, and makes a scan fail if and only if scanning goes on there and the bytes before it hold the field name without a CR behind it |
| ReadTcp.JoinedScans | src/puny-server.c:95-137 | a scan fails if and only if one fails with the chunks joined, or a cut falls into the length value |
| ReadTcp.JoinedBursts | src/puny-server.c:95-163 | joining chunks changes no burst |
| ReadTcp.MalformedExactly | src/puny-server.c:118-130 | a scan fails on exactly the texts with the field name and no CR from there on |
| ReadTcp.AnswerIsComplete | src/puny-server.c:93-188 | a request returned is the exact concatenation of the bytes received, contains the end of the header section, and has at least as many bytes behind it as were announced when that end was seen |
| ReadTcp.MoreIsEnough | src/puny-server.c:173-183 | the second loop returns the first text that is long enough, all bytes kept |
| ReadTcp.SplitLengthCrashes | src/puny-server.c:116-130 | a request of 26 bytes that is answered when it comes in one chunk and crashes the reader when it is cut behind its first digit |
| ReadTcp.ScanLength | src/puny-server.c:105-137 | the length found is the one announced, and the scan fails if and only if no CR follows the field name |
| ReadTcp.NoLengthBefore | src/puny-server.c:107-109 | a field once seen is seen by every later scan, so the length is never stale |
| ReadTcp.Receiver.Append | src/puny-server.c:97-101 | the chunk is added behind the bytes held, and the capacity keeps exceeding them |
| ReadTcp.Receiver.Terminate | src/puny-server.c:186 | the final NUL fits and changes no byte received |
| ReadTcp.ReceiveHeader | src/puny-server.c:92-164 | the first loop stops at the first timeout after the end of the header section was seen, or fails exactly when a scan does |
| ReadTcp.ReceiveBody | src/puny-server.c:173-184 | the second loop reads bursts until the request is long enough |
| ReadTcp.ReadTcp | src/puny-server.c:74-189 | for every sequence of chunks and timeouts the result is the request specified on bursts, waiting for ever, or a crash |
| ReadTcp.CrashesExactly | src/puny-server.c:93-184 | the reader crashes if and only if a scan finds a length without its end, or a chunk of 1024 bytes comes before the request is complete |
| ReadTcp.ReadSmall | src/puny-server.c:74-189 | the same for chunks that leave room for the NUL behind them |

## Left out

- Terminal modes, signals, `ioctl` and the fallback for dumb terminals: Ctrl-C only cancels, Ctrl-Z only
  repaints, and the terminal width is constant within a session.
- The terminal is one row, a column and a count of rows below: what is printed further down is not kept, the
  bottom of the screen does not scroll or stop the cursor, and every byte takes one column (no UTF-8 width).
- Screens wider than 999 columns, for which the editor's move to the left edge falls short.
- EditLine.Buffer.Begin: requires the prompt to be narrower than the terminal; `EditLine.FitSlice` says when a
  wider one makes a redraw run off the buffer.
- Shell.Editor.HandleAll: says what the terminal shows when the prompt is not empty, nothing printed holds a
  control byte, and there are at least six columns, room for the indent of a documentation text.
- Shell.Editor.CompleteSymbol: requires symbol names to be free of NULs, as C strings are.
- Shell.Editor.ShowDocumentation: the lines about a symbol's value are a parameter, and so is the documentation
  found for it.
- Shell.Editor.Line: what the terminal shows is predicted for a session that starts on a blank row.
- Session.ReadKey: the end of the input inside an escape sequence gives the sequence up; the program looks at a
  byte that was never read.
- History.HistoryArray.Replace: resets the index, which the program does when the next session starts.
- Failed writes and allocations everywhere.
- Racing calls of the first-time initialisation, and the bytes written one past exact-size allocations.
- Office.Office.TableGet: is the view of one thread; nodes under construction are states of `OfficeThreads`.
- OfficeThreads.Linearizable: an argument of the wrong type, which raises an error under the lock like a callback
  does, a callback that re-enters the store or returns something else than a buffer are not modelled.
- The engine behind SQL statements, column types and names, conversion of values, and the prefix written in
  front of a keyword's name: values, rows and bindings are abstract.
- SqlEval.PipelineIsReference: is silent on a script one of whose statements compiles ahead, but to something else
  than in turn; and where both orders end in a compile error, but what fails ahead compiles in turn, they may
  agree by accident.
- SqlEval.WhatHasRun: the engine is assumed to consume text with every statement it compiles and to yield
  finitely many rows.
- ReadTcp.ReadTcp: requires chunks without NUL; a NUL cuts the copy short and leaves uninitialised bytes in the
  buffer. Searches look at the bytes received only, although the program's buffer is not terminated while it is
  searched; the copy of the length value is read as terminated, and numbers do not overflow.
- Listening, accepting, timeouts as numbers, the Windows branch, and logging in the server.
- The generated or thin wrappers for curl, cairo, OpenSSL, libpq, UDP, the web view and terminal input: they hold
  no state of their own.
