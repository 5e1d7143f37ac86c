# Verified model of the Command Language

The Command Language (`pkg/cl`) compiles scripts to cells of one array and interprets them, and does its bookkeeping
in flat arrays and hand-linked lists. This project models the parts of it where that bookkeeping is intricate, and
proves what they are for. State that the program changes in place is a class whose methods change it in place; each
method is proved against a function of the old state, and the properties are lemmas about these functions, for all
inputs and for all runs.

| files | what they model |
|---|---|
| `ClCode`, `ClLegal`, `Simulation`, `LaidLemmas`, `ClCompiler` | the control-flow statements, which are accepted, their meaning, the back-patching compiler and the interpreter's branches and jump tables |
| `GotoList` | labels, forward gotos and the list threaded through their argument cells |
| `ImplicitLoopSpec`, `ImplicitLoopCode`, `ImplicitLoopCompiler`, `ImplicitLoop` | implicit loops over array sections: odometer, offset decoding, the code of a statement with open indices, how it is compiled and run |
| `HistorySpec`, `HistoryRuns`, `History` | the circular history buffer, the search through it, and whole sessions of commands and lookups |
| `SubstituteSpec`, `Substitute` | the `^str1^str2^g` editor |
| `ProcessCacheSpec`, `ProcessCacheProps`, `ProcessCache` | the cache of connected processes |
| `DictionarySpec`, `Dictionary` | cutting the chains of the dictionary back to a mark |
| `TaskStackSpec`, `TaskStackProps`, `TaskStack` | task frames: call, exec, end of task, keep |
| `ProcParams` | reordering the parameters of a procedure script |
| `StringInt` | "string + integer" |
| `StringTable` | printing a table of strings |
| `BkgJobs` | the table of background jobs |
| `Chains`, `Arith`, `Wrappers` | linked chains, arithmetic, options and constants, shared |

An error the program reports with `cl_error`, which does not return, is a `None` or `false` result. Integers are
unbounded, as the program's own arithmetic is only modelled where it stays in range.

## What the proofs found

Where a property that the code or its comments suggest does not hold, the exact condition is proved:

- `for` statements share one global flag for "has a test" (`pkg/cl/grammar.y:1441-1500`). A `for` whose body contains
  another one is compiled properly, and leaves the control stack as it was, exactly when the last `for` in the body
  has a test if and only if it has one itself (`ClCompiler.Compiler.CompileFor`); one that lost its test this way goes
  on into its body whatever the test says (`Simulation.TestIgnored`).
- `find_history` takes an unchanged write position for an unchanged buffer (`pkg/cl/history.c:834-836`). Over a whole
  session no lookup is misled exactly when, at each search, the write position has moved since the last one, or the
  records it skips take the same room as then (`HistoryRuns.TransparentRuns`, `HistorySpec.StaleIff`); a session that
  goes wrong is `HistoryRuns.WrongRecord`.
- A spawn that fails leaves an empty slot at the head of the process cache. The list is then in order of use exactly
  when no process is alive but the stale one that the connect itself closes (`ProcessCacheProps.ConnectLru`,
  `ProcessCacheProps.SpawnFailedIff`, `ProcessCacheProps.FailedSpawnBreaksOrder`). Out of order, the name an empty slot
  still carries can hide a process from a lookup by name (`ProcessCacheProps.NameFinds`).
- `restor` assumes that the parameters of a pfile lie all above or all below the mark (`pkg/cl/exec.c:1013-1016`). A
  surviving pfile is cut right exactly when its first parameter, if any, is below the mark; otherwise `pf_pp` is left
  pointing at a discarded parameter (`DictionarySpec.PfileExact`, `DictionarySpec.LeftLeading`,
  `DictionarySpec.FirstParamAbove`).
- `poptask` returns to the caller's frame exactly when the caller had no temporaries on the control stack at its CALL
  (`TaskStackProps.PopsCallerIff`, `TaskStackProps.TemporaryAtCall`).
- An entry survives a call exactly when it was in the dictionary at the last `keep` that reached the caller
  (`TaskStackProps.SurvivesIffKept`), given that a keep reaching further out finds `topd` at the caller's mark. The
  implicit keep before `cl` in nested scripts does not when the arguments of the call allocate
  (`TaskStackProps.UnlevelKeep`).
- An implicit loop over an array with an empty dimension still runs: the number of iterations is the number of
  elements exactly when no dimension is empty (`ImplicitLoopSpec.IterationsIff`).
- `stredit` never reports "No match" for an empty text (`SubstituteSpec.NoMatchIff`), and a directive built from two
  strings is read back exactly when neither ends in a backslash and the second has no newline
  (`SubstituteSpec.DirectiveRoundTrip`). Newlines and tabs can be written with the metacharacter, but a backslash just
  before one is then lost (`SubstituteSpec.WrittenRoundTrip`).
- With a negative integer, adding twice to a string is not adding the sum; the exact conditions are
  `StringInt.ActionOnNumber` and `StringInt.ActionOnName`.
- The lines of a table stay within `last_col` exactly when the longest string shown fits (`StringTable.LinesFitIff`).
- `unsetigoto` takes an entry at address 0 for the head of the list; it is right exactly when the entry before the one
  removed is not at 0, which holds when newer gotos have higher addresses (`GotoList.UnsetRightIff`,
  `GotoList.UnsetRight`).
- `igoto1` is never cleared, so gotos to undefined labels stay on the list for later scripts. The gotos of these
  arrive all the same; the list ends exactly when what was left of it ends, and need not
  (`GotoList.GotosArrive`, `GotoList.EndsIff`, `GotoList.LeftoverLoops`).
- `bkg_spawn` never tries the slot used last: it reports that no slot is left exactly when all the others are busy,
  whether or not that one is free (`BkgJobs.JobTable.FindSlot`, `BkgJobs.RefusedThoughFree`).

## Model

| member | source | states |
|---|---|---|
| `Simulation.ProgramRuns` | `pkg/cl/exec.c:57-83` | compiler correctness: the machine stops in a given way on the compiled program exactly when the source program finishes that way, for every interpretation of the instructions that do not branch and every state; hence it runs forever exactly when the source does |
| `Simulation.ProgramSimulates` | `pkg/cl/exec.c:57-83` | with enough fuel the machine is as far as the source: stopped with the same state if the source has finished, otherwise still running after at least as many steps |
| `Simulation.Simulates` | `pkg/cl/opcodes.c:273-284` | a statement laid out anywhere in the code leaves it at its end, at the NEXT or at the BREAK destination of the loop around it, just as its meaning says, in the same state |
| `Simulation.DispatchChooses` | `pkg/cl/opcodes.c:1219-1282` | on a table built by setswitch the SWITCH instruction goes to the body of the last CASE that lists the value, else of the DEFAULT, else to the GOTO after it |
| `Simulation.ChosenMeans` | `pkg/cl/opcodes.c:1219-1282` | which block that is, said outright, in both directions |
| `Simulation.BreakRuns` | `pkg/cl/grammar.y:1598-1622` | a BREAK, first or later in its loop, ends up past the loop, by way of the first one |
| `Simulation.FirstBreakInside` | `pkg/cl/grammar.y:1598-1622` | the GOTO that stands for a loop's first BREAK lies inside the statement |
| `Simulation.TestIgnored` | `pkg/cl/grammar.y:1441-1500` | what a `for` does whose test lost its branch: the body is entered whether the test is true or false |
| `LaidLemmas.LaidKept` | `pkg/cl/gram.c:1021-1033` | the code of a statement survives every write outside it and the late patch of the enclosing loop's BREAK |
| `LaidLemmas.PatchDone` | `pkg/cl/gram.c:1036-1119` | after the last writes of setswitch the blocks are laid out, every closing GOTO and the GOTO after the SWITCH go to the cell past the table, and the table is complete |
| `LaidLemmas.BodyDone` | `pkg/cl/gram.c:1021-1033` | closing a loop makes its first BREAK, and with it all others, go past the loop |
| `ClCompiler.Compiler.CompileProgram` | `pkg/cl/grammar.y:1340-1634` | the compiler accepts a script exactly when NEXT and BREAK are inside loops nested at most MAX_LOOP deep; then the code of the script is laid out at the old pc, END after it, and every other code cell and the control stack are as before |
| `ClLegal.LegalIff` | `pkg/cl/gram.c:1003-1018` | which scripts are accepted: exactly those whose loops are nested no deeper than MAX_LOOP and whose NEXTs and BREAKs are all in loops |
| `ClLegal.FlagIsOfLast` | `pkg/cl/grammar.y:1441-1500` | the flag a `for` is compiled by: after any statement it says whether the last `for` of the text has a test, inside another one or not |
| `ClCompiler.Compiler.CompileStmt` | `pkg/cl/grammar.y:1340-1634` | the same for a statement inside open loops and switches, which it leaves undisturbed |
| `ClCompiler.Compiler.CompileIfElse` | `pkg/cl/grammar.y:1340-1394` | an if with else by back-patching: the BIFF and the GOTO between the branches have their destinations |
| `ClCompiler.Compiler.CompileWhile` | `pkg/cl/grammar.y:1396-1420` | a while by back-patching: test, branch past the loop, body, branch back |
| `ClCompiler.Compiler.CompileFor` | `pkg/cl/grammar.y:1424-1500` | a for, for any body: it is properly compiled and leaves the control stack as it was exactly when the last `for` in the body agrees with it about having a test; a for that lost its test is laid out with the branch of the test going to the next cell |
| `ClCompiler.Compiler.CompileSwitch` | `pkg/cl/grammar.y:1502-1583` | a switch with any blocks: code, exits and jump table are in place, exactly its own control-stack entries are popped, nothing else is written |
| `ClCompiler.Compiler.SetSwitch` | `pkg/cl/gram.c:1043-1119` | from the control stack as the blocks leave it, setswitch builds the table at pc, patches SWITCH and GOTOs, drops exactly the switch's entries and writes only the switch and its table |
| `ClCompiler.Compiler.CaseSet` | `pkg/cl/gram.c:1162-1190` | the constants of a CASE end up in its operand, the last one first, and leave the control stack |
| `ClCompiler.Compiler.InSwitch` | `pkg/cl/gram.c:1126-1156` | CASE and DEFAULT are accepted exactly where the control stack shows an open SWITCH or a finished block of one |
| `ClCompiler.Compiler.LoopIncr` | `pkg/cl/gram.c:1009-1018` | a loop is opened with NEXT at pc and no BREAK yet; refused exactly at MAX_LOOP |
| `ClCompiler.Compiler.LoopDecr` | `pkg/cl/gram.c:1021-1033` | a loop is closed: its first BREAK, if any, now goes to pc, and nothing else is written |
| `ClCompiler.Compiler.Compile` | `pkg/cl/compile.c:38-190` | an instruction is written at pc with its length and arguments and pc moves past it |
| `ClCompiler.Compiler.PPush` | `pkg/cl/stack.c:74-86` | an element goes on the control stack below the top one |
| `GotoList.GotosArrive` | `pkg/cl/grammar.y:1652-1706` | run from any goto to a defined label, the machine is at the label after one jump or, by way of the first goto to that label, two, with its state unchanged; whatever earlier scripts left on the list |
| `GotoList.UnsetRightIff` | `pkg/cl/gram.c:1263-1282` | unsetigoto removes exactly its entry, exactly when the entry before it is not at address 0 |
| `GotoList.UnsetRight` | `pkg/cl/gram.c:1263-1282` | with newer entries at higher addresses it always does |
| `GotoList.ThreadedPush` | `pkg/cl/gram.c:1246-1257` | the list after setigoto: the new entry first, the rest as before, ended by what the list was before the script |
| `GotoList.ThreadedRemove` | `pkg/cl/gram.c:1263-1282` | relinking only the entry before the one removed leaves the list without it |
| `GotoList.EndsIff` | `pkg/cl/gram.c:1246-1282` | the whole list ends with -1 and visits no entry twice exactly when that holds of what earlier scripts left of it |
| `GotoList.LeftoverLoops` | `pkg/cl/gram.c:1246-1257` | it need not hold: a goto compiled over the one an earlier script left waiting is linked to itself |
| `GotoList.GotoKeeps` | `pkg/cl/grammar.y:1687-1706` | a goto to a label already seen keeps every other goto on its way |
| `GotoList.FirstGotoKeeps` | `pkg/cl/grammar.y:1687-1706` | so does the first goto to a label, which joins the list of those that wait |
| `GotoList.DefinedKeeps` | `pkg/cl/grammar.y:1652-1685` | so does the definition of a label that gotos wait for |
| `GotoList.LabelCompiler.BeginScript` | `pkg/cl/grammar.y:150-159` | a script starts with no labels and with the list of waiting gotos as it is, whatever is on it |
| `GotoList.LabelCompiler.SetIGoto` | `pkg/cl/gram.c:1246-1257` | the list of pending gotos grows by this one, newest first, and only its argument cell is written |
| `GotoList.LabelCompiler.UnsetIGoto` | `pkg/cl/gram.c:1263-1282` | the search ends and the list is what Unset says; only the argument of the entry before is written |
| `GotoList.LabelCompiler.Goto` | `pkg/cl/grammar.y:1687-1706` | a goto statement keeps all gotos of the code right |
| `GotoList.LabelCompiler.DefineLabel` | `pkg/cl/grammar.y:1652-1685` | a label statement keeps all gotos right and fails exactly for a label already defined, changing nothing then |
| `ImplicitLoopSpec.OdometerCounts` | `pkg/cl/opcodes.c:554-578` | the odometer steps from the k-th index tuple to the next, and from the last one resets to the first and ends the loop, for all limits |
| `ImplicitLoopSpec.LoopAgrees` | `pkg/cl/modes.c:694-719` | with the limits of getlimits the k-th tuple of the loop is the one pquery prints for offset k, and there are as many as elements |
| `ImplicitLoopSpec.IterationsIff` | `pkg/cl/opcodes.c:554-578` | the number of iterations is the number of elements exactly when no dimension is empty |
| `ImplicitLoopSpec.OffsetOfDecode` | `pkg/cl/param.c:1340-1385` | decoding an offset gives indices in range whose offset it is |
| `ImplicitLoopSpec.DecodeOfOffset` | `pkg/cl/param.c:1340-1385` | the offset of indices in range is within the array and decodes to them |
| `ImplicitLoopSpec.SectionAscends` | `pkg/cl/opcodes.c:554-578` | over a section with some indices fixed, elements are visited in the order of their offsets, none twice |
| `ImplicitLoopSpec.SectionCovered` | `pkg/cl/opcodes.c:554-578` | every element of the section is visited |
| `ImplicitLoopSpec.WholeArray` | `pkg/cl/opcodes.c:554-578` | with every index open the k-th iteration refers to the element at offset k |
| `ImplicitLoop.PrintIndices` | `pkg/cl/modes.c:694-719` | the printing loop of pquery prints the mixed-radix digits of the offset |
| `ImplicitLoop.LoopMachine.IndxIncr` | `pkg/cl/opcodes.c:554-578` | the in-place odometer does the step Next does, branches back or around accordingly, and clears the loop flag exactly at the end |
| `ImplicitLoop.LoopMachine.PushIndex` | `pkg/cl/opcodes.c:826-875` | an index is pushed: the operand given, the current value of the next open index, or, at the first open index, the first value after the loop has been set up from the stored data |
| `ImplicitLoop.LoopMachine.GetOffset` | `pkg/cl/param.c:1340-1385` | the indices are popped and their offset computed, or in direct mode the offset itself is popped; it fails exactly when there are too few or an index is out of range |
| `ImplicitLoop.LoopMachine.RunLoop` | `pkg/cl/exec.c:57-83` | the code of a statement with an open reference, fetched and executed instruction by instruction: it accesses the elements of the section one after the other, exactly as often as there are, and ends past the stored limits with loop state and stacks as before |
| `ImplicitLoopCompiler.Compiler.CompileStatement` | `pkg/cl/grammar.y:1718-1760` | a statement with an open reference is compiled to the code that RunLoop runs: the first open index is led to the stored limits, INDXINCR back to the statement and around them; it fails exactly when the array has no dimension for an open index |
| `ImplicitLoopCompiler.Compiler.MakeImLoop` | `pkg/cl/gram.c:1288-1318` | the first reference records its limits and its first open index sets up the loop; a later one is refused exactly when its limits are others |
| `ImplicitLoopCompiler.EndDone` | `pkg/cl/grammar.y:1734-1753` | what the end of the statement writes completes the code of the indices compiled before |
| `HistorySpec.FindFinds` | `pkg/cl/history.c:839-897` | whenever the remembered position is right, find_history finds the k-th newest record exactly when it is retrievable, and leaves a right position |
| `HistorySpec.AdvanceFinds` | `pkg/cl/history.c:870-893` | the outer search loop, from any right position |
| `HistorySpec.StepFinds` | `pkg/cl/history.c:870-893` | one turn of it finds the next older record exactly when that one is retrievable: it exists and, once the buffer has wrapped, the records up to it fill at most SZ_HISTBUF-2 cells |
| `HistorySpec.BackFinds` | `pkg/cl/history.c:875-887` | the inner loop backs up to the EOS before a record unless that has been overwritten |
| `HistorySpec.TransparentIffRight` | `pkg/cl/history.c:829-897` | remembering the position changes no later lookup exactly when the position is still right |
| `HistorySpec.StaleIff` | `pkg/cl/history.c:834-866` | when a remembered position goes wrong after further commands, exactly |
| `HistorySpec.FetchedIsCommand` | `pkg/cl/history.c:802-826` | from the cell found, exactly the stored command is read back, never a partly overwritten one |
| `HistorySpec.StableNumbers` | `pkg/cl/history.c:399-407` | `^n` names the n-th command ever stored, whatever was stored since |
| `HistorySpec.ShownNumberNames` | `pkg/cl/history.c:929-935` | the number show_history prints names its command exactly for commands below 1000 |
| `HistorySpec.RetrievableDown` | `pkg/cl/history.c:839-897` | newer records than a retrievable one are retrievable |
| `HistoryRuns.TransparentRuns` | `pkg/cl/history.c:829-897` | over a whole session of commands entered and records looked up: the remembered position never misleads any search exactly when at each one the write position moved since the last, or the records skipped take the same room as then |
| `HistoryRuns.EveryLookupPromised` | `pkg/cl/history.c:829-897` | in such a session every lookup finds the k-th newest command exactly when it is retrievable |
| `HistoryRuns.MovedNeverStale` | `pkg/cl/history.c:834-836` | every session in which the commands between two searches move the write position is one |
| `HistoryRuns.RightNext` | `pkg/cl/history.c:834-866` | after such a session the next search is right for every record exactly when it is not stale, and otherwise wrong for the record remembered |
| `HistoryRuns.AskSession` | `pkg/cl/history.c:839-897` | what one lookup after a session answers and leaves behind |
| `HistoryRuns.EnterSession` | `pkg/cl/history.c:751-780` | whether the position remembered is right after one more command |
| `HistoryRuns.SessionHolds` | `pkg/cl/history.c:751-780` | after any session the buffer holds the newest characters of all commands entered |
| `HistoryRuns.WrongRecord` | `pkg/cl/history.c:834-866` | a concrete session after which the newest command is looked up at cell 0, though it starts at cell 6148 |
| `HistoryRuns.AskNearer` | `pkg/cl/history.c:870-893` | looking up one record after the other gets nearer to the end of the buffer, also from a wrong position, so the loops over records end |
| `History.HistoryBuffer.PutHistory` | `pkg/cl/history.c:751-780` | appended is the command up to its last character that is no white space, and one newline; the remembered position is right afterwards exactly when it is not stale |
| `HistorySpec.NormalizedIff` | `pkg/cl/history.c:757-761` | the text stored is the command cut where only white space follows, ended by exactly one newline, for every command |
| `HistorySpec.TakeIff` | `pkg/cl/history.c:802-826` | what is fetched of a command is the longest beginning of it that has at most the number of characters asked for |
| `History.MatchesIff` | `pkg/cl/history.c:484-500` | a command matches a search exactly when it is the pattern with anything after it and, in a search anywhere, anything before |
| `History.HistoryBuffer.CopyRecord` | `pkg/cl/history.c:769-778` | the copy loop stores the characters of the record and its EOS one after the other, going round |
| `History.HistoryBuffer.FindHistory` | `pkg/cl/history.c:839-897` | the search in place, with its static variables, in every state; it finds what is promised when the position was right or the session had no stale search, and leaves the position right when it was |
| `History.HistoryBuffer.FetchHistory` | `pkg/cl/history.c:802-826` | at most min(maxch, SZ_HISTBUF)-1 characters of the record are copied and ended by EOS |
| `History.HistoryBuffer.GetHistory` | `pkg/cl/history.c:783-799` | after every session without a stale search the k-th newest command exactly when it is retrievable, else an empty string; in every state what the search found is read |
| `History.HistoryBuffer.GetNumbered` | `pkg/cl/history.c:397-407` | the directives `^n` and `^-n` fetch the n-th command stored and the n-th newest |
| `History.HistoryBuffer.SearchHistory` | `pkg/cl/history.c:481-506` | the loop ends in every state; with the position right it finds the newest command that begins with, or anywhere contains, the pattern, and none exactly when no retrievable one does |
| `History.HistoryBuffer.ShowHistory` | `pkg/cl/history.c:905-936` | the newest retrievable commands up to the limit are listed, oldest first, each with its number |
| `SubstituteSpec.PiecesOf` | `pkg/cl/history.c:580-612` | cutting a text at the occurrences found and joining the pieces with the pattern gives the text back |
| `SubstituteSpec.AllReplaced` | `pkg/cl/history.c:580-612` | replacing all occurrences is joining those pieces with the substitution string |
| `SubstituteSpec.PiecesLeftmost` | `pkg/cl/history.c:580-612` | the occurrences are all the leftmost ones that do not overlap |
| `SubstituteSpec.NoMatchIff` | `pkg/cl/history.c:580-593` | "No match" exactly for a pattern that does not occur in a text that is not empty |
| `SubstituteSpec.EditedIs` | `pkg/cl/history.c:580-612` | where the pattern occurs, the pieces between all its leftmost occurrences are joined with the substitution string or, without `g`, only the first occurrence is replaced |
| `SubstituteSpec.NullPattern` | `pkg/cl/history.c:534-591` | the pattern is null exactly for a metacharacter alone or doubled, as in `^^`; then the text is copied unchanged and the directive used is these characters, whatever follows |
| `SubstituteSpec.PatternRoundTrip` | `pkg/cl/history.c:538-549` | a pattern written with its metacharacters escaped is read back exactly when it does not end in a backslash or is the end of the directive |
| `SubstituteSpec.TextRoundTrip` | `pkg/cl/history.c:556-568` | a substitution string likewise, exactly when it also has no newline |
| `SubstituteSpec.WrittenRoundTrip` | `pkg/cl/history.c:556-568` | any substitution string, its newlines and tabs written as `^\n` and `^\t`, is read back exactly when no backslash in it comes just before a metacharacter, whether the string is ended by a metacharacter, a newline or the end of the directive |
| `SubstituteSpec.DirectiveRoundTrip` | `pkg/cl/history.c:534-577` | the whole directive, with or without `g`, and how many characters of it are used |
| `Substitute.ReadDirective` | `pkg/cl/history.c:534-577` | the reading loops compute what the directive says |
| `Substitute.CopyToMatch` | `pkg/cl/history.c:583-589` | the text up to the next occurrence is copied |
| `Substitute.Stredit` | `pkg/cl/history.c:512-616` | the editor ends, and leaves in the output the text with the first or all occurrences replaced, or reports "No match"; for a directive that starts with `^^` the output is the whole text and two characters are used, whatever follows |
| `ProcessCacheSpec.StepKeeps` | `pkg/cl/prcache.c:189-527` | every operation keeps the list a list of exactly the slots of the cache, each once, and empty slots idle |
| `ProcessCacheSpec.MovesKeepOrder` | `pkg/cl/prcache.c:672-703` | moving a slot to the head or the tail keeps all slots in the list |
| `ProcessCacheProps.AlwaysInOrder` | `pkg/cl/prcache.c:189-266` | over every run without a failed spawn, live processes come first in the list, in the order of their last connect, empty slots after them |
| `ProcessCacheProps.ConnectLru` | `pkg/cl/prcache.c:186-296` | a connect keeps the list in order of last use; after a failed spawn it is in order exactly when no process is alive but the stale one that the connect itself closes |
| `ProcessCacheProps.SpawnFailedIff` | `pkg/cl/prcache.c:186-296` | when a spawn fails, from the cache before and the answers of the environment |
| `ProcessCacheProps.FailedSpawnBreaksOrder` | `pkg/cl/prcache.c:186-296` | a concrete cache that a failed spawn leaves out of order |
| `ProcessCacheProps.EvictionIsLru` | `pkg/cl/prcache.c:225-235` | a process evicted for space: there was no empty slot, and of the unbusy processes it was connected longest ago |
| `ProcessCacheProps.StaleReplaced` | `pkg/cl/prcache.c:206-235` | a process whose executable has changed is replaced in its own slot |
| `ProcessCacheProps.ConnectUses` | `pkg/cl/prcache.c:189-266` | a connect gives an idle process running the program, or a new one, at the head and active; it touches no other slot and closes at most the process whose slot it takes |
| `ProcessCacheProps.DeadlockIff` | `pkg/cl/prcache.c:225-235` | the deadlock error, exactly when every slot is busy and none holds the program idle |
| `ProcessCacheProps.DeadlockBefore` | `pkg/cl/prcache.c:201-235` | the same in terms of the cache before dead processes are cleared away |
| `ProcessCacheProps.StepProtects` | `pkg/cl/prcache.c:189-620` | what one operation may do to an active or a locked process that is not dead |
| `ProcessCacheProps.ActiveStays` | `pkg/cl/prcache.c:272-295` | no sequence of operations closes a process whose task is active and that is not reported dead |
| `ProcessCacheProps.LockedStays` | `pkg/cl/prcache.c:392-410` | a locked process is closed only by a dump that breaks locks |
| `ProcessCacheProps.ClosedBySweep` | `pkg/cl/prcache.c:479-527` | which processes a dump or a prune closes, exactly |
| `ProcessCacheProps.FlagsExact` | `pkg/cl/prcache.c:167-181` | pr_disconnect makes exactly the process named idle, besides clearing dead ones away; pr_lock and pr_unlock change exactly its lock |
| `ProcessCacheProps.AlwaysDistinct` | `pkg/cl/prcache.c:186-296` | over every run whose new pids are those of no living process the pids in the cache are distinct |
| `ProcessCacheProps.ReusedIff` | `pkg/cl/prcache.c:206-258` | an idle process running the program is reused exactly when its executable is no newer than when it was spawned; otherwise it is closed, and the new one keeps the time the executable has now |
| `ProcessCacheProps.NewProcess` | `pkg/cl/prcache.c:189-266` | a new process has the pid answered, the program asked for, the next process number and the time the environment gave for its executable, found before or not |
| `ProcessCacheProps.ReconnectReuses` | `pkg/cl/prcache.c:205-266` | a process spawned when its executable had time t and disconnected since is reused by the next connect exactly when the time answered then is at most t |
| `ProcessCacheProps.FindProcIsFirst` | `pkg/cl/prcache.c:348-364` | the process looked up is the first in the list that offers the program |
| `ProcessCacheProps.OnlyEmptied` | `pkg/cl/prcache.c:480-532` | clearing, dumping and pruning leave a slot alone or empty it, keeping its time, number and name |
| `ProcessCacheProps.NumbersAfterDump` | `pkg/cl/prcache.c:478-504` | after a dump that breaks locks process numbers start again at 1, after any other they go on |
| `ProcessCacheProps.PruneClosesNewer` | `pkg/cl/prcache.c:507-539` | pruning back to a process number closes, of the processes neither busy nor dead, exactly those connected since that number was given, over every run without a lock-breaking dump |
| `ProcessCacheProps.SweepSlots` | `pkg/cl/prcache.c:479-620` | the loops over the slots treat every slot on its own, whatever happens to the list meanwhile |
| `ProcessCacheProps.NameFinds` | `pkg/cl/prcache.c:545-556` | the pid by name, in every cache: that of the first slot in the list with the name, found exactly when a process of that name has no empty slot before it that still carries the name |
| `ProcessCacheProps.NameFindsInOrder` | `pkg/cl/prcache.c:545-556` | with the list in order a process is found exactly when there is one |
| `ProcessCacheProps.AlwaysConserved` | `pkg/cl/prcache.c:243-295` | over every run each process spawned is in the cache or was closed once: none is lost or closed twice |
| `ProcessCacheProps.FreshWellFormed` | `pkg/cl/prcache.c:650-669` | the initial cache is well formed and in order |
| `ProcessCache.UnlinkLinked` | `pkg/cl/prcache.c:706-724` | taking a node out relinks its neighbours and head or tail, leaving the list of the others in their order |
| `ProcessCache.FrontLinked` | `pkg/cl/prcache.c:674-686` | linking a node in front leaves the list with it first |
| `ProcessCache.BackLinked` | `pkg/cl/prcache.c:691-703` | linking a node at the end leaves the list with it last |
| `ProcessCache.ProcessCache.ToHead` | `pkg/cl/prcache.c:674-686` | pr_tohead keeps a well-formed doubly linked list and moves one node to the head, the rest in order |
| `ProcessCache.ProcessCache.ToTail` | `pkg/cl/prcache.c:691-703` | pr_totail likewise, to the tail |
| `ProcessCache.ProcessCache.Unlink` | `pkg/cl/prcache.c:708-724` | pr_unlink takes a node out and leaves one that is in no list alone |
| `ProcessCache.ProcessCache.constructor` | `pkg/cl/prcache.c:650-669` | pr_initcache links all slots, the last at the head |
| `ProcessCache.ProcessCache.PConnect` | `pkg/cl/prcache.c:189-266` | pr_pconnect in place does what Connect says, of which NewProcess, ReusedIff and ReconnectReuses say what that is |
| `ProcessCache.ProcessCache.PDisconnect` | `pkg/cl/prcache.c:272-295` | pr_pdisconnect closes an unbusy process, empties its slot and moves it to the tail, else does nothing |
| `ProcessCache.ProcessCache.CheckUp` | `pkg/cl/prcache.c:604-620` | pr_checkup clears away exactly the dead processes |
| `ProcessCache.ProcessCache.PrDisconnect` | `pkg/cl/prcache.c:167-181` | pr_disconnect makes the process idle |
| `ProcessCache.ProcessCache.PrDumpCache` | `pkg/cl/prcache.c:479-504` | pr_dumpcache in place does what DumpCache says |
| `ProcessCache.ProcessCache.PrPruneCache` | `pkg/cl/prcache.c:512-527` | pr_prunecache in place does what PruneCache says |
| `ProcessCache.ProcessCache.Lock` | `pkg/cl/prcache.c:396-410` | pr_lock sets the lock of the process, if it is connected |
| `ProcessCache.ProcessCache.Unlock` | `pkg/cl/prcache.c:418-431` | pr_unlock clears it |
| `ProcessCache.ProcessCache.PNameToPid` | `pkg/cl/prcache.c:545-556` | pr_pnametopid in place |
| `DictionarySpec.PackagesExact` | `pkg/cl/exec.c:1047-1076` | with chains in allocation order, restor leaves exactly the packages below the mark and of each exactly the ltasks below it, in order |
| `DictionarySpec.PfilesExact` | `pkg/cl/exec.c:1078-1136` | it leaves exactly the pfiles below the mark, each cut right exactly when its first parameter, if any, is below the mark |
| `DictionarySpec.PfileExact` | `pkg/cl/exec.c:1111-1136` | for one pfile: its parameters below the mark, pf_lastpp the last of them, pf_n their number if any was cut |
| `DictionarySpec.LeftLeading` | `pkg/cl/exec.c:1111-1136` | a pfile with its first parameter at or above the mark comes out with no last parameter and none counted, but still leads to all of them |
| `DictionarySpec.AllPfilesStay` | `pkg/cl/exec.c:1089-1109` | with no pfile below the mark all stay in the list with their parameters; only PF_UPDATE may be set |
| `DictionarySpec.WrittenInOrder` | `pkg/cl/exec.c:1089-1109` | the discarded pfiles are written out newest first, each once |
| `DictionarySpec.ClosedOnce` | `pkg/cl/exec.c:1098-1102` | no list file is closed twice |
| `DictionarySpec.FirstParamAbove` | `pkg/cl/exec.c:1099-1128` | a concrete pfile whose first parameter is above the mark keeps it |
| `DictionarySpec.WrittenIff` | `pkg/cl/exec.c:1089-1109` | a pfile is written out exactly when it is discarded, is no copy and is flagged PF_UPDATE or holds a P_SET parameter |
| `DictionarySpec.ClosedIff` | `pkg/cl/exec.c:1098-1102` | a list file is closed exactly when it belongs to a parameter of a discarded pfile |
| `DictionarySpec.DescendingCut` | `pkg/cl/exec.c:1047-1076` | dropping the front of a descending chain drops exactly what is at or above the mark |
| `DictionarySpec.AscendingCut` | `pkg/cl/exec.c:1111-1136` | cutting the end of an ascending chain does |
| `Chains.ChainCut` | `pkg/cl/exec.c:1121-1130` | ending a chain at an entry leaves the entries up to it |
| `Dictionary.Dictionary.Restor` | `pkg/cl/exec.c:1018-1136` | restor sets the registers, fails exactly when no package is below the mark, and otherwise leaves the chains, the files written and the list files closed that the specification says |
| `Dictionary.Dictionary.CutParams` | `pkg/cl/exec.c:1111-1136` | the parameters of a surviving pfile are cut in place, no other pfile is touched |
| `Dictionary.Dictionary.DropPfiles` | `pkg/cl/exec.c:1089-1109` | pfiles above the mark are discarded, and parhead stays if all are |
| `Dictionary.Dictionary.DiscardPfile` | `pkg/cl/exec.c:1098-1108` | a discarded pfile: list files closed, flag set, file written when due |
| `Dictionary.Dictionary.CutPackages` | `pkg/cl/exec.c:1066-1076` | the ltasks above the mark are dropped from every package left |
| `TaskStackProps.ActRefines` | `pkg/cl/exec.c:99-320` | over any nesting of call, exec, body and end of task, each caller resumes with its topos, basos, topcs and curpack and with pc just after its EXEC, and topd and the entries in use are what a meaning without a stack says: the mark saved at the CALL or moved by keep |
| `TaskStackProps.BodyRefines` | `pkg/cl/exec.c:99-320` | the same for sequences, and no caller's saved registers are touched |
| `TaskStackProps.ActRunsIff` | `pkg/cl/exec.c:99-320` | a program runs to its end exactly when the dictionary has room for all it allocates and every call finds room for its frame above the operand stack; no return ever fails |
| `TaskStackProps.TaskStarts` | `pkg/cl/exec.c:266-308` | a task starts with its caller's mark at topd as it was at the CALL; a builtin with the dictionary as it was then and its caller's input, another task with what its arguments allocated and its own input |
| `TaskStackProps.KeepReaches` | `pkg/cl/builtin.c:720-752` | which marks keep moves, for every stack of tasks: that of the caller of the script, and those of all tasks up to the caller of the outermost one reading the script, unless it is the first task's input |
| `TaskStackProps.KeptReturns` | `pkg/cl/builtin.c:2386-2397` | a task that keeps just before it ends leaves its caller the whole dictionary |
| `TaskStackSpec.MemNeedIff` | `pkg/cl/main.c:537-555` | an allocation moves topd to the first even address at or after topd + incr and fails exactly when that is above maxd |
| `TaskStackProps.EnterRefines` | `pkg/cl/exec.c:117-308` | after EXEC the caller's frame holds its registers and the pc, and the callee runs with topd put back if it is a builtin |
| `TaskStackProps.ReturnRefines` | `pkg/cl/exec.c:1194-1209` | at the end of a task poptask lands on the caller's frame, whatever temporaries are left |
| `TaskStackProps.PopsCallerIff` | `pkg/cl/stack.c:172-211` | that holds exactly when the caller had no temporaries at its CALL |
| `TaskStackProps.TemporaryAtCall` | `pkg/cl/stack.c:193-211` | a concrete call with a temporary on the control stack whose return pops another frame |
| `TaskStackProps.ClKeepRefines` | `pkg/cl/builtin.c:720-752` | keep saves exactly the marks from the caller of the script out to the caller of the outermost task reading the same input |
| `TaskStackProps.ActGrows` | `pkg/cl/builtin.c:2386-2397` | no call loses an entry that was there before it or moves topd back |
| `TaskStackProps.CallWithoutKeep` | `pkg/cl/exec.c:1163-1209` | a call without keep leaves the dictionary, topd and every mark exactly as they were |
| `TaskStackProps.SurvivesIffKept` | `pkg/cl/exec.c:1163-1209` | of the entries in the dictionary when a task ends, exactly those survive the call that were there at the last keep that reached the caller, or at the CALL; for every nesting in which keeps that reach further out find topd at the caller's mark |
| `TaskStackProps.UnlevelKeep` | `pkg/cl/exec.c:332-343` | a concrete task whose implicit keep lets an entry survive that was added after it |
| `TaskStack.ControlStack.CallNewTask` | `pkg/cl/exec.c:117-125` | saving the registers and pushing the frame, in place |
| `TaskStack.ControlStack.ExecNewTask` | `pkg/cl/exec.c:266-308` | switching to the new task, in place |
| `TaskStack.ControlStack.OnEof` | `pkg/cl/exec.c:1199-1208` | popping the task and restoring the registers, in place |
| `TaskStack.ControlStack.PopTaskFrame` | `pkg/cl/stack.c:192-211` | poptask, in place |
| `TaskStack.ControlStack.PushTask` | `pkg/cl/stack.c:174-189` | pushtask fails exactly when the frame would reach the operand stack |
| `TaskStack.ControlStack.KeepCommandTask` | `pkg/cl/builtin.c:720-752` | the loops of clkeep, in place |
| `TaskStack.ControlStack.MemoryNeed` | `pkg/cl/main.c:537-555` | memneed moves topd to the first even address at or after topd + incr, said outright, gives the old topd and fails exactly when the new one is above maxd |
| `ProcParams.Rearranged` | `pkg/cl/decl.c:605-695` | the parameters of the statement come first in its order, the others after them in their old order, none lost or doubled; accepted exactly when every name is that of a parameter, as often as the statement names it |
| `ProcParams.AcceptedIff` | `pkg/cl/decl.c:621-638` | that condition, by itself |
| `ProcParams.ModesFinal` | `pkg/cl/decl.c:637-697` | bit by bit: a statement parameter keeps a mode that is declared and not hidden; a hidden one loses M_HIDDEN, gets M_AUTO and keeps all other bits; without a mode it gets M_AUTO; any other parameter keeps its mode, or is hidden if it has none |
| `ProcParams.FindIsFirst` | `pkg/cl/decl.c:632-635` | the parameter taken is the first of exactly that name, an error if there is none |
| `ProcParams.ParameterList.ReorderParams` | `pkg/cl/decl.c:609-695` | the list is relinked in place accordingly, pf_lastpp is its true last node; every mode comes out as ModesFinal says in bits, no other parameter is touched; with no parameters in the statement list and pf_lastpp stay |
| `ProcParams.ParameterList.Move` | `pkg/cl/decl.c:649-677` | one parameter is unlinked and put in front of those taken so far, both chains intact |
| `ProcParams.ParameterList.SetModes` | `pkg/cl/decl.c:685-694` | only parameters without a mode become hidden |
| `ProcParams.ParameterList.ParamFind` | `pkg/cl/param.c:105-110` | the first parameter of exactly that name |
| `StringInt.PlusIsAction` | `pkg/cl/binop.c:192-217` | for n, m not negative, (s + n) + m is s + (n + m), for every string |
| `StringInt.ActionOnNumber` | `pkg/cl/binop.c:192-210` | for all integers and a string that ends in digits: when that holds, exactly |
| `StringInt.ActionOnName` | `pkg/cl/binop.c:211-217` | for one that does not end in digits |
| `StringInt.PlusKeeps` | `pkg/cl/binop.c:192-210` | the prefix is unchanged, the number is the old one plus n and the field is not narrower |
| `StringInt.DecimalValue` | `pkg/cl/binop.c:199-204` | printing a number and reading it back |
| `StringInt.Operands.StrInt` | `pkg/cl/binop.c:43-61` | the pointer loops find where the digits at the end start |
| `StringInt.Operands.AddString` | `pkg/cl/binop.c:179-217` | addition with a string operand: concatenation, increment, or one of the errors |
| `StringTable.EveryStringShown` | `pkg/cl/clprintf.c:191-213` | every string, cut to maxlen characters, is found in the row and at the start of the column it belongs to, first_col + (column-1) * colwidth |
| `StringTable.PlacedOnce` | `pkg/cl/clprintf.c:191-203` | every string is printed in one place only, going down the columns |
| `StringTable.NoEmptyRow` | `pkg/cl/clprintf.c:189-197` | no row is empty |
| `StringTable.ColumnStarts` | `pkg/cl/clprintf.c:198-210` | where a column starts does not depend on the strings before it |
| `StringTable.ColumnsFit` | `pkg/cl/clprintf.c:182-188` | with more than one column, columns are two characters wider than any string shown, and together fit the line |
| `StringTable.LayoutIs` | `pkg/cl/clprintf.c:183-189` | the table has the greatest number of columns that fit the line two wider than any string shown, or ncol if that is smaller; columns as wide as the line allows and no more rows than needed |
| `StringTable.LongestShown` | `pkg/cl/clprintf.c:173-181` | the length strings are cut to is that of the longest one, or maxch if that is given and some string is longer |
| `StringTable.BlankElsewhere` | `pkg/cl/clprintf.c:191-213` | a line is blank wherever no string is in its place |
| `StringTable.LineEnds` | `pkg/cl/clprintf.c:191-213` | how long every line is |
| `StringTable.LinesFitIff` | `pkg/cl/clprintf.c:182-213` | no line passes last_col exactly when the longest string shown fits from first_col on |
| `StringTable.StrTable` | `pkg/cl/clprintf.c:158-214` | the nested loops write exactly these lines |
| `BkgJobs.FirstFreeUnique` | `pkg/cl/bkg.c:132-143` | there is one first free slot after lastjobno, and none exactly when the search must fail |
| `BkgJobs.UpdateSlot` | `pkg/cl/bkg.c:333-387` | an update ends exactly the running jobs that are finished, with their exit codes, and notes which of the others wait for service; no other slot changes |
| `BkgJobs.KillSlot` | `pkg/cl/bkg.c:217-242` | a kill ends exactly the running job named, or all, each with its exit code and marked killed if the system could; no other slot changes |
| `BkgJobs.RefusedThoughFree` | `pkg/cl/bkg.c:121-163` | a run of spawns and ended jobs after which a spawn is refused although the slot used last is free |
| `BkgJobs.JobTable.FindSlot` | `pkg/cl/bkg.c:132-143` | the circular search ends, gives the first free slot after lastjobno, and fails exactly when every other slot is busy |
| `BkgJobs.JobTable.Spawn` | `pkg/cl/bkg.c:121-163` | no running job is overwritten; a spawn that fails leaves lastjobno and who is busy alone |
| `BkgJobs.JobTable.Update` | `pkg/cl/bkg.c:333-356` | the table after an update, slot by slot |
| `BkgJobs.JobTable.Kill` | `pkg/cl/bkg.c:217-242` | the table after a kill, slot by slot: after an update exactly the running jobs meant are closed, each with its exit code |

## Left out

- ClCompiler.Compiler.CompileStmt: requires room for the code and the control stack, because the program's own check (`pkg/cl/compile.c`) prints an error and goes on; the constants of a CASE are integers, one-character strings and bad constants are not modelled.
- ClCompiler.Compiler.CompileProgram: requires that no `for` disagrees with a nested one about having a test; what happens otherwise is stated by CompileFor.
- Simulation.ProgramRuns: instructions that do not branch are an arbitrary interpretation; EXEC inside statements, and statements between the blocks of a switch, are not part of the source language modelled there; statements with implicit loops and goto statements are modelled by themselves, each on the same kind of code.
- GotoList.LabelCompiler.Emit: other instructions are any cells; gotos and the structured statements are compiled by separate models over the same kind of code.
- ImplicitLoopCompiler.Compiler.CompileStatement: one reference in a statement, whose other indices are integer constants; the name of the array is a number.
- ClCompiler.Compiler.CaseSet: string constants and bad case constants are not modelled.
- History.HistoryBuffer.PutHistory: the caller's buffer must have room for the newline, as the program assumes.
- Substitute.Stredit: the fixed buffers for pattern and substitution string are strings of any length, and the output buffer must be long enough, as the program assumes.
- ProcessCacheProps.AlwaysInOrder: `pr_setcache`, which reinitialises every slot and reconnects locked processes, is not an operation of the runs.
- ProcessCacheSpec.Connect: pids, modification times and which processes are dead are given by the environment; a `c_finfo` that fails is taken to leave the time as it was.
- Dictionary.Dictionary.Restor: freeing the environment stack and pruning the process cache at the end of restor are not modelled; package and pfile chains are newest first, parameter chains oldest first, as the allocator makes them.
- TaskStackProps.ActRefines: what a task does between calls is steps that set registers or allocate; what its arguments allocate goes with the fake pfile of a builtin; pfiles are not copied back.
- ProcParams.ParameterList.ReorderParams: warnings and the array of positional parameters are not modelled.
- StringInt.Operands.AddString: INDEF operands and integer overflow are not modelled.
- TaskStack.ControlStack.OnEof: flushing output and copying pfiles back are not modelled.
- BkgJobs.JobTable.Spawn: the child's side, the clock and the command text are not modelled.
- History macros (`expand_history_macros`), abbreviations in `paramfind`, positional lookup and default modes are not modelled.
- Terminal and screen code, files and log files, interprocess communication, signals, `setjmp`, the lexer tables, floating-point operators and the forward substring search of `pkg/cl/binop.c`.
