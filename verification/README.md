# Line editor, shell variables and block conversion

Three programs of the repository, each as a machine whose state the code changes in place, with what each
run of it keeps and achieves.

**ed** (`src/bin/ed`).  The buffer is a circular doubly linked list of lines with a cached cursor, a scratch
file that holds the texts, an undo stack whose entries are nothing but two pointers and a tag, 26 marks, and
the list of lines a global command has still to visit.  The class `EdBuffer.Editor` has these fields, and its
methods are the functions of `buf.c`, `undo.c`, `main.c`, `glbl.c` and `sub.c`.  Beside the real fields a
ghost log of steps (lines added, deleted, moved) says what the undo stack stands for.  Undo itself reads
pointers only, and is proved to restore the list the log says.  On top, `EdModel` says what the user sees,
texts, a current line, one view that undo would bring back, and what is printed.  Every command is proved to do
just that to the buffer, inside a global command or outside; so is every session, in which the lines that a
global command visits are a function of the texts and the command (`EdModel.Visited`), not of the nodes.

**csh** (`src/bin/csh/set.c`).  Shell variables and aliases live in threaded AVL trees under a header node.
`CshVars.VarTable` has the nodes in a memory of addresses; insertion, removal, the rotations and the climbing
loop of `balance` assign to one link or balance factor at a time.  After any run the memory is a balanced
search tree of the bindings the run leaves, and of nothing else.

**dd** (`src/bin/dd`).  `DdPipe.Dd` has the two buffers with their pointers and counts.  The input may come in
reads of any size and go out in writes of any size; what has been written at the end is what the conversion
makes of the whole input.  `DdRecords` says what that is, and when `block` and `unblock` undo each other.

Where the code and its comments, or what one would expect, are not the same, the model follows the code:

- `block_close` (`src/bin/dd/conv.c:183-201`) says there is no translation to worry about, but the bytes of an
  unfinished last line go out untranslated while their padding is translated.  `DdRecords.TableThroughout`
  says exactly when this shows.
- The searches of `set.c` compare first characters as they are, and the rest with `s_strcmp`, for which a
  shorter name comes first.  With characters that look negative the two orders differ for the empty name
  (`CshNames.NotQuiteStrcmp`); it is a total order all the same.
- A failed `s` still leaves the current line where it failed, with the lines before it replaced
  (`EdReplace.SubstituteRange`); outside a global command it has begun a new unit of undo.
- `get_line_node_addr` gives every line address 0 when the buffer is empty (`src/bin/ed/buf.c:151`).

Modules: `Sequences`, `Addresses`; `EdLinks`, `EdHistory`, `EdReplay`, `EdOwners`, `EdGrowth` (lists, the log
and what undo does, over plain values), `EdTables`, `EdEffects` (what each function does to the parts of the
invariant), `EdBuffer`, `EdModel`, `EdMeaning` (what each command does, said outright for the addresses
typed), `EdGrep`, `EdEdits`, `EdReplace`, `EdCommands`, `EdTrace` (what a global command leaves behind),
`EdTour` (that the texts settle it), `EdGlobal`; `CshNames`, `CshTree`, `CshMemory`, `CshBalance`, `CshOrder`,
`CshVars`; `DdRecords`, `DdPipe`. `dafny verify dfyconfig.toml` checks all of them.

## Model

| member | source | states |
|---|---|---|
| `EdBuffer.Editor.constructor` | src/bin/ed/buf.c:248-266 | An empty buffer, with nothing to undo, meets the whole invariant. |
| `EdBuffer.Editor.GetAddressedLineNode` | src/bin/ed/buf.c:159-188 | Whichever of the four walks the cursor takes, it ends on the n-th node of the list; past the end, on the last. |
| `EdBuffer.Editor.GetLineNodeAddr` | src/bin/ed/buf.c:141-156 | The true address of a line in the list; for one that is not, an error, or 0 in an empty buffer. |
| `EdBuffer.Editor.GetSbufLine` | src/bin/ed/buf.c:43-76 | Nothing for the head; otherwise the text of the line, from the scratch file, whether or not the position ed remembers saves it a seek. |
| `EdBuffer.Editor.PutSbufLine` | src/bin/ed/buf.c:79-124 | The text goes to the end of the file, over no other text, and a new line with it goes in after the current one. |
| `EdBuffer.Editor.AddLineNode` | src/bin/ed/buf.c:127-138 | The list, its length, the current line and the log all have the new line. |
| `EdBuffer.Editor.PushUndoStack` | src/bin/ed/undo.c:40-74 | The entry has the nodes at both addresses; the list is as it was. |
| `EdBuffer.Editor.DeleteLines` | src/bin/ed/main.c:1197-1220 | The range leaves the list, but its nodes and their own links stay; one entry stands for it; active lines in it are struck off, and no others. |
| `EdBuffer.Editor.MoveLines` | src/bin/ed/main.c:1115-1157 | The block stands after the target, by three splices in the order the code has; the two entries stand for it; its lines are struck off the active list. |
| `EdBuffer.Editor.AppendLines` | src/bin/ed/main.c:1025-1073 | The input stands after line n, and one entry, stretched line by line, stands for all of it. |
| `EdBuffer.Editor.CopyLines` | src/bin/ed/main.c:1160-1194 | New lines with the texts of the originals stand after the target, also when that lies within the range and the walk has to step over its own copies. |
| `EdBuffer.Editor.UndoEntries` | src/bin/ed/undo.c:102-123 | The loop of undo, as it walks the stack from the top and changes tags in place: its links are those of `Replay`, its tags those of `FlipTags`. |
| `EdBuffer.Editor.ReverseStack` | src/bin/ed/undo.c:124-126 | The swaps reverse the stack. |
| `EdBuffer.Editor.PopUndoStack` | src/bin/ed/undo.c:87-133 | An error changes nothing; otherwise the saved list and addresses come back, what was there is saved, the stack is the one of the inverted log, all over the same nodes; the active list is emptied. |
| `EdBuffer.Editor.PopTwice` | src/bin/ed/undo.c:87-133 | Two calls in a row give back every pointer, both lists and all addresses, and a stack that undoes as before. |
| `EdBuffer.Editor.FreeSegment` | src/bin/ed/undo.c:143-150 | Every node of a deleted segment is freed once, its link read before, and the marks on these nodes are cleared and no others. |
| `EdBuffer.Editor.ClearUndoStack` | src/bin/ed/undo.c:136-154 | Every detached node is freed and no other; the marks left are those on lines of the list; what undo would restore is the buffer as it is. |
| `EdTables.MarkTable.MarkLineNode` | src/bin/ed/main.c:1256-1268 | A letter's mark is set and no other, and the count of marks in use is right. |
| `EdTables.MarkTable.UnmarkLineNode` | src/bin/ed/main.c:1285-1296 | All marks on the line are cleared, though the loop stops as soon as the count says that none is left. |
| `EdTables.ActiveList.UnsetActiveNodes` | src/bin/ed/glbl.c:186-201 | Exactly the lines of the segment are struck off, each search resuming where the last one ended. |
| `EdTables.ActiveList.NextActiveNode` | src/bin/ed/glbl.c:204-211 | The next line not struck off; nothing but struck-off entries is passed over. |
| `EdReplay.ReplayRestores` | src/bin/ed/undo.c:102-126 | From any links that agree with a history, following the bare pointers of its stack leads to the list from before the history, with every detached segment of the inverted history in place. |
| `EdReplay.RedoStack` | src/bin/ed/undo.c:122-126 | The stack with its tags changed and reversed is the stack of the inverted history. |
| `EdOwners.OneOwner` | src/bin/ed/undo.c:136-154 | No node is detached twice, and none is both detached and in the list, so that none is freed twice or while in use. |
| `EdOwners.UndoKeepsNodes` | src/bin/ed/undo.c:87-133 | Undo changes which nodes are live and which detached, not which there are. |
| `EdOwners.UndoAgrees` | src/bin/ed/undo.c:87-133 | After an undo links, list, log and stack agree again. |
| `EdOwners.UndoTwice` | src/bin/ed/undo.c:87-133 | A second undo restores every pointer of every node, and the stack it leaves undoes like the first one. |
| `EdOwners.UndoFourTimes` | src/bin/ed/undo.c:87-133 | Four undos leave the very stack they found. |
| `EdEdits.AppendAt` | src/bin/ed/main.c:1025-1073 | The user sees the input after line n; the rest of the invariant holds. |
| `EdEdits.MoveRange` | src/bin/ed/main.c:1115-1157 | The user sees the block moved and its last line current; no line comes or goes. |
| `EdEdits.UndoLast` | src/bin/ed/undo.c:87-133 | The view and the kept view change places, texts and all. |
| `EdEdits.ReadRange` | src/bin/ed/main.c:1223-1247 | The walk from the first line to the node after the last, which may be the head, reads the texts of the range. |
| `EdEdits.GetMatchingNodeAddr` | src/bin/ed/main.c:889-915 | Forwards, the first line after the current one that matches, or else the first of all; backwards, the last one before it, or else the last of all; an error if and only if no line matches. |
| `EdEdits.SearchMeans` | src/bin/ed/main.c:889-915 | An address that the steps of INC_MOD or DEC_MOD reach before any other match is the nearest in that direction. |
| `EdReplace.ReplaceRange` | src/bin/ed/main.c:464-472 | Lines deleted and lines appended in their place: the view, the lines gone, and what follows. |
| `EdReplace.JoinRange` | src/bin/ed/main.c:1075-1112 | One line stands in their place, with the text of each at the place where those before it end, and nothing else in it. |
| `EdModel.FlattenAt` | src/bin/ed/main.c:1088-1104 | Line i of the lines joined stands in the joined line at the sum of the lengths of those before it; its length is the sum of all. |
| `EdModel.FlattenParts` | src/bin/ed/main.c:1088-1104 | No lines make the empty text, one makes itself, and lines joined in two parts are the one part after the other. |
| `EdReplace.SubstituteRange` | src/bin/ed/sub.c:113-164 | Every line of the range, wherever earlier replacements have pushed it, is replaced by new lines or kept as it is; a failure keeps what was done before it; no match is an error outside a global command. |
| `EdCommands.BeginEdit` | src/bin/ed/main.c:458-472 | Outside a global command the next unit of undo begins: what undo restores is the view as it is, and marks on lines that had left the list are cleared. |
| `EdCommands.DeleteCommand` | src/bin/ed/main.c:473-481 | The range is gone and the line after it current, or the last. |
| `EdCommands.MoveCommand` | src/bin/ed/main.c:605-617 | A target within the range, or past the end, is an error that changes nothing; otherwise the block is moved, and its lines are the ones struck off. |
| `EdCommands.PrintCommand` | src/bin/ed/main.c:1223-1247 | The texts of the range go to standard output, and its last line is current. |
| `EdCommands.MarkCommand` | src/bin/ed/main.c:587-591 | Line 0 and characters that are no letters are errors that change nothing; otherwise that mark is the n-th line of the list, and every other mark is as it was. |
| `EdCommands.GetMarkedNodeAddr` | src/bin/ed/main.c:1271-1281 | The address where the marked line now stands; an error if it has left the list or was never set. |
| `EdCommands.ExecCommand` | src/bin/ed/main.c:436-868 | Every command keeps the invariant and has the effect, the status and the output of its model. What becomes of the lines themselves is what `Relisted` says: which stay, in what order, and where and how many new ones come in; u exchanges the list and the saved one, and an edit outside a global command saves the list it found. In a global command exactly the lines deleted or moved are struck off. No mark is set but by k, and none is cleared but by an edit outside a global command, on a line that had left the list. |
| `EdMeaning.AppendMeans` | src/bin/ed/main.c:458-463 | a, with the address typed or the current line: the input stands after line n, its last line is current, and outside a global command the view before is kept. |
| `EdMeaning.InsertMeans` | src/bin/ed/main.c:568-577 | i: the same before line n; line 0 is an error. |
| `EdMeaning.GotoMeans` | src/bin/ed/main.c:258-281 | An address before a semicolon makes that line current and changes nothing else. |
| `EdMeaning.ChangeMeans` | src/bin/ed/main.c:464-472 | c, with the range typed or the current line: the input stands in the place of the lines; a range that is not in the buffer is an error that changes nothing. |
| `EdMeaning.DeleteMeans` | src/bin/ed/main.c:473-481 | d: the lines are gone, and the line after them is current, or the last one. |
| `EdMeaning.JoinMeans` | src/bin/ed/main.c:578-586 | j, of the current line and the next when none is typed: one line that holds all of them, each where the ones before it end, stands in their place and is current. |
| `EdMeaning.MoveMeans` | src/bin/ed/main.c:605-617 | m: the lines stand after line n, for targets before them and behind them, the last one current; a target among them is an error. |
| `EdMeaning.CopyMeans` | src/bin/ed/main.c:761-769 | t: a copy of the lines stands after line n, wherever that is, and its last line is current. |
| `EdMeaning.SubstituteMeans` | src/bin/ed/sub.c:113-164 | s, when it fails on no line: all lines of the range give way to their results, of which the last is current; to change none is an error outside a global command. |
| `EdMeaning.ReplacedOne` | src/bin/ed/sub.c:113-164 | What becomes of a single line: its results, or itself. |
| `EdMeaning.ReplacedParts` | src/bin/ed/sub.c:113-164 | What becomes of several lines is what becomes of each, in their order. |
| `EdMeaning.SubstituteFails` | src/bin/ed/sub.c:113-164 | s, when line n is the first it fails on: the lines before are done, line n is current, and it and all after it stay. |
| `EdMeaning.PrintMeans` | src/bin/ed/main.c:626-632 | p prints the lines typed or the current one, the last of which becomes current; no other command prints. |
| `EdCommands.MarkNames` | src/bin/ed/main.c:587-591 | k marks the line typed or the current one and touches no other mark; without such a line or mark it is an error. |
| `EdMeaning.MarkMeans` | src/bin/ed/main.c:587-591 | k changes nothing that is seen, and when it is an error. |
| `EdMeaning.UndoMeans` | src/bin/ed/main.c:770-778 | u: the view and the one kept change places; with an address, or nothing kept, it is an error. |
| `EdMeaning.ListMeans` | src/bin/ed/glbl.c:129-135 | A command list is executed in its order, up to the first error. |
| `EdModel.UndoOfGlobal` | src/bin/ed/glbl.c:72-138 | After a global command, whatever its visits did and however it ended, u brings back the view from before it, or the one that the last successful u inside it found. |
| `EdModel.KeptExactly` | src/bin/ed/undo.c:136-154 | What u would bring back changes if and only if the command or global command passes its checks and edits, or is a u with something to undo; no other entry changes the text. |
| `EdModel.UndoInSession` | src/bin/ed/undo.c:87-133 | In any session of single and global commands, failing ones and ones with u inside included, u undoes exactly the last entry that began a unit of undo, and another u undoes that. |
| `EdGlobal.BuildActiveList` | src/bin/ed/glbl.c:39-69 | The lines of the range that match, or do not, in their order. |
| `EdGlobal.ExecCommandList` | src/bin/ed/glbl.c:129-135 | The commands are executed up to the first error, and the active list follows what each one did. |
| `EdGlobal.ExecGlobal` | src/bin/ed/glbl.c:72-138 | The command lists are run on a subsequence of the collected lines, each at its true address at that time, and not after an error; the commands executed, with the view each one found, are those of the lists up to the first error; each has changed the list as `Relisted` says, u to the list from before the global command or the one the last u found; list, saved list, marks and output at the end are those of that trace. |
| `EdTrace.VisitedOnce` | src/bin/ed/glbl.c:204-211 | The lines are visited in the order collected, each at most once. |
| `EdTrace.VisitedExactly` | src/bin/ed/glbl.c:72-138 | A collected line is visited if and only if when its turn comes no command has deleted or moved it and no u has been executed. |
| `EdTour.StaysOk` | src/bin/ed/glbl.c:186-201 | `EdModel.Stays` is true: from the texts alone, where each line stands after a command, or that the command has deleted or moved it. |
| `EdTour.FollowOk` | src/bin/ed/glbl.c:72-138 | The same after any number of commands, and after a u. |
| `EdTour.Determined` | src/bin/ed/glbl.c:72-138 | Whatever nodes the buffer is made of, the addresses visited are those of `EdModel.Visited`: the visits of a global command are a function of the texts, the current line and the command. |
| `EdGlobal.GlobalCommand` | src/bin/ed/main.c:534-550 | g and v look at the lines typed, or at all lines when none is; if there are no such lines it is an error that changes nothing. Otherwise state, status and output are those of `EdModel.ExecuteGlobal`, and the lines collected, the trace, both lists and the marks are as in `Performed`. |
| `EdMeaning.GlobalMeans` | src/bin/ed/main.c:534-550 | g and v without addresses look at the whole text, with addresses at that range, and it is an error, which prints and changes nothing, if that is not in the text. |
| `EdMeaning.ChosenMeans` | src/bin/ed/glbl.c:39-69 | The addresses looked for are exactly those in the range whose lines match, or do not, in ascending order. |
| `EdMeaning.VisitMeans` | src/bin/ed/glbl.c:98-136 | Each visit makes its line current and runs the list that the script has for it; the first error ends all. |
| `EdMeaning.PrintedParts` | src/bin/ed/glbl.c:72-138 | What several commands print is what each prints, in their order. |
| `EdGlobal.EnterOne` | src/bin/ed/main.c:211-216 | An entry, single or global: its effect and output, both lists, and that a mark it does not set stays unless its line had left the list. |
| `EdGlobal.RunSession` | src/bin/ed/main.c:195-253 | Entries typed one after another, failing or not, single or global: the invariant holds throughout, the user sees and reads what the model says, each entry changes the lists as it should, and a mark that no k sets again still names its line if that has been in the list whenever an entry began. |
| `EdMeaning.SessionMeans` | src/bin/ed/main.c:195-253 | A session is what its entries do and print one after another, errors or not. |
| `EdGrep.GrepPrints` | src/bin/ed/glbl.c:72-138 | g/re/p prints, of the lines typed or of the whole text when none is, those that match, v/re/p the others, in their order and each once; the text stays, and the last line printed is current. |
| `EdGrep.SiftedMeans` | src/bin/ed/glbl.c:39-69 | Of a text the lines that match are there as often as they were, no others are, and in the order of the text. |
| `CshNames.TotalOrder` | src/bin/csh/set.c:443-458 | The comparison of the searches is antisymmetric, and zero only for equal names. |
| `CshNames.Transitive` | src/bin/csh/set.c:443-458 | It is transitive. |
| `CshNames.NotQuiteStrcmp` | src/bin/csh/str.c:305-324 | It agrees with s_strcmp if and only if not one name is empty and the other begins with a character that looks negative. |
| `CshNames.StrcmpMeans` | src/bin/csh/str.c:305-324 | One name is less than another if and only if, where they first differ, it has ended or has the smaller character. |
| `CshNames.CmpMeans` | src/bin/csh/set.c:443-458 | The order of the searches is that one, except that the empty name comes after those that begin with a character that looks negative. |
| `CshTree.RightRotated` | src/bin/csh/set.c:728-751 | Single and double rotation to the left balance a subtree two too high on the right, and the factor tells whether it is as high as before. |
| `CshTree.LeftRotated` | src/bin/csh/set.c:761-784 | The same to the right. |
| `CshTree.FixBalances` | src/bin/csh/set.c:701-793 | A turn of balance leaves a balanced subtree, and the test of the loop tells exactly whether its height has changed, after an insertion and after a deletion. |
| `CshTree.FixKeeps` | src/bin/csh/set.c:701-793 | It changes no entry and no order, and neither makes nor loses a node. |
| `CshTree.Shallow` | src/bin/csh/set.c:701-793 | A balanced tree is at most about twice as high as the logarithm of its size. |
| `CshBalance.LeftTurn` | src/bin/csh/set.c:672-677 | The assignments of rleft, in their order, leave in memory the rotated tree with all its parent links, and touch nothing else. |
| `CshBalance.RightTurn` | src/bin/csh/set.c:666-671 | The same for rright. |
| `CshBalance.TurnBalances` | src/bin/csh/set.c:701-793 | After one turn either the whole tree is balanced again, or only the height of the subtree one level up has changed. |
| `CshVars.VarTable.RotateRightLeft` | src/bin/csh/set.c:740-742 | The double rotation, assignment by assignment, with the link from above. |
| `CshVars.VarTable.Balance` | src/bin/csh/set.c:701-793 | From a tree balanced but for one change of height to a balanced tree with the same entries. |
| `CshVars.VarTable.Adrof1` | src/bin/csh/set.c:443-458 | The node with that name, or none exactly when there is no such binding. |
| `CshVars.VarTable.SetQ` | src/bin/csh/set.c:497-523 | The bindings with that one updated, in a balanced search tree. |
| `CshVars.VarTable.UnsetV1` | src/bin/csh/set.c:570-610 | The bindings without that one, also when the node has two children and its predecessor's entry takes its place. |
| `CshVars.VarTable.UnsetV` | src/bin/csh/set.c:559-568 | A name without a binding is an error; otherwise it loses it. |
| `CshVars.VarTable.Run` | src/bin/csh/set.c:497-610 | After any run of assignments and removals the memory is a balanced search tree of exactly the bindings the run leaves. |
| `CshVars.EffectMeans` | src/bin/csh/set.c:497-610 | Name by name: the last assignment or removal of a name decides whether a run leaves it bound, and to what. |
| `CshVars.EffectOthers` | src/bin/csh/set.c:497-610 | A name that a run does not touch keeps its binding, or has none. |
| `CshVars.VarTable.Madrof` | src/bin/csh/set.c:427-441 | The first match from left to right in the tree, or none if there is none. |
| `CshVars.VarTable.FirstToUnset` | src/bin/csh/set.c:550-553 | Of all names that match, the one that comes before the others in the order of `ComesBefore`; none if and only if no name matches. |
| `CshVars.VarTable.UnsetMatching` | src/bin/csh/set.c:542-557 | All bindings that match are removed and no others, though each removal rebuilds the tree under the search; the count is theirs. |
| `CshVars.VarTable.Unset1` | src/bin/csh/set.c:542-557 | The same for several patterns in turn: the bindings left are those that no pattern matches; the pattern reported is the last one that matched none of the names then left, or none if each matched some. |
| `CshVars.VarTable.Plist` | src/bin/csh/set.c:795-830 | The walk by parent links prints exactly the bindings, each once, and each before those whose names come after its own in the order of `ComesBefore`. |
| `CshOrder.SortedMeans` | src/bin/csh/set.c:795-830 | Entries in the order of the tree are those in which each name comes before all later ones. |
| `CshOrder.MapInsert` | src/bin/csh/set.c:497-523 | An entry put into or taken out of its place in the order updates the bindings in just that name. |
| `DdRecords.BlockThenUnblock` | src/bin/dd/conv.c:92-261 | unblock after block gives a text back if and only if no line is longer than a record or ends in a space. |
| `DdRecords.UnblockThenBlock` | src/bin/dd/conv.c:92-261 | block after unblock gives data back if and only if their length is a multiple of cbsz and there is no newline in them. |
| `DdRecords.UnblockThenBlockPads` | src/bin/dd/conv.c:92-261 | It gives data padded with spaces to whole records if and only if there is no newline in them. |
| `DdRecords.ShortRecord` | src/bin/dd/conv.c:243-261 | A short last record counts as if it were padded with spaces. |
| `DdRecords.UnblockedRecords` | src/bin/dd/conv.c:210-241 | unblock makes of each record a line without its trailing spaces. |
| `DdRecords.BlockedAt` | src/bin/dd/conv.c:99-181 | Byte j of record i is byte j of line i, or a space if that line is shorter; there are as many records as lines. |
| `DdRecords.TableThroughout` | src/bin/dd/conv.c:183-201 | A table does to the output of block what it does to every byte if and only if what follows the last newline fills a record or has only bytes the table leaves as they are. |
| `DdRecords.BlockedWithTable` | src/bin/dd/conv.c:99-201 | What block writes through a table: the records of all lines translated; what follows the last newline as it is, its padding alone translated, unless it fills a record. |
| `DdRecords.NotThroughout` | src/bin/dd/conv.c:183-201 | An input for which it does not: one byte, which the table changes, without a newline. |
| `DdRecords.WithoutTable` | src/bin/dd/conv.c:131-139 | Without a table the records are those of the lines, cut or padded. |
| `DdPipe.Dd.WriteBlocks` | src/bin/dd/dd.c:324-382 | Whole blocks, or all there is, are written in order, however short the writes are. |
| `DdPipe.Dd.Output` | src/bin/dd/dd.c:324-382 | Nothing of the output is lost, repeated or reordered between what is written and what stays in the buffer. |
| `DdPipe.Dd.CopyLine` | src/bin/dd/conv.c:127-139 | A line is copied and translated up to its newline, the end of the record or the end of the input at hand. |
| `DdPipe.Dd.TossLine` | src/bin/dd/conv.c:160-173 | The rest of a line longer than a record is tossed to its newline, or all that is at hand is and truncation goes on. |
| `DdPipe.Dd.SkipTruncated` | src/bin/dd/conv.c:108-121 | After the next read truncation goes on or ends, with exactly the bytes after the newline left. |
| `DdPipe.Dd.ConvertBlock` | src/bin/dd/conv.c:99-181 | What has come out and what is still owed make up what block owes for the whole input. |
| `DdPipe.Dd.BlockClose` | src/bin/dd/conv.c:183-201 | The unfinished line makes the last record, and the output is complete. |
| `DdPipe.Dd.ConvertUnblock` | src/bin/dd/conv.c:210-241 | The same for unblock; less than a record stays. |
| `DdPipe.Dd.UnblockClose` | src/bin/dd/conv.c:243-261 | A short record makes the last line, without its trailing spaces, and the output is complete. |
| `DdPipe.Dd.ConvertPlain` | src/bin/dd/conv.c:56-79 | Without a conversion each byte read is translated once, where input and output share the buffer. |
| `DdPipe.Dd.Close` | src/bin/dd/dd.c:311-322 | At the end all output is written. |
| `DdPipe.Dd.Run` | src/bin/dd/dd.c:212-322 | However the input is cut into reads and the output into writes, what is written is what the conversion makes of the whole input. |
| `DdPipe.ConcatParts` | src/bin/dd/dd.c:212-322 | What several reads bring is the one after the other. |
| `DdPipe.BlockThenUnblock` | src/bin/dd/dd.c:212-322 | One dd after the other, with any buffer sizes, reads and writes on either side, gives a text back if and only if all its lines fit a record and none ends in a space. |
| `DdPipe.UnblockThenBlock` | src/bin/dd/dd.c:212-322 | The other way round, data come back padded with spaces to whole records if and only if there is no newline in them, and as they were if and only if they also were whole records. |

## Left out

- `EdBuffer.Editor` and `CshVars.VarTable` keep their nodes in maps from addresses to fields, and freeing a
  node takes its address out of the map: every dereference is proved to be of an allocated node, and a new
  node has any address not in use.  The undo stack, the active list, names and values are sequences, so that
  growing them by realloc is not modelled.
- `EdBuffer.Editor.PutSbufLine`: does not model the limit on the length of a line, nor a failed or short write to
  the scratch file.
- `EdBuffer.Editor.PushUndoStack`: memory does not run out, here as elsewhere; the signals that ed blocks and
  handles are left out too.
- `EdBuffer.Editor.AppendLines`: the input is a list of lines, and ends; its statuses for an input that cannot be
  read are left out.
- `EdReplace.SubstituteRange`: a substitution is a function from a line to what becomes of it, so that regular
  expressions, templates and counts are not modelled, nor is the print suffix of s.
- `EdCommands.ExecCommand`: takes addresses already resolved (their number and the last two, as the parser
  leaves them).  The print suffixes are left out, and e, E, f, h, H, l, n, P, q, Q, r, w, W, x, z, =, ! and the
  empty command.  Of the code under `#ifdef BACKWARDS` the other branch is meant.  An address that moves the
  current line before a command is the command `Goto`.
- `EdGlobal.ExecCommandList`: no command asks for its line to be printed after it, there being no print suffix.
- `EdGlobal.GlobalCommand`: G and V, which read each command list from the user, are the same loop with the
  lists of `script`; repeating the last list with &, and printing each line first, are not modelled.
- Reading a file into the buffer, which deletes lines 1 to 0 of an empty buffer before e, is left out with e.
- `CshVars.VarTable.SetQ`: stores the value when the node is made and not after it is balanced, which
  balance cannot tell; trimming the values and the memory of names and values are left out.
- `DdPipe.Dd.ConvertUnblock`: a table with conv=unblock is not modelled, because the expression that applies it
  (src/bin/dd/conv.c:217-219) changes and uses a pointer without an order between the two.
- `DdPipe.Dd.Run`: conv=swab, sync, noerror and osync, bs, count, files, seek, skip, the statistics, tapes and
  errors of read and write are left out; a read of zero bytes is the end of the input.
- The storage allocator, parser, globbing and job control of csh, and ed's encryption, are left out.
