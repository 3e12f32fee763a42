# Verified models of four components of the K editor

Each component is modelled in the form it has in the source - classes with fields, linked nodes changed in place, loops
with invariants - and proved against a specification that is stated without it.

* **The threaded red-black tree** (`krbtree.cpp`; modules `RbShape` to `RbSearch`). `RbShape.RbNode` is the C node with
  its links, colour and flags. A ghost value (`Tree`, and `Zipper` for a tree seen from one of its nodes) describes the
  shape the links form; every rotation, recolouring and splice is a method on the nodes that is proved to turn one shape
  into another. The invariant `RbTree.RedBlackTree.Valid` ties together the shape, the red-black rules, the circular
  list of leaves and the two cached neighbours of every internal node. Insertion and deletion keep it on every input,
  and the list changes by exactly one leaf. A red root is allowed only above exactly two leaves, which is what deletion
  can leave behind and what the bound on path lengths needs.
* **The undo log** (`fbuf_undo.cpp`, with the line operations of `fbuf_edit.cpp`; modules `UndoModel` to `UndoBuffer`).
  Three levels: `UndoModel.History` is what a user sees (texts at boundaries, a position, pending edits) with its laws;
  `UndoLog.Log` is the sequence of edit records with the lines at each of them; `UndoBuffer.FBuf` is the buffer with its
  doubly linked records, line table and allocator. Every buffer operation is proved to do to the history what the
  history operation does, so the laws hold of the buffer. `UndoLog.Balanced` says that every live block of text has
  exactly one owner, a line or a record.
* **The macro interpreter and recorder** (`macro.cpp`, with parts of `buildexecute.cpp`; modules `MacroText`,
  `MacroBranch`, `MacroRecord`, `MacroLabels`, `MacroQuote`, `MacroAssign`, `MacroMachine`, `MacroBalance`, `MacroRun`,
  `MacroSteps`, `MacroExpand`). The tokenizer methods are proved against a function on what remains of the text. On it
  rest the search for labels and the round trip from recorder over comment extraction and assignment back to the tokens.
  `MacroLabels` and `MacroQuote` say in characters what labels, blanks, prompt directives and quoted texts mean.
  `MacroMachine` is the interpreter as a function of its state (nested, recursive execution, halts, argument collection)
  with `MacroMachine.InRun` as what every step of a run keeps; every method of `MacroRun.Interpreter` is proved equal to
  its step, so what `MacroBalance` says about the function holds of the stack: `fExecute` leaves it as it was in all
  runs if and only if nothing that a command can do pushes a macro where its run may have ended
  (`MacroBalance.BalancedExactly`). Collecting an argument may end a run; the commands of the editor that collect one,
  `ARG::arg` (buildexecute.cpp:1062-1066), `argselkeymap` and `ARG::lastselect` (buildexecute.cpp:1086-1087), do so as
  the last thing, so in the editor the stack is always balanced (`MacroBalance.EditorIsBalanced`). `MacroSteps` says
  what each kind of token, effect and halt comes to, without the machine's own notions of branch and command, and
  `MacroExpand` that the commands delivered are the recursive expansion of the text.
* **The filename generators** (`fname_gen.cpp`; modules `FnameSplit` to `FnameGen`, `FnameRefs`, `FnameNames`): the
  in-place splitter on a character array, the reference parser, the odometer over substitution values, and the nested
  resumable generator. `FnameRefs.Entry` is a file specification as it is written - plain text and references in the
  four spellings, as every text can be read - with what each reference stands for; `FnameNames.Patterns` writes it out
  in all ways. The parser and the generator are proved to give exactly these.

Some findings about the code:

* With edits pending and a limit `g_iMaxUndo` below one, an undo step trims away the boundary it needs and then runs off
  the list; `UndoModel.StepSafety` says that this is the only way a step can fail, `UndoModel.LimitZeroFaults` gives
  such a history, and `UndoBuffer.FBuf.BoundaryBeforeUndo` shows the null pointer on the linked records.
* `BranchToLabel` restarts at the text but keeps the quote flag of the position it leaves and skips the first `Advance`.
  `MacroBranch.RestartIsFresh` says exactly when the restart is that of a fresh run; `MacroBranch.BranchBeforeLiteral`
  and `MacroBranch.BranchInTextStartingWithLiteral` are texts in which it then finds a label inside a literal.
* `PushVariableMacro` puts quotes around a text without doubling those in it. `MacroQuote.WrappedExactly` says which
  texts are typed as they are: all but the empty one, `""` and those with a quote strictly inside.
* `ExtractAssignableText` looks at the word before a backslash: a backslash directly after a continuation mark and
  blanks is not a continuation mark itself. A continuation mark in front of a comment is kept in the text
  (`MacroAssign.ContinuationAt`, `MacroAssign.Kept`).

The bodies of the line operations declared in `ed_core.h` are in `fbuf_edit.cpp`: `InsertLines__` at 1357-1392,
`DeleteLines__` at 1401-1425, `FreeLinesAndUndoInfo` at 1427-1439, `LineInfoReserve` at 1615-1626, `PutContent` and
`FreeContent` at 1277-1288 and 1333-1340.

Ghost parameters (positions in the list of leaves, shapes, traces, sets of nodes) only serve the proofs. Long functions
of the source are split into several methods; the method that bears the source's name has the contract of the whole.

## Model

| member | source | states |
|---|---|---|
| RbRotate.SingleRotate | krbtree.cpp:384-436 | all eleven link and flag changes of a rotation, either side, at the root or below it, and what stays |
| RbRotate.RotatedOrder | krbtree.cpp:384-436 | a rotation changes neither the order of the leaves nor that of the internal nodes |
| RbRotate.Rotate | krbtree.cpp:384-436 | on the linked nodes, a rotation below any context turns the shape into the rotated shape and leaves the rest of the structure alone |
| RbColour.SetColour | krbtree.cpp:45-46 | a colour change of any node of the structure changes exactly that node's colour in the shape |
| RbInsert.FlippedPending | krbtree.cpp:461-467 | flipping parent, uncle and grandparent leaves only the grandparent as possible flaw |
| RbInsert.LiftedFinal | krbtree.cpp:470-475 | the straight rotation, with a black uncle, makes the whole tree red-black |
| RbInsert.ZigzagFinal | krbtree.cpp:476-482 | the double rotation, with a black uncle, makes the whole tree red-black |
| RbInsert.Recolor | krbtree.cpp:439-486 | the loop ends, and from any tree whose one flaw is a red node that may stand below a red one it makes a red-black tree with the same leaves and internal nodes in the same order |
| RbList.Insert | krbtree.cpp:369-376 | the circle of links becomes the circle of the sequence with the item inserted |
| RbList.UnlinkNode | krbtree.cpp:378-382 | the circle of links becomes the circle of the sequence without the node |
| RbGrow.LPrev | krbtree.cpp:540-551 | the result is the internal node that comes directly before the node in order, or the head |
| RbGrow.RPrev | krbtree.cpp:553-564 | the result is the internal node that comes directly after the node in order, or the head |
| RbGrow.MkNewInt | krbtree.cpp:505-537 | a new internal node over two leaves in place of one, then recolouring: the tree is red-black again and gained exactly the leaf and the node at that place |
| RbGrow.RedRootIsShallow | krbtree.cpp:439-486 | a red root has only leaves below it, so wherever recolouring has a grandparent to push the flaw to, the root is black |
| RbTree.RedBlackTree.constructor | krbtree.cpp:575-595 | a new tree is valid and empty |
| RbTree.RedBlackTree.InsertBefore | krbtree.cpp:597-638 | for every valid tree and every position the tree stays valid - shape, colours, circular list, caches - and the sequence of leaves gains exactly the new leaf before that position |
| RbRepair.SiblingInternal | krbtree.cpp:733-733 | the sibling of a subtree that lacks a black node is internal, and its children have the black heights the cases rely on |
| RbRepair.DeficiencyMovesUp | krbtree.cpp:711-719 | reddening the sibling moves the lack of a black node to the parent, or leaves a red-black tree at the root |
| RbRepair.StillDeficient | krbtree.cpp:721-727 | after rotation 2.3b the lack is the same, below a red parent with a black internal sibling |
| RbRepair.FarRedFinal | krbtree.cpp:739-746 | rotation 2.3f makes the tree red-black |
| RbRepair.RecolourFinal | krbtree.cpp:747-752 | case 2.3c makes the tree red-black; its assertion holds |
| RbRepair.NearRedFinal | krbtree.cpp:753-765 | rotations 2.3d and 2.3e make the tree red-black |
| RbDelete.RecolourLoop | krbtree.cpp:708-719 | the loop ends, keeps the order, and stops at a red-black tree at the root or where one of the rotation cases applies |
| RbDelete.Rebalance | krbtree.cpp:706-767 | from any tree that lacks one black node at one place, a red-black tree with the same leaves and internal nodes in order; the assertions on the way hold |
| RbShrink.SiblingOfLeaf | krbtree.cpp:682-701 | the sibling of a leaf is a leaf or a red node over two leaves: the assertion that it is not a black internal node never fires |
| RbShrink.Shrink | krbtree.cpp:666-767 | splicing out a leaf and its parent, caches and colours included, gives the red-black tree with that leaf and one internal node removed |
| RbTree.RedBlackTree.DeleteNode | krbtree.cpp:640-768 | for every valid tree and every leaf the tree stays valid, the sequence of leaves loses exactly this one, its value is returned, and the leaf is no longer part of the structure |
| RbSearch.CachedExtremes | krbtree.cpp:38-41 | in a valid tree each internal node caches the last leaf of its left subtree and the first of its right one, and the two are neighbours in the list |
| RbSearch.ShortPath | krbtree.cpp:439-486 | below a black root a path has at most twice as many nodes as black ones |
| RbSearch.ManyLeaves | krbtree.cpp:439-486 | a red-black tree has at least two to the number of its black levels leaves |
| RbSearch.PathBound | krbtree.cpp:1110-1121 | every leaf-to-root path of a red-black tree with n leaves has at most 2 log2(n) + 1 nodes |
| RbSearch.PLength | krbtree.cpp:1110-1121 | on every leaf of every valid tree the loop ends with the length of its path, which is at most 2 log2(n) + 1 |
| RbSearch.FindGteGen | krbtree.cpp:1024-1045 | for every total preorder and sorted valid tree: an equal leaf if there is one, otherwise the first leaf with a greater key, or the head; equal exactly in the first case |
| RbSearch.InsertedSorted | krbtree.cpp:1086-1090 | inserting at the place a search gives keeps any sorted sequence sorted, equal keys included |
| RbSearch.InsertGen | krbtree.cpp:1086-1090 | the tree stays valid and sorted and gains exactly one leaf, with the given key and value |
| RbSearch.FindGen | krbtree.cpp:1062-1067 | null exactly when no leaf has an equal key, else such a leaf |
| RbSearch.DeallocSubtree | krbtree.cpp:858-867 | from every valid tree the loop ends with a valid empty one |
| UndoLines.LineTable.OpenHole | ed_core.h:1041-1044 | `InsertLines__` past its checks: with or without a reallocation, the lines become the old ones with blank lines let in |
| UndoLines.LineTable.CloseHole | ed_core.h:1041-1044 | `DeleteLines__` past its checks: the lines become the old ones without the range |
| UndoLines.LineTable.SwapLineContentOwnership | fbuf_undo.cpp:238-242 | the saved lines and the lines of the range change places |
| UndoLines.LineTable.VUndo | fbuf_undo.cpp:162-264 | for every record on the done side: the lines before it are back, the record holds what was taken out, the assertion holds |
| UndoLines.LineTable.VRedo | fbuf_undo.cpp:162-271 | for every record on the undone side: the lines behind it are back, the record holds what was taken out, the assertion holds |
| UndoLog.UndoneStep | fbuf_undo.cpp:231-271 | an undone record still leads between the same lines, from the other side |
| UndoLog.RetreatedChained | fbuf_undo.cpp:582-586 | a step back keeps the chain of records and lines, the flags on either side and all boundary texts |
| UndoLog.AppendedChained | fbuf_undo.cpp:476-514 | a new record after discarding keeps the chain and the order of boundaries; for the user it is a new boundary or a new edit with nothing to redo |
| UndoLog.UndoneOwners | fbuf_undo.cpp:238-242 | undoing a record moves ownership between line and record; no block gains or loses an owner |
| UndoLog.RewrittenView | fbuf_undo.cpp:522-525 | a coalesced edit is one more edit to the user and leaves all boundaries as they were |
| UndoLog.ViewWf | fbuf_undo.cpp:516-534 | at a boundary the lines are the text of the newest done boundary; pending edits leave nothing to redo; there is something to undo, or redo, exactly if the current record has a neighbour there |
| UndoLog.TrimNext | fbuf_undo.cpp:554-558 | a round of the trim loop keeps the log chained and trimmable to the same result |
| UndoList.EditList.UnlinkNewest | fbuf_undo.cpp:459-464 | the doubly linked list loses its newest record |
| UndoList.EditList.UnlinkOldest | fbuf_undo.cpp:465-470 | the doubly linked list loses its oldest record |
| UndoList.EditList.Link | fbuf_undo.cpp:509-513 | the doubly linked list gains a newest record, which is the current one |
| UndoBuffer.FBuf.RmvOneEdOp | fbuf_undo.cpp:457-474 | the newest undone or the oldest done record goes with exactly the blocks it owns; the result tells the kind of the new end |
| UndoBuffer.FBuf.AddNewEditOpToListHead | fbuf_undo.cpp:476-514 | all undone records go, and what they own; the new one is newest and current; the count is that of the boundaries |
| UndoBuffer.FBuf.InsertLines | ed_core.h:1041-1044 | the text becomes T[..y], blank lines, T[y..], as an edit on whatever history there was; nothing happens at or behind the end |
| UndoBuffer.FBuf.DeleteLines | ed_core.h:1041-1044 | the text becomes T[..first] and T[last + 1..], with last cut at the end of the buffer, as an edit; nothing happens if the range is empty or behind the end |
| UndoBuffer.FBuf.EditLine | fbuf_undo.cpp:516-534 | an edit that replaces one line, coalesced or not, with or without undo list before; the coalescing test never hits an undone record |
| UndoBuffer.FBuf.Coalesce | fbuf_undo.cpp:522-525 | the content in between is freed, the record keeps the oldest content, the history keeps its boundaries |
| UndoBuffer.FBuf.UndoInsBoundary | fbuf_undo.cpp:546-560 | pending edits are closed by a boundary and the history is trimmed to the limit; the count is that of the boundaries, the oldest record is one |
| UndoBuffer.FBuf.EdOpUndo | fbuf_undo.cpp:582-586 | one record back: the lines are those before it, the books balance |
| UndoBuffer.FBuf.EdOpRedo | fbuf_undo.cpp:588-592 | one record forth, the current pointer running one ahead of the lines |
| UndoBuffer.FBuf.AnythingToUndoRedo | fbuf_undo.cpp:594-597 | true exactly if the history has something to undo, or redo; false without undo list |
| UndoBuffer.FBuf.BoundaryBeforeUndo | fbuf_undo.cpp:546-560 | after the boundary that an undo step inserts, the current record has no predecessor if and only if edits were pending and the limit is below one; then the list is one record, from which step and trim loop go on to null |
| UndoBuffer.FBuf.UserStepUndoOrRedo | fbuf_undo.cpp:603-625 | refines the undo and redo steps of the history, for every state of the buffer, with or without undo list |
| UndoBuffer.FBuf.EnactAll | fbuf_undo.cpp:516-625 | any run of line edits, insertions, deletions, boundaries, undos and redos on a buffer leaves it with the history to which the run leads |
| UndoBuffer.FBuf.EditThenUndo | fbuf_undo.cpp:603-625 | any edits since a boundary, then one undo step: the lines of the buffer are those at the boundary |
| UndoBuffer.FBuf.UndoReinit | fbuf_undo.cpp:577-580 | the lines stay, their history, if any, becomes one boundary |
| UndoBuffer.FBuf.FreeLinesAndUndoInfo | ed_core.h:1053-1053 | every block of text is freed, whether a line or a record owned it, and none twice, with or without undo list |
| UndoModel.TrimmedKeepsNewest | fbuf_undo.cpp:554-558 | trimming keeps exactly the newest boundaries up to the limit, and fails exactly for a negative limit |
| UndoModel.BoundedStep | fbuf_undo.cpp:546-560 | after a boundary the count is within the limit and the step before it is still present, if the limit is at least one |
| UndoModel.StepSafety | fbuf_undo.cpp:603-625 | an undo step runs off the list if and only if edits are pending and the limit is below one; a redo step never does |
| UndoModel.LimitZeroFaults | fbuf_undo.cpp:554-558 | a history on which it does |
| UndoModel.RedoOfUndo | fbuf_undo.cpp:603-625 | redo after undo is the identity on the lines and, up to the closing boundary, on the history |
| UndoModel.UndoOfRedo | fbuf_undo.cpp:603-625 | undo after redo is the identity |
| UndoModel.RunsAreSafe | fbuf_undo.cpp:546-625 | no run of edits, boundaries, undos and redos fails if the limit is at least one |
| UndoModel.UndoRestoresBoundary | fbuf_undo.cpp:603-625 | after any edits since a boundary, one undo step restores the lines that held there, and one redo step the edited ones |
| UndoModel.ManySteps | fbuf_undo.cpp:603-625 | k undo steps show the text k boundaries back, k redo steps restore the history |
| MacroText.NextTokenShortens | macro.cpp:173-215 | every token strictly shortens what remains, to a suffix of it; at the end nothing remains |
| MacroText.SuffixMeans | macro.cpp:167-167 | the recursive notion of suffix is the usual one |
| MacroText.MacroRuntimeStkEntry.Ctor | macro.cpp:160-171 | the text is the trimmed or quoted source, and reading starts at its first token |
| MacroText.MacroRuntimeStkEntry.GetNextToken | macro.cpp:173-215 | the next token of what remains, with doubled quotes and prompt directives; what remains is shorter and part of the text |
| MacroText.FindLabelFinds | macro.cpp:227-239 | in terms of the tokens, the search stops right behind the first one that marks the label, or there is none |
| MacroText.MacroRuntimeStkEntry.BranchToLabel | macro.cpp:227-239 | the loop ends; it found the label or there is none from where it started |
| MacroBranch.RestartIsFresh | macro.cpp:231-231 | the search starts like a fresh run if and only if the branch was not directly followed by a literal and the text does not start with one |
| MacroBranch.BranchFinds | macro.cpp:227-239 | then it stops right behind the first marking token outside any literal, or there is none |
| MacroBranch.BranchBeforeLiteral | macro.cpp:227-239 | a text with a branch in front of a literal in which it finds a label that no fresh run has |
| MacroBranch.BranchInTextStartingWithLiteral | macro.cpp:227-239 | a text that starts with a literal in which it finds a label that no fresh run has |
| MacroLabels.MarksMeans | my_strutils.h:198-208 | a token marks a label exactly if it is a colon and as many characters as the label, each the same or the other case of the same ASCII letter; a longer or shorter label never does |
| MacroLabels.SearchInRecorded | macro.cpp:227-239 | in any recorded macro the search stops right behind the first such token, whatever names, literals and other labels stand around it, and fails exactly if there is none |
| MacroLabels.BranchInRecorded | macro.cpp:227-239 | so does the search of a branch, which starts at the text itself, if the macro starts with a name and no literal follows the branch |
| MacroLabels.LabelExamples | macro.cpp:235-235 | `:>ABC` marks `>abc`; `:>a` and `:>abcd` do not |
| MacroLabels.DirectiveSkipped | macro.cpp:199-206 | a prompt directive goes with the blanks behind it, and nothing else does |
| MacroLabels.TrimMeans | macro.cpp:161-161 | a text that is not quoted loses exactly the blanks at its ends |
| MacroQuote.WrappedExactly | macro.cpp:160-171 | for every text: pushed as one quoted literal, it is typed character by character if and only if it is not empty, not just two quotes, and has no quote strictly inside |
| MacroRecord.MacroRecorder.SaveCMD | macro.cpp:618-665 | the line and the quote flag are those of the commands recorded so far |
| MacroRecord.MacroRecorder.Finish | macro.cpp:753-759 | the closed line is the text of the recorded commands |
| MacroRecord.TextReads | macro.cpp:618-665 | from either quote state, recorded text is read back token by token |
| MacroRecord.ReplayRestores | macro.cpp:618-665 | recording, closing and replaying is the identity on every stream of characters, quotes and blanks included, and spellable command names |
| MacroAssign.ExtractAssignableText | macro.cpp:809-870 | the four-state machine follows the parity rule for comments and continuations on every input |
| MacroAssign.ExtractsOnce | macro.cpp:809-870 | the rule determines the result |
| MacroAssign.PlainLineKept | macro.cpp:809-870 | a line with any text, without comment and without a continuation mark at its end, is kept whole |
| MacroAssign.MarkedLineKept | macro.cpp:862-868 | a line that ends in a backslash as a word of its own goes on, and exactly the text before that and the one blank in front of it is kept |
| MacroAssign.CommentCut | macro.cpp:824-827 | what stands before a comment is kept whole, blanks included |
| MacroAssign.SettingParses | macro.cpp:55-65 | a name, a colon and a value that does not start with an equals sign set the switch or key of that name to that value |
| MacroAssign.LinesWithout | macro.cpp:47-55 | exactly the lines of blanks count as blank, and exactly the others without colon as missing one |
| MacroAssign.RecordAssignReplay | macro.cpp:47-77 | a recorded line survives extraction and assignment under its macro's name, and the macro replays the recorded stream |
| MacroRun.Interpreter.PushMacroStringOk | macro.cpp:288-294 | one frame more, or a full stack of 32 left as it was |
| MacroRun.Interpreter.PopUntilBreak | macro.cpp:302-309 | exactly the frames from the topmost break frame on go, or all |
| MacroRun.Interpreter.CleanupPendingMacroStream | macro.cpp:313-315 | exactly the run's own frames go |
| MacroBalance.FetchedLeads | macro.cpp:369-413 | every command that is read is one to which the labels and branches of the top macro lead, on a trace of jumps each right for the last result |
| MacroRun.Interpreter.CmdFromCurMacro | macro.cpp:369-413 | takes the machine's step; a returned command is one to which the top macro leads, the other frames stay, and the run's invariant holds at every exit |
| MacroRun.Interpreter.GetNextCMD | macro.cpp:472-527 | takes the machine's step and keeps the run's invariant; a command comes only from a run that has not ended |
| MacroMachine.CollectedInRun | buildexecute.cpp:1003-1050 | collecting an argument keeps the run's invariant, even if the macro ends in the middle of it |
| MacroMachine.DidInRun | buildexecute.cpp:594-611 | whatever a command does - pushing, running, collecting, in any order and nesting - keeps the run's invariant; what is safe by itself pushes nothing late |
| MacroMachine.RanInRun | macro.cpp:341-360 | however a run ends, the stack is the frames below it, untouched, and the macros pushed late; none, if every command is safe |
| MacroMachine.ExecutedInRun | buildexecute.cpp:1105-1112 | fExecute inside a run: an ended run goes on with the new frame, a run that has not ended keeps its frames |
| MacroBalance.BalancedExactly | buildexecute.cpp:1105-1112 | for any description of what commands can do: fExecute leaves the stack as it was in every run, for all macros, states and courses of events, if and only if each thing they can do is safe by itself - no push where the run may have ended |
| MacroBalance.EditorIsBalanced | buildexecute.cpp:1062-1087 | with commands that collect an argument only as the last thing they do, as the editor's do, the stack is always as it was |
| MacroBalance.Balance | buildexecute.cpp:1105-1112 | for every macro, nesting and behaviour of commands the frames below stay as they were, with the macros pushed late on top; if every command is safe the stack is as it was |
| MacroBalance.Unbalanced | buildexecute.cpp:1105-1112 | everything that is not safe has a run, of four events above 31 macros, that leaves another macro on the stack |
| MacroBalance.ArgumentEndsRun | buildexecute.cpp:1006-1049 | collecting an argument at the end of a run's own macro ends the run |
| MacroRun.Interpreter.CollectArgExecute | buildexecute.cpp:1003-1050 | takes the machine's step and keeps the run's invariant |
| MacroRun.Interpreter.FetchAndExecuteCMDs | macro.cpp:341-360 | whatever ends the run - exhaustion, abort or halt - the return flag is clear and the frames below the run are untouched; nothing is left above them if every command is safe |
| MacroRun.Interpreter.FExecute | buildexecute.cpp:1105-1112 | for every macro and nesting, with commands that are safe the stack is as it was - by BalancedExactly no weaker condition on the commands will do; in any case the frames below stay as they were |
| MacroSteps.CharacterIsGiven | macro.cpp:379-384 | a character of a literal is given as the command that types it |
| MacroSteps.CommandIsGiven | macro.cpp:385-387 | the name of a command is given as that command, and the text goes on behind it |
| MacroSteps.EndPops | macro.cpp:409-412 | the end of the text pops the top macro, and ends the run if its frame is the break frame |
| MacroSteps.HaltStops | macro.cpp:375-378 | a requested halt ends the run, whatever token was read |
| MacroSteps.UnknownStops | macro.cpp:406-407 | so does a name that is neither a command nor a label nor a branch |
| MacroSteps.LabelIsPassed | macro.cpp:391-405 | a label is passed over |
| MacroSteps.BranchAlways | macro.cpp:391-405 | `=>` leads behind its label, ends the run if there is none, and ends the macro if it names none |
| MacroSteps.BranchIfTrue | macro.cpp:391-405 | `+>` does so if the last command succeeded, and is passed over if not |
| MacroSteps.BranchIfFalse | macro.cpp:391-405 | `->` does so if the last command failed, and is passed over if not |
| MacroSteps.BranchChooses | macro.cpp:369-413 | in any recorded macro, a branch with a command behind it gives that command or the one behind the label, as its sign and the last result say |
| MacroSteps.HaltEndsRun | macro.cpp:341-349 | a halt ends a run before anything is read or executed: its frames go, nothing else changes |
| MacroSteps.HaltEndsReading | macro.cpp:487-489 | a halt while a command is sought: no command is given |
| MacroSteps.CollectsOne | buildexecute.cpp:1003-1050 | a command read while collecting joins the argument, is executed and leaves its result for branches, or ends the argument with its result |
| MacroSteps.DoneInRow | buildexecute.cpp:594-611 | what a command does, it does in order |
| MacroSteps.DoneAlone | buildexecute.cpp:594-611 | a command passes on what collecting its argument returned unless it returns something of itself; running a macro and requesting a halt do just that |
| MacroSteps.FunctionCompletes | buildexecute.cpp:1105-1112 | fExecute of a function executes it once, leaves its result, and changes nothing else |
| MacroExpand.MacroExpands | macro.cpp:472-527 | a macro-like command is executed, not given: the next command is the first of the text it pushed, whose frame stands behind that command above the caller behind the call, and the last result is the command's own |
| MacroExpand.Expanded | macro.cpp:472-527 | for every text and every nesting of calls the stack has room for, the commands given one after the other are the recursive expansion of the text, in order; then the text is exhausted and what was below it untouched |
| MacroExpand.ReadExpanded | macro.cpp:472-527 | calling GetNextCMD until it gives none returns exactly these commands and leaves the frames below the run |
| FnameSplit.DissectionUnique | fname_gen.cpp:40-45 | however a text is taken apart into delimiter gaps and delimiter-free parts, the parts are the fields |
| FnameSplit.FieldsDissect | fname_gen.cpp:40-45 | the fields and the gaps between them make up the text |
| FnameSplit.ChopAscizzOnDelim | fname_gen.cpp:46-63 | on any buffer with two NULs at the end, the loop ends with the fields in order, one NUL behind each and one more at the end, and nothing behind the old end touched |
| FnameSplit.FieldStandsAt | my_strutils.h:601-606 | each field stands at its offset, a NUL behind it, the next one behind that |
| FnameSplit.DicedOnDelimString.constructor | fname_gen.h:60-68 | the object holds the fields of its text |
| FnameSplit.DicedOnDelimString.GetNext | my_strutils.h:601-606 | the start of the first, or next, field, or none |
| FnameOdometer.RankOfCombination | fname_gen.cpp:253-261 | the combination at a place has that place |
| FnameOdometer.CombinationOfRank | fname_gen.cpp:253-261 | and is the only one there |
| FnameOdometer.RankIsOrder | fname_gen.cpp:253-261 | places are in dictionary order, the last digit turning fastest |
| FnameOdometer.Carry | fname_gen.cpp:254-259 | a carry over any number of full digits moves one place on |
| FnameSubst.PartsJoin | fname_gen.cpp:216-239 | the parts, joined by the separator, are the value |
| FnameSubst.PartsCount | fname_gen.cpp:224-226 | there is one part more than separators |
| FnameSubst.PartsFree | fname_gen.cpp:230-238 | no part holds a separator |
| FnameSubst.SplitValue | fname_gen.cpp:216-239 | the constructor's two loops give exactly these parts, and the array is of the right size |
| FnameSubst.FilledIsReplaced | fname_gen.cpp:263-279 | the string built from left to right is the base with each span replaced on its own, from the last to the first |
| FnameSubst.StrSubstituterGenerator.AddMultiExpandableSeg | fname_gen.cpp:241-244 | one more span with the parts of its value, behind the others |
| FnameSubst.StrSubstituterGenerator.NextCombination | fname_gen.cpp:253-261 | one place on, and exhausted exactly behind the last of all combinations |
| FnameSubst.StrSubstituterGenerator.GetNextString | fname_gen.cpp:263-279 | call k gives the string of combination k as long as k is below the product of the counts, and every later call fails |
| FnameCfx.SegsFit | fname_gen.cpp:297-350 | for every string the spans are in increasing order, do not overlap and lie inside |
| FnameCfx.StatusMeans | fname_gen.cpp:341-347 | what the status tells about lists behind the start, at the start, and values at all |
| FnameCfx.CfxToSsg | fname_gen.cpp:297-350 | the generator, if there is one, gets the string and exactly the spans and values of its references, up to one that does not end; the status is the same without a generator |
| FnameGen.CfxFilenameGenerator.constructor | fname_gen.cpp:439-447 | all names are still to come |
| FnameGen.CfxFilenameGenerator.VGetNextName | fname_gen.cpp:451-480 | the next of the names still to come - over entries, combinations, matches, in order - or false exactly if there are none; then the list starts over |
| FnameGen.CfxFilenameGenerator.ReadAll | fname_gen.cpp:451-480 | asking until the first false gives exactly the concatenation over entries, combinations and matches, none lost or repeated |
| FnameRefs.EntryParses | fname_gen.cpp:297-350 | wherever it stands in a text, an entry as written - any plain text, any references in the four spellings - gives exactly the spans of its references that stand for something, with the parts of what they stand for; the parse succeeds exactly if the last reference ends |
| FnameRefs.MeaningIs | fname_gen.cpp:329-341 | what a name stands for, case by case: its value; if undefined with bars, the list it spells out; at the very start without value, the current directory; otherwise nothing, and it stays as it is |
| FnameRefs.EveryTextIsEntry | fname_gen.cpp:297-350 | every text can be read as an entry |
| FnameRefs.ParseEntry | fname_gen.cpp:297-350 | CFX_to_SSG on a text as written: these spans, and the parse error exactly if the last reference does not end |
| FnameNames.EntryNamesAre | fname_gen.cpp:451-480 | the names of an entry are the matches of all ways to write it out, alternatives in order, the last reference varying fastest |
| FnameNames.NoReference | fname_gen.cpp:451-480 | an entry without references gives its own matches |
| FnameNames.OneReference | fname_gen.cpp:451-480 | an entry with one defined reference gives the matches with each part of its value in place of it, in order |
| FnameNames.TwoReferences | fname_gen.cpp:253-261 | with two, the way with part i of the first and part j of the second is number i times the parts of the second plus j |
| FnameNames.EveryListIsEntries | fname_gen.cpp:439-447 | every text can be read as a list of entries between gaps of separators |
| FnameNames.ReadList | fname_gen.cpp:439-480 | a generator for any list, asked until the first false, gives the matches of all ways to write out each entry, in order |

## Left out

- RbTree.RedBlackTree.InsertBefore: does not model a failing allocator, the operation counters, the check tags and their early returns, or logging.
- RbTree.RedBlackTree.DeleteNode: nodes handed back to the allocator are only known to be out of the structure.
- `key`/`leftExt` and `val`/`rightExt` share storage in C; here they are separate fields, so a read through the wrong member would not show. The bits of `roothead` are two booleans; keys and values are integers.
- RbSearch.FindGteGen: the per-type copies of the search are not modelled; nor are `rb_tree_corrupt`, `rb_walk_tree_ok` and traversal.
- UndoBuffer.FBuf.UserStepUndoOrRedo: requires a limit of at least one for an undo with edits pending, because the source dereferences null otherwise (UndoModel.StepSafety).
- UndoBuffer.FBuf.UndoInsBoundary: with edits pending, requires a limit that is not negative, for the same reason.
- UndoBuffer.FBuf.InsertLines: on a buffer without undo list only calls that insert nothing are allowed; the others dereference null in the source.
- UndoBuffer.FBuf.DeleteLines: on a buffer without undo list only calls that delete nothing are allowed, for the same reason.
- UndoBuffer.FBuf.EditLine: edits of lines behind the end of the buffer, which grow it, are not modelled.
- UndoBuffer.FBuf: buffers whose no-edit flag is set or toggled, cursor and window positions, dirty state, file times, marks, redraw and the debug display are not modelled; the limit is a parameter of each call; the line table and the list of records are objects of their own, and the record subclasses are constructors of one datatype held by the record.
- MacroText.MacroRuntimeStkEntry.GetNextToken: prompt responses (`chGetAnyMacroPromptResponse`) are not modelled.
- MacroRecord.MacroRecorder.SaveCMD: lines are not wrapped at the right margin, and the conversion of leading blanks to tabs is not modelled.
- MacroAssign.RecordAssignReplay: command names are not empty, hold no blank or quote, do not start with `<` or `#`, and are not a lone backslash; a macro name also holds no colon. An assignment line takes other names for something else.
- MacroRun.Interpreter.GetNextCMD: the recording of commands and the reading of the keyboard are not modelled.
- MacroRun.Interpreter.CollectArgExecute: a literal character does not open a text prompt; selections are not modelled.
- MacroRun.Interpreter.BuildExecute: what commands do is a script of events (push a macro, run one, collect an argument, request a halt), which ends in a halt request; the keyboard is never read and text-entry prompts do not occur. Names are looked up in any given map.
- MacroRun.Interpreter.FetchAndExecuteCMDs: only the form that does not catch halt requests, as `fExecute` calls it.
- MacroExpand.Expanded: texts with labels and branches, and macro-like commands that do more than push one text, are covered step by step (MacroSteps, MacroExpand.MacroExpands), not as a whole expansion.
- FnameGen.CfxFilenameGenerator.VGetNextName: the user's break key is not modelled; `getenv` and the matching of wildcards are pure functions, and no match is empty.
- FnameSubst.StrSubstituterGenerator: the list of segments is a sequence, with the value indices in a second one; the pointers into the copied value are the parts themselves.
- DirListGenerator, FilelistCfxFilenameGenerator, key tables, terminal, clipboard, child processes, Lua and window code.
