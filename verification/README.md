# Verified models of a boot loader's command interpreter and tools

The repository holds bare-metal tools for an ARM board and part of a U-Boot tree.  This project
models the parts of it whose behaviour is hardest to see from the code, and proves what they are for.

- **Hush shell.**  The parser flattens if/elif/else, while, until, for and and-or chains into nested
  pipe lists (`HushParse`, `HushParser`), and `run_list_real` interprets a list with flags and jumps
  back (`HushRun`).  `HushSyntax` gives structured programs and their pipe lists, `HushMeaning` a
  structural semantics in the spirit of section 2.9.4 of POSIX XCU; `HushRender` writes a program out
  as tokens.  The theorems say that the parser builds the lists of the program and that the flag
  machine computes the meaning; `HushEdges` says what it does with the programs left out there, where
  parts of a compound are empty.  `HushScript` is input of several lines, run line by line or at once.
  And-or lists are modelled as the code has them: the first mismatch skips everything up to the next
  `;`.  `HushVars` is the list of local variables, and `HushFor` says
  what the commands of a `for` loop are and what they see there.
- **Line editor and history.**  `LineEdit` refines `cread_line` to a two-list editor and keeps a
  terminal (`Terminal`) in step with the buffer; `LineKeys` gives the keys by their character codes;
  `History` is the ring of recalled lines.
- **ELF writer and loader.**  `ElfWriter` writes the file specified in `ElfImage`; `ElfLoader` loads it
  by program headers or section headers (System V gABI, chapters 4 and 5), and `ElfPlaces` says where the
  bytes of any file end up.
- **Bootstage stash**, **EFI memory table**, **storage enumeration**, **macro expansion**,
  **EEPROM page chunks**, **PowerPC operand coding**, **boot keys**, **flash checksum** and
  **RAM reservation**: `Bootstage`, `EfiMemMap`, `StorageEnum`, `MacroExpand`, `Eeprom`, `Bedbug`,
  `BootKey`, `FlashCrc`, `Reserve`.
- `Bytes`, `CStrings`, `Bits` and `Options` hold what these share: little-endian words, tables of C
  strings, numbers seen bit by bit, and values that may be missing.

Code that updates state in place is modelled by classes and loops proved against functions on values;
what the code promises is then proved about those functions.

What the code calls but does not contain is a parameter: a command is any transformer of an abstract
world, `getenv` any function, `get_dev` any table, the console a sequence of characters, the I2C bus
a predicate saying which offsets fail, `strtoul` the value a word has.  Shell runs carry an allowance
of jumps back, because the C loop need not end; `RunIsMeaning` removes it.

Where the code does not do what one would expect, the code is followed and the exact condition is
proved:

- an exit status is lost inside a compound command (`ExitStatusOfCompoundIsLost`);
- a loop with a command-less condition never runs, which is right for `until` only
  (`BlankConditionNeverLoops`);
- after an empty then part the next elif is looked at or not by a stale code, and an elif without a
  condition is no elif (`EmptyThenLooksBack`, `EmptyElifJoinsThens`); when an if command does what it
  means all the same is `IfAgrees`;
- an error in a word is reported and then ignored if a separator ends the word, and after a closed
  compound the word becomes part of the next one (`MisplacedWord`);
- a last line without a command turns a failed script into a successful one when it is run line by
  line, but not when it is run at once (`ModesAgree`);
- after ESC a character other than `[` is lost, and ESC itself goes into the line (`BrokenSequence`);
- of twenty history slots nineteen can be reached (`UpArrows`);
- the first symbol of a wrapped file has the reserved name offset 0 (`FirstSymbolIsNameless`), and
  loading by section headers ignores a ROM at base 0 (`WrapThenLoadByShdr`);
- a segment whose memory size is below its file size clears the address space (`ShortSegmentWipes`);
- descriptors more than half the address space apart compare the wrong way round (`CompareIsOrder`);
- an inactive or missing device hides the later devices of its group (`Enumerates`, `AllAreListed`);
- a stash header may promise fewer bytes than its records take (`CopyStaysInside`);
- EEPROM chunks cross pages when pages exceed 256 bytes (`ChunksStayInPages`), only the last bus error
  is reported (`OnlyLastErrorReported`), and a range that wraps is silently not transferred;
- special registers cannot be named, because words are lowered and the table
  (U-Boot/include/bedbug/tables.h:483-582) is in capitals (`CapitalNamesAreLost`); the displacement
  field of the load and store forms is given 15 bits there (line 25), so by `ShownIffFits` no
  displacement of 0x8000 or more, hence no negative one, comes back;
- with no boot key configured the matcher's window has no room, and the first character typed makes
  its shift leave the array (`ShiftStaysInside`, `PasswdAbort`).

## Model

| member | source | states |
|---|---|---|
| `HushRun.CheckFor` | U-Boot/common/cli_hush.c:1756-1777 | the scan before a run accepts exactly the lists in which every `for` is followed by `in` and no `in` is last or followed by an `in` with words |
| `HushRun.Consider` | U-Boot/common/cli_hush.c:1779-1851 | for any pipe and any setting of the flags, the assignments and `continue`s ahead of the call take the decision of the specification: skip, stop, or run which words under which flags |
| `HushRun.Record` | U-Boot/common/cli_hush.c:1892-1900 | the flags set once a command has ended are those of the specification: condition code of if/elif, loop flag of while/until, connector mismatch |
| `HushRun.RunListReal` | U-Boot/common/cli_hush.c:1741-1906 | the flag machine with its jumps back through `rpipe` computes the specified run of any pipe list, from any world; nested groups recurse |
| `HushRun.Settle` | U-Boot/common/cli_hush.c:1883-1887 | a command changes nothing but `$?` here; a code of -1 or more goes on unchanged with `$?` 0 or 1, any code below becomes -2 with the exit status in `$?`, and `$?` is 0 exactly for the codes 0 and -2 |
| `HushMeaning.ChainSkipped` | U-Boot/common/cli_hush.c:1796-1801 | after a connector mismatch every further pipe of the and-or chain is passed over, up to and including the next `;` |
| `HushMeaning.PipeRuns` | U-Boot/common/cli_hush.c:1855-1900 | one active pipe runs its statement once and leaves the flags its status calls for |
| `HushMeaning.ChainCut` | U-Boot/common/cli_hush.c:1898-1900 | a failed and-connector or a successful or-connector drops the rest of the chain and nothing after it |
| `HushMeaning.ChainRuns` | U-Boot/common/cli_hush.c:1778-1904 | the pipes of any and-or chain, in any section that is active, do what the chain means and leave the flags as after a plain command |
| `HushMeaning.ListRuns` | U-Boot/common/cli_hush.c:1778-1904 | the same for any list of chains |
| `HushMeaning.ListPassed` | U-Boot/common/cli_hush.c:1802-1805 | a section that is not active is passed over without running anything |
| `HushMeaning.ArmsRun` | U-Boot/common/cli_hush.c:1802-1805 | the pipes of any if/elif/else run the arm the structured meaning selects: first true condition, else part, or nothing |
| `HushMeaning.DoneRuns` | U-Boot/common/cli_hush.c:1844-1850 | at `done` the machine jumps back exactly when the loop flag is set, and otherwise forgets the loop |
| `HushMeaning.BodyRuns` | U-Boot/common/cli_hush.c:1841-1850 | the do part runs exactly when the loop flag is set, and then ends in a jump back |
| `HushMeaning.LoopRuns` | U-Boot/common/cli_hush.c:1779-1793 | the pipes of any while or until loop do what the loop means, for any number of rounds |
| `HushMeaning.HeadRuns` | U-Boot/common/cli_hush.c:1829-1839 | each visit of the `for` head binds the next value and runs that assignment as a command |
| `HushMeaning.EachStarts` | U-Boot/common/cli_hush.c:1806-1817 | the first visit of the `for` head makes the list of bindings; the whole `for` does what it means |
| `HushMeaning.EachRuns` | U-Boot/common/cli_hush.c:1806-1839 | from any point of the binding list the `for` loop does what is left of it |
| `HushFor.ForRuns` | U-Boot/common/cli_hush.c:1806-1839 | the pipes of a `for`, in any shell and with any body, go through the values its words expand to, in order: the assignment of the value is called, then the body runs |
| `HushFor.ForCalls` | U-Boot/common/cli_hush.c:1806-1839 | what is called by a `for` over any words with any commands in its body is, value by value, the assignment of that value and the commands, and nothing else |
| `HushFor.BodySees` | U-Boot/common/cli_hush.c:1571-1599 | with the variables of `HushVars` behind it: in the round of a value every command of the body sees the loop variable with that value and all other variables as they were, and afterwards the variable keeps the last value |
| `HushMeaning.StmtRuns` | U-Boot/common/cli_hush.c:1564-1569 | the body of any statement, simple or compound, runs to the outcome the statement means |
| `HushMeaning.ProgramRuns` | U-Boot/common/cli_hush.c:1741-1906 | main theorem: for every structured program (non-empty conditions and then parts), every shell, world and allowance of jumps, running its flattened list gives the same world, return code and `$?` as the structural semantics, or both run on |
| `HushMeaning.RunMonotone` | U-Boot/common/cli_hush.c:1778-1778 | a larger allowance of jumps never changes a run that ended |
| `HushMeaning.RunListGrows` | U-Boot/common/cli_hush.c:1778-1778 | so the allowance decides nothing but whether the model waits for the end |
| `HushMeaning.RunIsMeaning` | U-Boot/common/cli_hush.c:1741-1906 | without an allowance: a run ends with an outcome if and only if the program means that outcome, and there is at most one |
| `HushEdges.BlankConditionNeverLoops` | U-Boot/common/cli_hush.c:1894-1897 | where the theorem needs its demand: a loop whose condition holds no command ends at once with 0, for every loop; this is its meaning if and only if it is an `until` |
| `HushEdges.ArmsAsRun` | U-Boot/common/cli_hush.c:1802-1805 | what the flags do with any arms of an if command, empty parts included and from any setting of the two saved codes: `if_code` decides whether an `elif` is looked at, `next_if_code` whether a then or else part runs |
| `HushEdges.EmptyThenLooksBack` | U-Boot/common/cli_hush.c:1802-1805 | with no pipe between `then` and `elif`, in an arm at any position, the next `elif` is looked at exactly when the code left by the arms before is non-zero, whatever the condition of this arm said |
| `HushEdges.EmptyElifJoinsThens` | U-Boot/common/cli_hush.c:1802-1805 | with no pipe between `elif` and `then` the pipes are those of one arm with both then parts, so both run when the condition before holds |
| `HushEdges.IfAgrees` | U-Boot/common/cli_hush.c:1802-1805 | for every if command, whatever parts are empty: running its pipes gives its meaning when `Agrees` holds, a test on the empty parts, the statuses of the conditions run, the then part that runs and what `expand` gives after it; if every command leaves a mark in the world, if and only if it holds |
| `HushEdges.GoodAgrees` | U-Boot/common/cli_hush.c:1802-1805 | the test holds for every if command whose every `elif` has a pipe on both sides |
| `HushEdges.EmptyPartsDiffer` | U-Boot/common/cli_hush.c:1802-1805 | three inputs that fail it and do not run as they mean: an empty then part in the first arm, one in a later arm, an empty `elif` condition |
| `HushMeaning.RunCode` | U-Boot/common/cli_hush.c:1883-1887 | no list, however nested, returns a code below -2 |
| `HushMeaning.ExitStatusOfCompoundIsLost` | U-Boot/common/cli_hush.c:1883-1887 | an exit status survives in `$?` if and only if the exit is a command of the outermost list; from inside any compound it becomes 0 |
| `HushParse.ReservedWord` | U-Boot/common/cli_hush.c:2381-2426 | on every state, also into and after a syntax error, a continuation word is expected exactly when a compound is open, at every level of the stack; unless it is an error, a word opens, keeps or closes exactly one level |
| `HushParse.DoneWord` | U-Boot/common/cli_hush.c:2430-2517 | keeps that balance for every word |
| `HushParse.Feed` | U-Boot/common/cli_hush.c:2959-3084 | keeps it for every word, separator and newline, with any text left over from before, whether or not the parse continues on a newline |
| `HushParse.FeedAll` | U-Boot/common/cli_hush.c:2945-3084 | keeps it over every token sequence in both modes, so every reachable parser state is balanced |
| `HushParser.TableAgrees` | U-Boot/common/cli_hush.c:2366-2378 | each table entry has the code, the follow-up words and the start and end marks of the specification |
| `HushParser.TableIsComplete` | U-Boot/common/cli_hush.c:2366-2378 | a word in no entry is not reserved |
| `HushParser.Parser.constructor` | U-Boot/common/cli_hush.c:2334-2349 | the fresh context is balanced |
| `HushParser.Parser.DonePipe` | U-Boot/common/cli_hush.c:2570-2583 | closes the pipe under the word in force and opens an empty one |
| `HushParser.Parser.ReservedWord` | U-Boot/common/cli_hush.c:2381-2426 | the search of the table and the push and pop in place; the pop never meets an empty stack |
| `HushParser.Parser.Accept` | U-Boot/common/cli_hush.c:2388-2421 | the state after a reserved word, for every entry and every balanced state |
| `HushParser.Parser.DoneWord` | U-Boot/common/cli_hush.c:2430-2517 | the state, the error code and the text left after a word; the text stays exactly after a closed compound |
| `HushRender.StmtParses` | U-Boot/common/cli_hush.c:2381-2517 | the tokens of any statement leave exactly its body in the child, whatever follows |
| `HushRender.ArmParses` | U-Boot/common/cli_hush.c:2401-2421 | from `if` or `elif` to `fi`, the tokens build exactly the pipes of the arms, tagged if/then/elif/else |
| `HushRender.EachParses` | U-Boot/common/cli_hush.c:2512-2515 | the tokens of a `for` build the head pipe of one word, the `in` pipe and the body |
| `HushRender.ChainParses` | U-Boot/common/cli_hush.c:3050-3084 | the tokens of a chain append one pipe a statement with the right `followup` |
| `HushRender.ListParses` | U-Boot/common/cli_hush.c:2366-2583 | main theorem of the parser: the tokens of any list append exactly its nested pipe lists, each pipe with the right `r_mode` and `followup` |
| `HushRender.RunsOnlyWhenClosed` | U-Boot/common/cli_hush.c:3184-3192 | for every token sequence: nothing is run if and only if the parse failed or a compound is open; and what is run from input that ends in a newline, as all input does (lines 1025-1027 and 3249-3256), comes from a context with every compound closed |
| `HushRender.TextMeansProgram` | U-Boot/common/cli_hush.c:3164-3196 | parser and interpreter together: writing any program out as a line of text, parsing it up to the newline and running the list gives the meaning of the program, whatever lines follow |
| `HushScript.ScriptMeans` | U-Boot/common/cli_hush.c:3164-3230 | the loop over lines: a script of any number of lines does in turn what the lines mean, each from status 0, up to an exit, and then goes on with whatever follows |
| `HushScript.ContinuedMeans` | U-Boot/common/cli_hush.c:3179-3192 | where the parse continues on a newline, the whole script is handed over as one list, and running it is the meaning of the lines one after the other, the status carried on |
| `HushScript.SameEitherWay` | U-Boot/common/cli_hush.c:3164-3230 | both ways leave the same world, and return the same code but for a last line without a command, which line by line returns 0 |
| `HushScript.ModesAgree` | U-Boot/common/cli.c:39-44 | so a script run line by line and run at once agree if and only if its last line holds a command or the code is 0 |
| `HushRender.SeparatorEndsWord` | U-Boot/common/cli_hush.c:3050-3053 | a separator needs no blank before it |
| `HushRender.NewlineSeparates` | U-Boot/common/cli_hush.c:2959-2971 | inside a compound a newline separates as `;` does |
| `HushRender.WordErrors` | U-Boot/common/cli_hush.c:2451-2457 | a word is an error exactly when it follows a closed compound, is a reserved word out of place, or closes a compound inside a list already marked with an error; the state after it in each case |
| `HushRender.MisplacedWord` | U-Boot/common/cli_hush.c:3050-3053 | an error stops the parse if and only if no separator ends its word; a separator goes on from the state reached and drops the word, except that after a closed compound the word becomes the start of the next one |
| `HushVars.SetIsMapUpdate` | U-Boot/common/cli_hush.c:2139-2228 | a set call keeps the list well formed (names unique, read-only version first) and is a map update; -1 is returned exactly when the call is refused |
| `HushVars.UnsetIsMapRemoval` | U-Boot/common/cli_hush.c:2230-2258 | an unset call keeps it well formed and removes one key; never the version |
| `HushVars.RefusedUnlessAssignment` | U-Boot/common/cli_hush.c:2139-2167 | a text is an assignment exactly when it starts with a letter and something follows its first equals sign; any other is refused, and so is one the environment has |
| `HushVars.SetsValue` | U-Boot/common/cli_hush.c:2157-2167 | setting a name, an equals sign and a value sends that name to that value in the map and changes nothing else |
| `HushVars.ExportSticks` | U-Boot/common/cli_hush.c:2174-2192 | a variable is exported exactly when this call or an earlier one said so, and 1 is returned exactly when nothing changes |
| `HushVars.ListIsMap` | U-Boot/common/cli_hush.c:2117-2258 | over every sequence of set and unset calls the list is the finite map the calls describe |
| `HushVars.Shell.constructor` | U-Boot/common/cli_hush.c:3297-3311 | the initial list is well linked, and holds the read-only version alone |
| `HushVars.Shell.GetLocalVar` | U-Boot/common/cli_hush.c:2129-2132 | finds a value if and only if the map has the name, and then that value |
| `HushVars.Shell.SetLocalVar` | U-Boot/common/cli_hush.c:2139-2228 | on linked nodes: the walks and assignments in place compute the specified list, return code and map, and keep the links |
| `HushVars.Shell.LinkBehind` | U-Boot/common/cli_hush.c:2204-2210 | linking a new node behind the last one appends its variable |
| `HushVars.Shell.Before` | U-Boot/common/cli_hush.c:2251-2252 | the walk for the predecessor reaches the node before and never runs off the list |
| `HushVars.Shell.UnsetLocalVar` | U-Boot/common/cli_hush.c:2230-2258 | on linked nodes: the list without the variable is left, well linked; the read-only head never is the variable searched for |
| `History.AddStores` | U-Boot/common/cli_readline.c:101-112 | adding a line keeps the correspondence between ring slots and the lines added so far, and the fresh position is the newest end |
| `History.AddAllStores` | U-Boot/common/cli_readline.c:86-112 | it holds after any number of lines from the empty ring |
| `History.PrevSteps` | U-Boot/common/cli_readline.c:114-134 | one up-arrow shows the next older line, until none within reach is left |
| `History.NextSteps` | U-Boot/common/cli_readline.c:136-155 | one down-arrow shows the next newer line, at last the empty line, then nothing |
| `History.UpArrows` | U-Boot/common/cli_readline.c:86-155 | for every history of N lines the k-th up-arrow gives the k-th most recent line for k up to min(N, 19), then none, and each down-arrow takes back one up-arrow |
| `History.Hist.constructor` | U-Boot/common/cli_readline.c:86-99 | the initial ring stands for no lines |
| `History.Hist.AddLine` | U-Boot/common/cli_readline.c:101-112 | updates the ring as specified |
| `History.Hist.GoPrev` | U-Boot/common/cli_readline.c:114-134 | moves and answers as specified, restoring the position at the end |
| `History.Hist.GoNext` | U-Boot/common/cli_readline.c:136-155 | moves and answers as specified |
| `LineEdit.KeysFile` | U-Boot/common/cli_readline.c:460-465 | however a line was edited and whatever was recalled, completing it files exactly the line shown (unless empty or starting with `!`) and restarts navigation at the newest end |
| `LineEdit.TypedShows` | U-Boot/common/cli_readline.c:202-233 | typing a printable character keeps the screen equal to prompt, line and blanks with the cursor in place, in insert and in overwrite mode, also at the length limit |
| `LineEdit.CursorShows` | U-Boot/common/cli_readline.c:340-357 | so do the cursor keys |
| `LineEdit.MovedShows` | U-Boot/common/cli_readline.c:358-402 | so do delete, rubout and the kill keys |
| `LineEdit.RecalledShows` | U-Boot/common/cli_readline.c:420-430 | so does replacing the line by a history line |
| `LineEdit.Editor.constructor` | U-Boot/common/cli_readline.c:248-256 | the empty editor is valid and its screen shows the prompt |
| `LineEdit.Editor.AddChar` | U-Boot/common/cli_readline.c:202-233 | the buffer becomes the zipper with the character typed, the screen the specified echo; nothing beyond the line changes |
| `LineEdit.Editor.InsertHere` | U-Boot/common/cli_readline.c:216-225 | the insert branch: the tail moves up by one, is reprinted, and the cursor returns |
| `LineEdit.Editor.WriteHere` | U-Boot/common/cli_readline.c:226-232 | the overwrite branch |
| `LineEdit.TypedAllShows` | U-Boot/common/cli_readline.c:235-243 | typing any printable string keeps the screen in step |
| `LineEdit.Editor.AddStr` | U-Boot/common/cli_readline.c:235-243 | types the characters one after the other, into the buffer and onto the screen |
| `LineEdit.Editor.BeginningOfLine` | U-Boot/common/cli_readline.c:178-183 | ends at column 0 of the line after exactly that many backspaces |
| `LineEdit.Editor.EraseToEol` | U-Boot/common/cli_readline.c:185-192 | blanks the tail on the screen and cuts it off |
| `LineEdit.Editor.RefreshToEol` | U-Boot/common/cli_readline.c:194-200 | reprints the tail and goes to its end |
| `LineEdit.Editor.MoveCursor` | U-Boot/common/cli_readline.c:340-357 | the four cursor keys act as zipper moves |
| `LineEdit.Editor.DeleteHere` | U-Boot/common/cli_readline.c:358-372 | drops the character under the cursor |
| `LineEdit.Editor.RuboutHere` | U-Boot/common/cli_readline.c:387-402 | drops the character before the cursor |
| `LineEdit.Editor.Move` | U-Boot/common/cli_readline.c:340-402 | every moving or erasing key acts as the matching list operation and echoes as specified |
| `LineEdit.Editor.Replace` | U-Boot/common/cli_readline.c:420-430 | the line becomes the recalled one with the cursor at its end |
| `LineEdit.Editor.Recall` | U-Boot/common/cli_readline.c:403-432 | up and down show the history line or beep, and move the ring |
| `LineEdit.Editor.Press` | U-Boot/common/cli_readline.c:329-458 | every decoded key does the specified edit, and keeps the screen in step for printable input |
| `LineEdit.Editor.Step` | U-Boot/common/cli_readline.c:285-458 | every input character does, escape sequences included |
| `LineEdit.Editor.Prefill` | U-Boot/common/cli_readline.c:255-259 | a text already in the buffer is typed in again from the buffer into itself and comes out unchanged |
| `LineEdit.Editor.ReadLine` | U-Boot/common/cli_readline.c:245-468 | for any console input the loop with its escape decoding is the two-list session; the buffer then holds the terminated line, which is filed, or is emptied by a break; on printable input and whole arrow sequences the screen shows the line throughout, and the lines that may be recalled next are printable again |
| `LineKeys.LeadsOn` | U-Boot/common/cli_readline.c:261-458 | keys that end nothing take the session from one editor state to the next, whatever is typed afterwards |
| `LineKeys.EndLaw` | U-Boot/common/cli_readline.c:277-280 | characters 10 and 13 enter the whole line, 3 gives it up |
| `LineKeys.CursorLaw` | U-Boot/common/cli_readline.c:340-357 | characters 1 and 5 go to the start and the end, 2 and 6 over one character back and on |
| `LineKeys.EraseLaw` | U-Boot/common/cli_readline.c:358-399 | 4 takes the character after the cursor, 8, 127 and 255 the one before it, 11 everything after the cursor, 21 and 24 the line |
| `LineKeys.HistoryLaw` | U-Boot/common/cli_readline.c:381-425 | 16 and 14 replace the line by the one the history shows above or below, with the cursor at its end; 15 changes between inserting and overwriting |
| `LineKeys.SelfLaw` | U-Boot/common/cli_readline.c:445-449 | every other character goes before the cursor if there is room, or over the next one |
| `LineKeys.ArrowLaw` | U-Boot/common/cli_readline.c:299-319 | ESC [ D, C, H, A and B do what 2, 6, 1, 16 and 14 do |
| `LineKeys.BrokenSequence` | U-Boot/common/cli_readline.c:285-297 | after ESC a character other than `[` is lost and ESC goes into the line |
| `LineKeys.ErasingEnters` | U-Boot/common/cli_readline.c:245-468 | for any text typed and the cursor brought back between its two parts: the line that each erasing key and a carriage return enter |
| `LineKeys.TypingEnters` | U-Boot/common/cli_readline.c:245-468 | likewise for a character typed there, at the start, at the end and one further on |
| `LineKeys.Files` | U-Boot/common/cli_readline.c:460-465 | a printable line entered is the newest of the history, unless it is empty or starts with an exclamation mark |
| `LineEdit.Editor.FileLine` | U-Boot/common/cli_readline.c:460-465 | terminates the line, files it, restarts navigation |
| `ElfImage.EhdrReads` | Arm_wrap/arm_wrap.c:285-322 | each word of the file header is read back from the file |
| `ElfImage.PhdrReads` | Arm_wrap/arm_wrap.c:524-541 | each word of the program header is |
| `ElfImage.FileHeader` | Arm_wrap/arm_wrap.c:285-322 | the fields of the file header, by offset and value: magic number, class and order, executable for ARM, entry |
| `ElfImage.FileTables` | Arm_wrap/arm_wrap.c:285-322 | then where the tables lie, flags, header sizes and counts, and the section of the names |
| `ElfImage.ProgramHeader` | Arm_wrap/arm_wrap.c:524-541 | the fields of the program header, by offset and value: loadable, offset 8192, both addresses the base, both sizes that of the ROM, readable and executable |
| `ElfImage.ShdrReads` | Arm_wrap/arm_wrap.c:345-354 | each section header is, at `e_shoff`, and the table ends the file |
| `ElfImage.SectionsAreThere` | Arm_wrap/arm_wrap.c:254-356 | the offset and size in each section header delimit exactly the content of that section |
| `ElfImage.SectionHeaders` | Arm_wrap/arm_wrap.c:425-500 | the fields of the section headers by value: a null entry, the loadable code at the base, a comment, the section names |
| `ElfImage.SymbolHeaders` | Arm_wrap/arm_wrap.c:502-522 | then the symbols, 16 bytes each, linked to section 5, and their names |
| `ElfImage.SectionNamesResolve` | Arm_wrap/arm_wrap.c:266-275 | the section names the program sets resolve in the section name table, spelled out; so is the comment |
| `ElfImage.SymbolsResolve` | Arm_wrap/arm_wrap.c:571-586 | each symbol entry resolves to its name through the linked string table, with its address, as a global function of the ROM section |
| `ElfImage.FirstSymbolIsNameless` | Arm_wrap/arm_wrap.c:561-569 | the symbol string table has no leading NUL: exactly the first symbol gets name offset 0, the reserved "no name" |
| `ElfWriter.Strings.Add` | Arm_wrap/arm_wrap.c:609-618 | returns the offset at which the string is found |
| `ElfWriter.Strings.Finish` | Arm_wrap/arm_wrap.c:620-626 | pads to even length |
| `ElfWriter.LoadSyms` | Arm_wrap/arm_wrap.c:362-394 | the symbol loop builds the specified symbol words and string table |
| `ElfWriter.Writer.MkShdr` | Arm_wrap/arm_wrap.c:425-522 | writes one section header at the running offset and advances it by the size |
| `ElfWriter.SegmentNames` | Arm_wrap/arm_wrap.c:266-275 | builds the name table and the index of each name |
| `ElfWriter.WriteFront` | Arm_wrap/arm_wrap.c:285-329 | file header, program header and padding fill the first page as specified |
| `ElfWriter.WriteContents` | Arm_wrap/arm_wrap.c:331-343 | the contents follow in section order |
| `ElfWriter.WriteHeaders` | Arm_wrap/arm_wrap.c:345-354 | the section headers follow, each at the offset of its content |
| `ElfWriter.Wrap` | Arm_wrap/arm_wrap.c:254-356 | for every ROM, base, entry and symbol list within the table limits the bytes written are the specified file |
| `ElfLoader.WrappedIsValid` | U-Boot/common/cmd_elf.c:137-154 | a wrapped file in memory passes the check for an executable ELF image |
| `ElfLoader.WrapThenLoadByPhdr` | U-Boot/common/cmd_elf.c:30-55 | loading a wrapped file by program headers stores the ROM at its base, changes no other byte of memory and returns the entry point, when file and destination do not overlap |
| `ElfLoader.LoadsTable` | U-Boot/common/cmd_elf.c:57-104 | as long as loading leaves the file alone, the loop over headers read from live memory loads the sections of the table in order |
| `ElfLoader.WrapThenLoadByShdr` | U-Boot/common/cmd_elf.c:57-104 | loading by section headers does the same if the base is not 0; at base 0 it returns the entry and leaves memory as it was |
| `ElfPlaces.ValidIff` | U-Boot/common/cmd_elf.c:137-154 | for any bytes in memory: they are taken for a file exactly when the four identifying characters and the type are right |
| `ElfPlaces.LoadsByPhdr` | U-Boot/common/cmd_elf.c:26-55 | for every file in memory with any program headers whose destinations lie apart from it and from each other: each destination holds the bytes of the file and then zeros up to the memory size, every other cell is unchanged, and the entry point of the file is returned |
| `ElfPlaces.ShortSegmentWipes` | U-Boot/common/cmd_elf.c:47-49 | a memory size below the file size makes the fill wrap: it clears the whole address space but for the cells between the two sizes |
| `ElfPlaces.LoadsByShdr` | U-Boot/common/cmd_elf.c:57-104 | for every file in memory with any section headers likewise: a section marked for allocation, with an address and a size, holds zeros if it has no bits and else its bytes of the file, and every other cell is unchanged |
| `ElfLoader.Memory.Memcpy` | U-Boot/common/cmd_elf.c:45-46 | byte by byte copy upwards, addresses wrapping |
| `ElfLoader.Memory.Memset0` | U-Boot/common/cmd_elf.c:47-49 | clears a range |
| `ElfLoader.Memory.LoadElfImagePhdr` | U-Boot/common/cmd_elf.c:30-55 | the loop over program headers, read from memory as it changes, computes the specified memory and entry |
| `ElfLoader.Memory.LoadOneSegment` | U-Boot/common/cmd_elf.c:41-49 | copy, then zero fill with the sizes read again |
| `ElfLoader.Memory.LoadElfImageShdr` | U-Boot/common/cmd_elf.c:57-104 | the loop over section headers does |
| `ElfLoader.Memory.LoadOneSection` | U-Boot/common/cmd_elf.c:76-99 | skips, clears or copies one section |
| `Bootstage.RoundTrip` | U-Boot/common/bootstage.c:391-457 | unstashing any buffer that holds a stash, also one it fills exactly, into a table with room appends exactly its records, in order, with their names; without room the table is refused |
| `Bootstage.PassOn` | U-Boot/common/bootstage.c:334-457 | stash into a buffer of any size and unstash the same buffer, given its size or no limit: it succeeds exactly when the stash fits and the other table has room; then that table has gained exactly the records whose time is not 0, in the order of the table, each with its name; else it is as before |
| `Bootstage.LiveHaveTime` | U-Boot/common/bootstage.c:351-376 | the records stashed are those at exactly the places of the table where the time is not 0, in order |
| `Bootstage.NameOfIs` | U-Boot/common/bootstage.c:161-172 | a record without a name is stashed as `user_` or `id=` and decimal digits that read as its number |
| `Bootstage.DecimalReads` | U-Boot/common/bootstage.c:161-172 | decimal digits read back as the number, without a leading zero |
| `Bootstage.HeaderLayout` | U-Boot/common/bootstage.c:38-44 | a stash starts with version 0, count, size and magic number |
| `Bootstage.RecordLayout` | U-Boot/common/bootstage.c:359-366 | each record lies behind it with its eight words in order |
| `Bootstage.CopyStaysInside` | U-Boot/common/bootstage.c:412-417 | the check of the record count leaves out the header: the records copied from an accepted stash are determined by the bytes it says it has if and only if there are none or header and records together fit into them |
| `Bootstage.OverrunIsAccepted` | U-Boot/common/bootstage.c:412-417 | a header that breaks this is accepted, with one record said to take 32 bytes |
| `Bootstage.StashStaysInside` | U-Boot/common/bootstage.c:412-417 | what a stash writes never breaks it |
| `Bootstage.FailedStashIsRefused` | U-Boot/common/bootstage.c:357-382 | the header left behind by a stash that did not fit is always refused |
| `Bootstage.NameIsName` | U-Boot/common/bootstage.c:161-172 | the printable name of any record holds no NUL, so it can be read back |
| `Bootstage.Stage.AppendData` | U-Boot/common/bootstage.c:323-332 | moves the pointer in any case and writes only what fits; nothing outside the buffer changes |
| `Bootstage.Stage.CountRecords` | U-Boot/common/bootstage.c:351-357 | counts the records with a time |
| `Bootstage.Stage.AppendRecords` | U-Boot/common/bootstage.c:362-366 | appends the live records in table order |
| `Bootstage.Stage.AppendNames` | U-Boot/common/bootstage.c:368-376 | appends their names in the same order |
| `Bootstage.Stage.Stash` | U-Boot/common/bootstage.c:334-389 | succeeds exactly when everything fits, and then the buffer holds the stash; in any case memory outside the buffer is unchanged, and after a failure the header says size 0 |
| `Bootstage.Stage.Unstash` | U-Boot/common/bootstage.c:391-457 | makes the specified checks and appends the records, or leaves the table alone |
| `Bootstage.Stage.ReadStash` | U-Boot/common/bootstage.c:439-450 | walks over the names and pairs each with its record |
| `EfiMemMap.CompareIsOrder` | U-Boot/common/cmd_efi.c:56-67 | the signed 64-bit comparison orders two addresses if and only if they are at most half the address space apart |
| `EfiMemMap.MergedIsFaithful` | U-Boot/common/cmd_efi.c:84-114 | for sorted descriptors that do not overlap the merged table gives every address the type it had (boot services read as conventional when skipping), keeps the page count and the order, and leaves no touching conventional neighbours when skipping |
| `EfiMemMap.TypesAreKept` | U-Boot/common/cmd_efi.c:49-54 | by address: in the table it has exactly the types the descriptors give it, types 1 to 4 counting as 7 when boot services are skipped, pages having 4096 bytes |
| `EfiMemMap.EntriesStart` | U-Boot/common/cmd_efi.c:95-111 | every entry has the start, the virtual address and the attributes of a descriptor |
| `EfiMemMap.NothingTouches` | U-Boot/common/cmd_efi.c:97-111 | if every descriptor has a page, no two entries anywhere touch and are both conventional |
| `EfiMemMap.UnskippedIsUnchanged` | U-Boot/common/cmd_efi.c:97-98 | without skipping the table is the sorted list |
| `EfiMemMap.Compact` | U-Boot/common/cmd_efi.c:84-117 | the loop in place computes the merged table, never overwriting a descriptor not yet read, and marks its end inside the array |
| `EfiMemMap.Take` | U-Boot/common/cmd_efi.c:88-114 | one round of it |
| `StorageEnum.Enumerates` | U-Boot/api/api.c:197-227 | for all distinct devices, active or not: repeated calls from a null cookie and any earlier state return the network device if present, then of each group the devices in order up to the first that is missing, inactive or beyond the limit, then null |
| `StorageEnum.AllAreListed` | U-Boot/api/api_storage.c:99-165 | every active device is returned if and only if in each group the active devices are within the limit and none follows a missing or inactive one |
| `StorageEnum.ListedOnce` | U-Boot/api/api.c:197-227 | no device is returned twice, and null only at the end |
| `StorageEnum.MiddleHidesLast` | U-Boot/api/api_storage.c:147-162 | of three devices with the middle one inactive, the last is never returned |
| `StorageEnum.GroupContinues` | U-Boot/api/api_storage.c:227-237 | a call with the cookie of a device finds its group and index again and moves to the next device if that is active and within the limit, else the group is over |
| `StorageEnum.FirstFrom` | U-Boot/api/api_storage.c:239-275 | from untouched groups on, the first device of the first group whose first device is active is returned |
| `StorageEnum.NextFrom` | U-Boot/api/api_storage.c:296-309 | one call moves to the next device of the group or the first device of a group after it |
| `StorageEnum.Enumerator.constructor` | U-Boot/api/api_storage.c:47-84 | the initial enumeration state |
| `StorageEnum.Enumerator.DevStorGet` | U-Boot/api/api_storage.c:99-165 | finds the previous cookie and takes the next device |
| `StorageEnum.Enumerator.DevStorType` | U-Boot/api/api_storage.c:171-181 | the first group that holds the cookie |
| `StorageEnum.Enumerator.DevEnumStor` | U-Boot/api/api_storage.c:193-284 | one group of the state machine, flags and cookie updated in place |
| `StorageEnum.Enumerator.DevEnumStorage` | U-Boot/api/api_storage.c:296-309 | the groups in order until one answers |
| `StorageEnum.Enumerator.ApiDevEnum` | U-Boot/api/api.c:197-227 | one call of the interface |
| `MacroExpand.PlainText` | U-Boot/common/cli_simple.c:94-105 | text without backslash, quote or dollar stands for itself |
| `MacroExpand.Substitutes` | U-Boot/common/cli_simple.c:99-145 | between plain texts a name in brackets, of either kind on either side, is replaced by its value if it has one and else by nothing |
| `MacroExpand.LoneDollar` | U-Boot/common/cli_simple.c:99-145 | a dollar sign that no bracket follows stands for itself |
| `MacroExpand.EscapeIsLiteral` | U-Boot/common/cli_simple.c:83-91 | an escape gives the next character literally |
| `MacroExpand.QuotesProtect` | U-Boot/common/cli_simple.c:146-153 | text between single quotes is copied, macros and all |
| `MacroExpand.ProcessMacros` | U-Boot/common/cli_simple.c:61-165 | for every input shorter than the buffer and every environment, the buffer ends up NUL-terminated inside itself and holds the unbounded recursive expansion cut to one character less than the buffer |
| `Eeprom.ChunksStayInPages` | U-Boot/common/cmd_eeprom.c:102-123 | no chunk of any range crosses a page if and only if pages have at most 256 bytes or single bytes are transferred: the page offset is taken from the low eight address bits |
| `Eeprom.ChunkLen` | U-Boot/common/cmd_eeprom.c:102-123 | a chunk has at least one byte, never passes the end of the range and never exceeds one transfer, so the loops end |
| `Eeprom.WritesFlat` | U-Boot/common/cmd_eeprom.c:153-176 | over any way of cutting that writes each chunk as to flat memory, the loop writes the whole range as to flat memory |
| `Eeprom.ReadsFlat` | U-Boot/common/cmd_eeprom.c:153-176 | and without errors the read loop reads it as flat memory |
| `Eeprom.WriteThenRead` | U-Boot/common/cmd_eeprom.c:153-176 | against a device whose write address wraps in its page, with no bus errors, writing any range and then reading any range is a flat update and lookup |
| `Eeprom.ReadsBack` | U-Boot/common/cmd_eeprom.c:153-176 | what was written is read back |
| `Eeprom.OnlyLastErrorReported` | U-Boot/common/cmd_eeprom.c:166-175 | the code a write returns is that of the last chunk alone; earlier bus errors are lost |
| `Eeprom.OnlyLastReadErrorReported` | U-Boot/common/cmd_eeprom.c:166-175 | and so is the code of a read |
| `Eeprom.Device.Write` | U-Boot/common/cmd_eeprom.c:153-176 | the write loop computes the specified memory and code; a range whose end wraps past 32 bits writes nothing and reports success |
| `Eeprom.Device.WriteBlock` | U-Boot/common/cmd_eeprom.c:125-151 | one transfer and its code |
| `Eeprom.Device.Read` | U-Boot/common/cmd_eeprom.c:153-176 | in place: a byte of the buffer is the device byte exactly where the transfer of its chunk went well and else as it was, and the code is that of the last chunk; a range whose end wraps past 32 bits reads nothing and reports success |
| `Eeprom.Device.ReadBlock` | U-Boot/common/cmd_eeprom.c:125-151 | one transfer into the buffer and its code |
| `Bedbug.ExtractOwn` | U-Boot/common/bedbug.c:390-395 | a clear field holds what is or-ed into it |
| `Bedbug.ExtractOther` | U-Boot/common/bedbug.c:827-827 | and no disjoint field changes |
| `Bedbug.PlaceIsGood` | U-Boot/common/bedbug.c:918-918 | a coded operand is never the value -1 that stands for an error |
| `Bedbug.SwapTwice` | U-Boot/common/bedbug.c:491-511 | swapping the two halves of a special register number twice gives its ten low bits back |
| `Bedbug.AddressRoundTrip` | U-Boot/common/bedbug.c:866-880 | a branch distance survives coding and sign-extending decoding if and only if it is a multiple of four within the signed range of the field |
| `Bedbug.CapitalNamesAreLost` | U-Boot/common/bedbug.c:527-560 | words are lowered but table names are not: with a capital in every name, a word names a special register if and only if it starts with a digit |
| `Bedbug.ShownIffFits` | U-Boot/common/bedbug.c:232-326 | for every kind of operand, the number shown is the number written if and only if it fits its field |
| `Bedbug.RegisterAssembles` | U-Boot/common/bedbug.c:882-896 | a register number below 32 goes into its field; from 32 on it is refused, but a negative one is not |
| `Bedbug.TimeBaseAssembles` | U-Boot/common/bedbug.c:612-642 | `tbl` and `tbu`, in capitals or not, and the numbers 268 and 269 give the two time base registers, with swapped halves in the field; anything else is refused |
| `Bedbug.BranchAssembles` | U-Boot/common/bedbug.c:866-880 | a target d words ahead or back, or for an opcode that is not relative at word d, gives d as a signed number in the field |
| `Bedbug.OperandsComeBack` | U-Boot/common/bedbug.c:796-842 | for every operand list with disjoint fields clear in the opcode, the operands shown are those written if and only if all of them fit |
| `Bedbug.LineComesBack` | U-Boot/common/bedbug.c:754-842 | for every ordered, well-formed opcode table, what any line assembles to is matched by its own opcode and no other, and its operands come back if and only if they all fit |
| `Bedbug.FindOpcode` | U-Boot/common/bedbug.c:418-441 | the search by halves returns only a match, and over an ordered table the match whenever there is one |
| `Bedbug.FindByName` | U-Boot/common/bedbug.c:459-474 | the first entry of the name, or none |
| `Bedbug.NameIsFound` | U-Boot/common/bedbug.c:459-474 | a name in the table without capitals is found at its first entry, whether it is written in capitals or not |
| `Bedbug.ParseOperand` | U-Boot/common/bedbug.c:855-919 | the coded operand, or -1 with the right error exactly when the word is refused |
| `Bedbug.Asmppc` | U-Boot/common/bedbug.c:754-842 | the operand loop computes the specified instruction, or zero with the first error |
| `Bedbug.PrintOperands` | U-Boot/common/bedbug.c:246-326 | the numbers shown, silent operands left out |
| `BootKey.ShiftStaysInside` | U-Boot/common/autoboot.c:152-155 | with the 32-bit bound of the shift, every index it writes to is inside the array if and only if there is a key to look for |
| `BootKey.WindowEnds` | U-Boot/common/autoboot.c:160-164 | a key no longer than the window is at the end of the window if and only if it is at the end of everything typed |
| `BootKey.Window.constructor` | U-Boot/common/autoboot.c:116-118 | the empty window |
| `BootKey.Window.Push` | U-Boot/common/autoboot.c:149-156 | the shift in place keeps the last characters, as many as the longest key |
| `BootKey.Window.Take` | U-Boot/common/autoboot.c:148-157 | after every turn, with or without a character, the window holds the last characters typed, as many as the longest key has |
| `BootKey.Window.Holds` | U-Boot/common/autoboot.c:160-164 | compares one key with the end of the window |
| `BootKey.Window.Check` | U-Boot/common/autoboot.c:159-174 | tries both keys |
| `BootKey.PasswdAbort` | U-Boot/common/autoboot.c:103-178 | for input of any length: it aborts at exactly the first turn after which everything typed ends in a key (cut to 32 characters), and gives up retrying exactly when that key is the stop key; it leaves the array exactly when there is no key and something is typed |
| `FlashCrc.SumIsFold` | U-Boot/common/cmd_armflash.c:48-55 | the end-around-carry loop computes the total folded once into a word |
| `FlashCrc.OrderDoesNotMatter` | U-Boot/common/cmd_armflash.c:38-57 | the checksum depends on the words as a bag only |
| `FlashCrc.ChecksumClosesTheSum` | U-Boot/common/cmd_armflash.c:38-57 | words with their own checksum inserted anywhere check to zero |
| `FlashCrc.OneChangeIsSeen` | U-Boot/common/cmd_armflash.c:38-57 | changing one word goes unnoticed if and only if it changes between all zeros and all ones and some other word is not zero |
| `FlashCrc.ComputeCrc` | U-Boot/common/cmd_armflash.c:38-57 | a length that is not a multiple of four gives 0, any other the checksum of its words |
| `Reserve.RamTop` | U-Boot/common/board_f.c:303-362 | the top of usable RAM, with 0 standing for the end of the address space when RAM runs past it |
| `Reserve.Descends` | U-Boot/common/board_f.c:479-579 | every piece lies below every earlier one |
| `Reserve.WrappedIsExact` | U-Boot/common/board_f.c:329-579 | as long as nothing goes below zero, wrapping address arithmetic gives the exact addresses, also from top 0 |
| `Reserve.SizesFit` | U-Boot/common/board_f.c:328-585 | the configured sizes, added up with their roundings, tell beforehand that everything fits |
| `Reserve.FitsIffLaid` | U-Boot/common/board_f.c:328-585 | there is at most one layout of the configured sizes that ends in RAM, and everything fits exactly when there is one |
| `Reserve.ChainIsLaid` | U-Boot/common/board_f.c:328-585 | the requests lead to that layout |
| `Reserve.LayoutIsApart` | U-Boot/common/board_f.c:328-585 | in a layout each piece with its configured size ends where the piece above begins or before, all inside RAM; stack, monitor and TLB are aligned |
| `Reserve.RoomIsEnough` | U-Boot/common/board_f.c:941-981 | the configured sizes, each with its rounding, tell beforehand that everything fits |
| `Reserve.PiecesAreApart` | U-Boot/common/board_f.c:941-981 | when everything fits, any two pieces with a size are disjoint, in top-down order, inside RAM and inside the address space |
| `Reserve.Alignments` | U-Boot/common/board_f.c:416-579 | stack pointer a multiple of 16, monitor of 4 kB, TLB of 64 kB |
| `Reserve.GlobalData.SetupDestAddr` | U-Boot/common/board_f.c:329-372 | the starting address |
| `Reserve.GlobalData.Lower` | U-Boot/common/board_f.c:403-419 | one step on `relocaddr`: the address reached is the one all requests so far lead to |
| `Reserve.GlobalData.LowerSp` | U-Boot/common/board_f.c:502-538 | the same on `start_addr_sp` |
| `Reserve.GlobalData.ReserveMmu` | U-Boot/common/board_f.c:424-437 | the TLB at its recorded address |
| `Reserve.GlobalData.ReserveLcd` | U-Boot/common/board_f.c:441-451 | the frame buffer at its recorded address |
| `Reserve.GlobalData.ReserveBoard` | U-Boot/common/board_f.c:511-521 | the board info, unless there is one already |
| `Reserve.GlobalData.ReserveFdt` | U-Boot/common/board_f.c:541-559 | the device tree, if there is one |
| `Reserve.GlobalData.Run` | U-Boot/common/board_f.c:941-981 | the init sequence leaves in the fields the one layout of the configured sizes, if there is one, and then no two pieces the fields point to overlap |
| `Reserve.GlobalData.MallocStart` | U-Boot/common/board_r.c:280-293 | the heap set up after relocation is exactly the piece reserved for it |

## Left out

- Hush characters: quoting, backslashes, `$` expansion and its re-parsing, prompts and Ctrl-C; the model starts from tokens and takes `expand` as a parameter, and the shell of `BodySees` sets the words before a command as they stand.
- Hush memory: the `for` pipe's `argv[0]` is freed, replaced and restored in place; the model keeps the list of bindings beside the pipe. Allocation failures are not modelled.
- Hush input: the console loop, and what happens after a refused line of a string, where the input pointer is null (`Lost`); the word unfinished at the end of the input, which no caller leaves.
- Hush code outside U-Boot (jobs, redirection, globbing) and `FLAG_PARSE_SEMICOLON` being off.
- RunListReal: carries an allowance of jumps back, because the loop in the code need not end; a run of any length is covered by some allowance.
- SetLocalVar: whether `getenv` blocks the call is a parameter; the code asks it for the whole `name=value` text, so it never blocks a proper assignment unless such a name exists.
- Line editor: tab completion and timeouts; the newline echoed at the end of a line; the screen is one row without a right margin, and the screen property is for printable input and complete arrow sequences.
- ELF: `swap` for a big-endian host, command-line parsing, and the name of the GNU section, which the program never sets and is an arbitrary word here; cache flushing.
- LoadSyms: starts from symbols already split into address and name; reading the lines of the symbol file is not modelled.
- Bootstage: the record layout is that of a 64-bit host; reports and the device-tree export are left out. The memory that is read must be there; a name that runs to the end of memory ends there.
- EFI: `qsort` is assumed to sort; descriptors have the standard size; the printed table is left out.
- Storage: block counts and sizes, open, close and read.
- Compact: models the loop after sorting and not the allocation before it.
- EEPROM: the address bytes on the bus, probing, SPI and FRAM variants; a failed transfer is taken to leave the buffer alone.
- Bedbug: text (`get_word`, number conversion, printing, simplified mnemonics, symbols) and little-endian hosts, where `htonl` would spoil the operand; the tables themselves are parameters under the conditions stated.
- Boot keys: the SHA-256 variant, the clock (the turns before the time is up are the input), and what happens after the shift has left the array.
- ComputeCrc: the signed loop counter for lengths of 2 GB and more is not modelled.
- Reserve: steps for SPARC, Blackfin, E500, video and multi-processor boards, and `arch_reserve_stacks`, which does nothing by default; the frame buffer is aligned to 4 kB, the default.
- The rest of the repository (GPIO, timers, USB loader, printf copies, image formats, thin command wrappers) would only add easy members.
