# NawOS: a verified model of its cores

NawOS is a small x86 operating system. This project models five parts of it in Dafny and proves what they
promise, for every input and over whole runs.

1. **Lelya**, the system's programming language (`apps/nawlang`). The one-pass compiler reads text, emits
   instructions into an array and patches jumps behind itself; a stack machine runs the result.
   `LelyaGrammar` says what program *any* text is read as, with the compiler's own recovery on malformed
   text; `LelyaCode` what code a program has; `LelyaSemantics` what it means. The compiler (`LelyaCompiler`)
   is proved to produce that code, the machine (`LelyaVm`) to run it as the direct interpreter runs the
   program (`LelyaCorrectness`), with the same output, input, variables, errors and divergence.
   `LelyaArith` has the laws of the machine's numbers and `LelyaLaws` those of the statements, `LelyaReading` how
   texts are read at the edges. `LelyaPrinter` prints programs, in any spacing and with each assignment bare or as
   a declaration, and proves that they are read back; `LelyaEuclid` follows one from its text to its output for
   every input. `LelyaStack` and `LelyaSafety` prove that
   no run of any program leaves its arrays, and the stack discipline of every run; `LelyaShared` what programs
   with more names than slots run as; `LelyaBounds` and `LelyaSize` how much code a text has, and which texts
   fit the compiler's arrays. `LelyaExamples` and `LelyaOverruns` are programs that go wrong.
2. **NawFS** (`fs`). A catalog in memory, mirrored to nine sectors, one data sector a file. `FsFormat` has the
   bytes, `FsModel` each operation's effect as an ordered list of sector writes, `NawFs` the running file
   system proved to have those effects. `FsCatalog` and `FsInvariant` prove the flush/load round trip and the
   invariant, `FsCrash` what is left when the machine stops between any two sector writes, `FsMap` that the
   whole is a finite map over any run, `FsRecovery` the same over any run in which the machine may stop in the
   middle of any operation and is started again, `FsExamples` two stops that leave what no operation would.
3. **Terminal and editor** (`kernel/terminal`, `apps/editor`). `TerminalModel` is the state as a value,
   `Terminal` the running console with its shifting history rows, batches and redraws. `TerminalLayout` proves
   that the history is the end of an unbounded 80-column layout, `TerminalUndo` that backspaces take back what
   was written, `TerminalMoves` which moves undo which. `VisualPosition`, `EditorLayout` and `Editor` are the
   editor's cursor arithmetic; `EditorScreen` proves when it agrees with the terminal, and that the cursor
   then stands on the character it edits.
4. **The packet path** (`net`). `NetChecksum`: the IPv4 checksum against one's-complement addition (section 1
   of RFC 1071) and headers that check to zero (section 3.1 of RFC 791). `NetFrame`: building and parsing
   UDP frames are inverse.
5. **Numeric kernels** (`lib/math.c`), over exact reals instead of `double`. `NawMath`: Newton's square root
   with its error bound, complex arithmetic, powers by squaring, the complex square root and the quadratic
   solver.

`NawBase` holds the few types and functions that all of them share.

Where the code does not do what its callers would expect, the model keeps the code as it is, states exactly
when it does, and shows an input on which it does not:

- A stopped write can leave neither the old text nor the new one (`FsCrash.WriteAtomic`): on a formatted disk
  with a one-byte file, writing two bytes and stopping before the catalog is written (`FsExamples.TornWrite`).
- A stopped deletion can leave an entry twice (`FsCrash.DeleteLeavesDuplicate`), and deleting that file then
  leaves it listed and empty (`FsRecovery.DuplicateOutlivesDelete`): the first of 17 files, stopped after the
  first catalog sector (`FsExamples.ListedTwice`). Doubled entries can fill the table, so that a file is refused
  for which there would be room (`FsMap.CreateRefusedEarly`). No other file is touched, ever
  (`FsRecovery.UntouchedFile`).
- A stopped format is not resumed, because the superblock is written first and the disk is recognised from then
  on: whatever valid entries the catalog sectors not yet zeroed hold are listed as files (`FsCrash.FormatCrash`),
  on a disk that held a catalog its last ones (`FsCrash.FormatCrashTail`).
- The compiler does not check that a text fits its arrays. A string that runs over the end of its line is read
  to its 127th character, and the next line again from its start: 326 characters can compile to 1036
  instructions, for an array of 1024 (`LelyaOverruns.ReadTwice`). And 211 characters hold a loop with 33 breaks,
  for a list of 32 (`LelyaOverruns.TooManyBreaks`). A text without quotes that fits the editor, with each of
  the two keywords at most 32 times, always fits (`LelyaSize.FileFits`).
- A closing brace outside any block is never got past (`LelyaCompiler.TopLoopStops`, `LelyaCompiler.StrayBrace`);
  a text without closing braces is always read to its end (`LelyaCompiler.NoBraceStops`).
- The block of an `if` is looked for after the first closing parenthesis (`LelyaReading.BlockMissed`): after
  `if((0)){` the next lines run whatever the condition is, and the block's closing brace is a stray one
  (`LelyaReading.HastyReads`). A condition without a closing parenthesis of its own is read as written.
- A native call with the wrong number of arguments unbalances the stack (`LelyaCorrectness.NativeNetsOne`): after
  `print math_sin(1,2)` the first argument is still there at the end (`LelyaExamples.ArgumentLeftOver`).
- The receiver ignores the header checksum (`NetFrame.ChecksumNotChecked`). That the 32-bit sum would lose
  carries beyond 131074 bytes (`NetChecksum.ChecksumExactUpTo`) is out of reach: the one caller passes a header
  of 20 bytes.
- The editor's and the terminal's cursor part beyond the history of 96 rows (`EditorScreen.CursorAgrees`): a
  buffer of 93 empty lines is drawn one row above where the editor puts it (`EditorScreen.LongTextDisagrees`).
  A header that wraps would part them too, but no header the shell can start the editor with does
  (`EditorScreen.HeaderFits`).
- A text of 65536 bytes would be stored as nothing (`FsMap.StoredIsCut`). Neither caller can pass one: the
  shell's text has at most 127 characters and the editor's buffer 511, and texts that short are stored whole
  (`FsMap.ShortIsStored`).

Check the whole project with `dafny verify dfyconfig.toml`.

## Model

| member | source | states |
|---|---|---|
| LelyaGrammar.ParseStmt | apps/nawlang/compiler.c:341-437 | On any text not at its end or a closing brace, reading a statement moves forward past the spaces; there it moves only to that place and reads nothing |
| LelyaGrammar.ParseStmts | apps/nawlang/compiler.c:321-339 | The statements of a block are read on any text, in finitely many steps, up to a closing brace or the end |
| LelyaGrammar.NativeTail | apps/nawlang/compiler.c:260-319 | A native call is absent, malformed with a place inside the text to resume at, or has at most three arguments of at most 127 characters each and consumes more characters than it has arguments |
| LelyaReading.Characters | apps/nawlang/compiler.c:53-65 | Names are made of the 52 letters, the underscore and, after the first character, the ten digits; inline space is blank, tab and carriage return |
| LelyaReading.OneVariable | apps/nawlang/compiler.c:101-120 | Two names are one variable if and only if they are the same or agree in their first 15 characters |
| LelyaReading.MinusReads | apps/nawlang/compiler.c:439-543 | -e is read as 0 - e, for every writable e, a sum in parentheses, in any spacing |
| LelyaReading.BlockMissed | apps/nawlang/compiler.c:638-677 | When no brace follows the first closing parenthesis after an `if`, the conditional is read with an empty block |
| LelyaReading.HastyReads | apps/nawlang/compiler.c:650-660 | A text whose condition is parenthesised twice is read with its block unconditional, and the compiler does not get past its closing brace |
| LelyaCompiler.IsKeyword | apps/nawlang/compiler.c:67-75 | The loop finds a keyword exactly when the text has it there and no name goes on after it |
| LelyaCompiler.ReadIdentifier | apps/nawlang/compiler.c:101-120 | The loop reads a whole identifier and keeps its first 15 characters |
| LelyaCompiler.CaptureArgument | apps/nawlang/compiler.c:171-254 | The argument ends at the first unquoted comma or closing parenthesis at depth 0, and its text is cut to 127 characters and trimmed on the right |
| LelyaCompiler.ScanNativeCall | apps/nawlang/compiler.c:260-309 | The argument loop yields the call, the absence or the malformed call that the reading of the text gives |
| LelyaCompiler.Compiler.Emit | apps/nawlang/compiler.c:550-554 | Appends one instruction and changes none before it |
| LelyaCompiler.Compiler.VarIndex | apps/nawlang/compiler.c:556-583 | Returns the place of the name in the table, grown by it if it is new; with the table full, the last slot |
| LelyaCompiler.Compiler.AddString | apps/nawlang/compiler.c:122-149 | The same for the string pool |
| LelyaCode.InternExprGrows | apps/nawlang/compiler.c:122-149 | Compiling an expression only extends the tables, so every index already emitted keeps its meaning |
| LelyaCode.InternStmtGrows | apps/nawlang/compiler.c:556-583 | The same for statements |
| LelyaCompiler.Compiler.CompileFactor | apps/nawlang/compiler.c:439-511 | Emits exactly the post-order code of the factor read and leaves the cursor after it |
| LelyaCompiler.Compiler.CompileTerm | apps/nawlang/compiler.c:513-527 | The same for products, associating to the left |
| LelyaCompiler.Compiler.CompileExpr | apps/nawlang/compiler.c:529-543 | The same for sums |
| LelyaCompiler.Compiler.CompileCompare | apps/nawlang/compiler.c:602-636 | The same for comparisons |
| LelyaCompiler.Compiler.CompileJump | apps/nawlang/compiler.c:368-386 | A break or continue emits one jump and records its place in the innermost loop, in a list of at most 32, and does nothing outside loops |
| LelyaCompiler.Compiler.CompileStatement | apps/nawlang/compiler.c:341-437 | Emits the code of the statement read, with its tables and recorded jumps, and returns where reading goes on |
| LelyaCompiler.Compiler.CompileBlock | apps/nawlang/compiler.c:321-339 | The loop emits the code of all statements of the block; without an opening brace it emits nothing |
| LelyaCompiler.Compiler.CompileIf | apps/nawlang/compiler.c:638-677 | Emits the finished code of the conditional, both jumps patched, recorded jumps of the body kept for the enclosing loop |
| LelyaCompiler.Compiler.CompileWhile | apps/nawlang/compiler.c:679-728 | Emits the finished code of the loop and restores the loop stack |
| LelyaCompiler.Compiler.CloseLoop | apps/nawlang/compiler.c:713-727 | Patching a loop's recorded jumps turns the raw code into the code of the loop |
| LelyaCompiler.Compiler.PatchAll | apps/nawlang/compiler.c:718-724 | Sets the target of every recorded jump and of no other instruction |
| LelyaCompiler.LoopPatched | apps/nawlang/compiler.c:713-726 | After patching, the loop's code is that in which its own breaks go to the first instruction after it, its continues to its condition and its guard past its end, no placeholder left, at any nesting |
| LelyaCode.LoopJumps | apps/nawlang/compiler.c:713-726 | In a loop's code every break of its own jumps to the first instruction after it, every continue to the first of its condition, its guard past its end and its last instruction back, whatever is nested in it |
| LelyaCode.SiteJumps | apps/nawlang/compiler.c:368-386 | In a statement's code each recorded break or continue is a jump inside it to that target |
| LelyaCode.SitesRetarget | apps/nawlang/compiler.c:368-386 | The jumps recorded for a statement are exactly the instructions in which its code differs when its break or continue target differs, and lie inside it |
| LelyaCode.PatchRetargets | apps/nawlang/compiler.c:718-724 | Patching those instructions inside any surrounding code gives the code with the new target |
| LelyaCompiler.NawCompile | apps/nawlang/compiler.c:585-600 | Fills the buffer with exactly the program's code and a final halt, and the pool with its strings; names and strings past a full table share its last slot |
| LelyaCompiler.TopLoopStops | apps/nawlang/compiler.c:593-596 | The top loop reaches the end of the text if and only if the text is not stopped at a closing brace outside any block |
| LelyaCompiler.NoBraceStops | apps/nawlang/compiler.c:593-596 | A text without a closing brace is read to its end |
| LelyaCompiler.StrayBrace | apps/nawlang/compiler.c:346-348 | At such a brace every further round of the loop stays where it is |
| LelyaBounds.OutputBound | apps/nawlang/compiler.c:439-543 | On any text an expression that consumes k characters has at most 2k + 1 instructions, and the cursor moves neither back nor past the end |
| LelyaBounds.ProgramBound | apps/nawlang/compiler.c:585-600 | Any text of n characters at all compiles to at most n * (2n + 2) instructions |
| LelyaBounds.FewJumpsFit | apps/nawlang/compiler.c:368-386 | In a text where each of the two jump keywords stands at most 32 times no loop has more jumps to record than there is room for |
| LelyaSize.CompareSpan | apps/nawlang/compiler.c:602-636 | In a text without quotes an expression has at most two instructions for each place of an operator or call it reads and one more, and no statement read later from a line end or a parenthesis inside it gets to those places again |
| LelyaSize.NoQuoteBound | apps/nawlang/compiler.c:585-600 | A text without quotes compiles to at most two instructions a character, although conditions and call arguments are passed over again by the statements that follow |
| LelyaSize.FileFits | apps/nawlang/compiler.c:585-600 | A text without quotes of at most 511 characters, with each jump keyword at most 32 times, fits the code array and the jump lists |
| LelyaOverruns.ReadTwice | apps/nawlang/parser.c:32-33 | A text of 326 characters that compiles to 1036 instructions |
| LelyaOverruns.TooManyBreaks | apps/nawlang/compiler.c:368-386 | A text of 211 characters with a loop of 33 breaks, whose code fits |
| LelyaBounds.PrintedBound | apps/nawlang/compiler.c:341-437 | A printed statement has at most as many instructions as characters |
| LelyaBounds.PrintedFileFits | apps/nawlang/compiler.c:585-600 | Every printed program that fits a file of 512 bytes fits the code array |
| LelyaPrinter.ReadsPrinted | apps/nawlang/compiler.c:439-543 | The parser run on the printed text of any writable expression consumes exactly it and reads that expression: left association, three levels, parentheses |
| LelyaPrinter.ReadsPrintedStmt | apps/nawlang/compiler.c:341-437 | The same for every writable statement, with its nested blocks, in any spacing and each assignment bare, declared or declared without a value |
| LelyaPrinter.ReadsDeclared | apps/nawlang/compiler.c:388-406 | A declaration, in any spacing and of any name, keywords too, is read as the assignment of the expression written after the equals sign |
| LelyaPrinter.ReadsBrief | apps/nawlang/compiler.c:388-406 | One without a value is read as the assignment of 0 |
| LelyaPrinter.RoundTrip | apps/nawlang/compiler.c:585-600 | Every writable program is read back as itself from each of its printed texts, and compiling it stops |
| LelyaVm.Vm.PushValue | apps/nawlang/vm.c:27-49 | Pushes, or complains of overflow and drops the value |
| LelyaVm.Vm.PopInteger | apps/nawlang/vm.c:60-69 | Pops the top value whatever it is, and yields it only if it is a number |
| LelyaVm.Vm.Operate | apps/nawlang/vm.c:146-229 | Both operands popped in order, the C result pushed; a string, a missing operand or a zero divisor ends the run with a type mismatch |
| LelyaArith.ResultIs | apps/nawlang/vm.c:146-185 | The result of adding, subtracting or multiplying is the 32-bit number congruent to the sum, the difference or the product modulo 2^32 |
| LelyaArith.OneOfEach | apps/nawlang/vm.c:146-185 | There is only one such number |
| LelyaArith.SumUndone | apps/nawlang/vm.c:146-172 | Subtraction undoes addition and addition undoes subtraction, overflow or not |
| LelyaArith.ProductIsSums | apps/nawlang/vm.c:174-185 | A product is a repeated sum |
| LelyaArith.QuotientIs | apps/nawlang/vm.c:187-198 | A quotient leaves a remainder smaller than the divisor and on the side of the dividend, for every pair but the one whose quotient overflows; it is a type mismatch if and only if the divisor is 0 |
| LelyaArith.ComparisonsAre | apps/nawlang/vm.c:200-229 | Exactly one of less, equal and greater holds, less exactly when something positive is missing, and the other three comparisons are their opposites |
| LelyaArith.NumberShown | apps/nawlang/vm.c:71-79 | A negative number is shown as the unsigned number of its 32 bits |
| LelyaArith.NumbersShownApart | apps/nawlang/vm.c:71-79 | So no two numbers look the same |
| LelyaArith.AritiesByName | apps/nawlang/vm.c:81-105 | How many texts each function takes, by the name it is called by |
| LelyaVm.Vm.Native | apps/nawlang/vm.c:250-273 | The loop pops the arguments last first and pushes the function's text, with both error exits |
| LelyaVm.Vm.Next | apps/nawlang/vm.c:115-296 | One fetch and execution is one step of the machine |
| LelyaVm.Vm.Run | apps/nawlang/vm.c:107-298 | The run's state after a number of instructions is that many steps from the start |
| LelyaVm.StepsMonotone | apps/nawlang/vm.c:107-298 | Output and input only grow during a run, and a run that is over stays as it is |
| LelyaCorrectness.SimulateExpr | apps/nawlang/compiler.c:602-636 | Running an expression's code leaves exactly its value on top of the stack, or ends with its error |
| LelyaCorrectness.SimulateStmt | apps/nawlang/compiler.c:341-437 | Running a statement's code does what the statement does, including leaving it by break, continue, an error or not at all |
| LelyaCorrectness.Preservation | apps/nawlang/vm.c:107-298 | For every program, input stream and fuel, the interpreter's outcome is a state of the machine's run, with the same output, input, variables and error; an unfinished one takes at least as many instructions as fuel |
| LelyaCorrectness.DivergenceAgrees | apps/nawlang/vm.c:107-298 | The machine runs for ever if and only if the interpreter does |
| LelyaCorrectness.EndAgrees | apps/nawlang/vm.c:107-298 | A machine run that ends, ends as the interpreter does with enough fuel and with any more |
| LelyaCorrectness.EveryStateSafe | apps/nawlang/vm.c:27-69 | At every moment of a run what it has shown is a prefix of what the program shows; underflow, overflow and bad calls never occur |
| LelyaCorrectness.NativeNetsOne | apps/nawlang/vm.c:250-273 | A native call nets one value if and only if it has as many arguments as the machine pops |
| LelyaLaws.Variables | apps/nawlang/vm.c:128-144 | A variable holds 0 until it is assigned, then what was last assigned to it; no other variable, no output and no input changes |
| LelyaLaws.TextsAreNoNumbers | apps/nawlang/vm.c:60-69 | An operation fails exactly on a text or a division by zero; a text as a condition or an assigned value stops the program with a type mismatch; a text can be printed |
| LelyaLaws.Branches | apps/nawlang/compiler.c:638-677 | Comparing a condition with 0 exchanges the branches |
| LelyaLaws.NoElse | apps/nawlang/compiler.c:663-677 | An if without an else runs as one with an empty one |
| LelyaLaws.Grouping | apps/nawlang/compiler.c:321-339 | Statements in a row run alike however they are grouped |
| LelyaLaws.LoopEnds | apps/nawlang/compiler.c:679-728 | A loop without breaks of its own that ends leaves its condition 0 |
| LelyaLaws.LoopNotBroken | apps/nawlang/compiler.c:713-727 | A break or continue leaves one loop only |
| LelyaLaws.Continues | apps/nawlang/compiler.c:378-386 | A continue at the end of a body changes nothing, one at its start leaves the rest out |
| LelyaLaws.Breaks | apps/nawlang/compiler.c:368-376 | A loop whose body ends with a break runs as an if |
| LelyaStack.StmtFlow | apps/nawlang/compiler.c:341-437 | In any statement's code every jump goes where the stack is empty; when its native calls have the right arity and its expressions fit the stack, every other instruction takes the height assigned to it to that of the next |
| LelyaSafety.StmtInRange | apps/nawlang/compiler.c:556-583 | In the code of any statement each variable named is one of 64 and each string one of those kept, full tables or not |
| LelyaSafety.NeverCrashes | apps/nawlang/vm.c:107-298 | No run of the code of any program whatever leaves its code, its variables, its pool or its stack |
| LelyaSafety.StackDiscipline | apps/nawlang/vm.c:115-297 | In every run every instruction finds the stack at the height assigned to it |
| LelyaSafety.EmptyBetweenStatements | apps/nawlang/vm.c:115-297 | The stack is empty at every statement start, however it was reached |
| LelyaStack.JumpsLand | apps/nawlang/compiler.c:585-600 | Every jump of any finished code goes to an instruction of it that expects an empty stack |
| LelyaExamples.ArgumentLeftOver | apps/nawlang/vm.c:250-273 | The text `print math_sin(1,2)` compiles, calls the function on the second argument alone, and halts with the first still on the stack |
| LelyaShared.StmtShared | apps/nawlang/compiler.c:556-583 | Any statement compiles to the same code and tables as the one in which the names and strings past a full table are replaced by the one that has the last slot |
| LelyaShared.SharedSlots | apps/nawlang/compiler.c:122-149 | So any program compiles to the code and the pool of a program with a slot for each name and string, to which the results about runs apply |
| LelyaRun.AcceptableAccepted | apps/nawlang/compiler.c:368-386 | No text is read with a break or continue outside a loop, so an acceptable text stands for a program the results apply to, its own when the tables hold it |
| LelyaRun.PrintedProgramRuns | apps/nawlang/compiler.c:585-600 | A program printed in any style compiles from its text, and the machine runs as the interpreter runs the program that was printed, names past a full table being one |
| LelyaEuclid.LoopRuns | apps/nawlang/vm.c:107-298 | A loop of subtractions, run from any two positive numbers, leaves their greatest common divisor in both variables |
| LelyaEuclid.TextToOutput | apps/nawlang/parser.c:32-34 | A given text of eight lines, compiled and run on any two positive numbers typed in, shows their greatest common divisor and halts |
| LelyaRun.NawlangRun | apps/nawlang/parser.c:32-34 | Compiling any text that fits and running it never leaves the machine's arrays; with the machine's arities and a stack that suffices it shows only what the text's program shows and ends normally or by an error only as it does |
| FsFormat.CStrOf | fs/nawfs.c:13-22 | A string without zeros, followed by nothing or a zero, is read back whole as a C string |
| FsFormat.PackHolds | fs/nawfs.c:13-22 | A packed field holds exactly the front of the string that fits it, and zeros behind |
| FsFormat.PackSame | fs/nawfs.c:13-22 | Two strings pack alike if and only if their fronts agree |
| FsFormat.EntryBytes | fs/nawfs_format.h:21-27 | Name, extension, size and sector stand at their places in an entry, low byte first |
| FsFormat.ValidBytes | fs/nawfs.c:39-57 | Which 32 bytes are a valid entry, byte by byte |
| FsFormat.SuperblockBytes | fs/nawfs.c:89-98 | The 512 bytes the formatter writes |
| FsFormat.EncodeDecode | fs/nawfs_format.h:21-27 | Decoding an encoded entry restores it |
| FsFormat.DecodeEncode | fs/nawfs_format.h:21-27 | Encoding a decoded entry restores its 32 bytes |
| FsFormat.SuperblockRecognised | fs/nawfs.c:89-130 | A sector is taken for a superblock if and only if its first twenty bytes are those the formatter writes |
| FsFormat.EmptySlot | fs/nawfs.c:39-57 | A zeroed slot is no entry |
| NawFs.FileSystem.DiskWrite | drivers/ata/ata.c:70-95 | A write replaces one whole sector inside the disk, and is refused outside |
| NawFs.FileSystem.FindFile | fs/nawfs.c:234-241 | The loop finds the first entry with the packed key, or -1 |
| FsModel.SameFile | fs/nawfs.c:59-68 | Two names are one file if and only if their first eight characters and the first three of their extensions agree |
| FsModel.NameKept | fs/nawfs.c:13-22 | The key of a file, read as C strings, is the name it was made from, cut to eight and three characters |
| NawFs.FileSystem.FindFreeSector | fs/nawfs.c:70-87 | The nested loops find the first data sector no entry uses, or -1 |
| NawFs.FileSystem.BuildCatalogSector | fs/nawfs.c:217-225 | The loop builds the sector's sixteen slots, zero past the last entry |
| NawFs.FileSystem.Flush | fs/nawfs.c:214-232 | Writes the nine catalog sectors in order, and nothing else |
| NawFs.FileSystem.LoadCatalog | fs/nawfs.c:132-155 | The loops load the valid entries of all slots in order, at most 64; none when the drive does not answer |
| NawFs.FileSystem.Format | fs/nawfs.c:157-183 | Writes the superblock, then zeroes the catalog and the data sectors, and empties the table |
| NawFs.FileSystem.Init | fs/nawfs.c:185-212 | Formats exactly when the superblock is not recognised, then loads the catalog; does nothing without the drive |
| NawFs.FileSystem.CreateFile | fs/nawfs.c:256-282 | Has the effect of creating on table, disk and write order, with the return code of each refusal |
| NawFs.FileSystem.WriteData | fs/nawfs.c:284-304 | Has the effect of writing, the length taken modulo 65536 and cut to 512 |
| NawFs.FileSystem.ReadData | fs/nawfs.c:306-330 | The text under the first matching entry, cut to its size and at the first zero; none without the drive or the file |
| NawFs.FileSystem.DeleteFile | fs/nawfs.c:333-351 | Has the effect of deleting: the sector zeroed first, the entries shifted, the catalog flushed |
| NawFs.FileSystem.RemoveEntry | fs/nawfs.c:340-348 | The shifting loop takes out one entry and keeps the others in order |
| FsCatalog.FlushSector | fs/nawfs.c:214-232 | The first k writes of a flush replace the first k catalog sectors and no other sector of the disk |
| FsCatalog.EntryPlace | fs/nawfs.c:214-232 | On a mirrored disk entry i is encoded in sector 130 + i / 16, at byte 32 * (i mod 16) |
| FsCatalog.LoadMix | fs/nawfs.c:132-155 | What loading finds on a disk whose first slots are new and whose other slots are old, slot by slot |
| FsCatalog.CrashedFlush | fs/nawfs.c:214-232 | A reload after a flush that stopped after k sectors finds the first 16k entries of the new catalog and the rest of the old |
| FsCatalog.FlushLoad | fs/nawfs.c:132-155 | Flushing any catalog of valid entries and loading it restores the same entries in the same order and number |
| FsCatalog.LookupDuplicate | fs/nawfs.c:234-241 | A second copy of an entry further down changes no lookup |
| FsInvariant.SectorIsFree | fs/nawfs.c:70-87 | With fewer than 64 entries there is always a free data sector |
| FsInvariant.CreateSucceeds | fs/nawfs.c:256-282 | Creating succeeds if and only if there is room, both name parts are non-empty and the key is new |
| FsInvariant.FormatEstablishesInv | fs/nawfs.c:157-183 | Formatting any disk establishes the invariant: valid entries, distinct keys, one sector a key, catalog mirrored, superblock recognised; and every text is as long as its recorded size |
| FsInvariant.CreateKeepsInv | fs/nawfs.c:256-282 | Creating keeps it, and texts as long as recorded; and, with entries there twice, that no two keys share a sector |
| FsInvariant.WriteKeepsInv | fs/nawfs.c:284-304 | Writing keeps it, and texts as long as recorded where no entry is there twice; and, with entries there twice, that no two keys share a sector |
| FsInvariant.DeleteKeepsInv | fs/nawfs.c:333-351 | Deleting keeps it, and texts as long as recorded where no entry is there twice; and, with entries there twice, that no two keys share a sector |
| FsInvariant.ReloadIsIdentity | fs/nawfs.c:132-155 | Under it a reload finds the catalog as it is in memory |
| FsCrash.CreateCrash | fs/nawfs.c:274-281 | A creation stopped between any two sector writes leaves, after a reload, the old catalog or the new one, every stored text unchanged, and a recognised disk |
| FsCrash.DeleteCrash | fs/nawfs.c:337-350 | A deletion stopped between any two sector writes leaves lookups equal to the old or the new catalog's, every other file reading as before, and the deleted file gone or empty |
| FsCrash.DeleteLeavesDuplicate | fs/nawfs.c:340-349 | Such a stop leaves an entry twice if and only if the sector boundary it stopped at lies inside the shifted part |
| FsCrash.WriteCrash | fs/nawfs.c:298-303 | What a stopped write leaves: the new text, cut to the old size until the entry's own catalog sector is written; all other files as before |
| FsCrash.WriteAtomic | fs/nawfs.c:284-304 | A write is all or nothing at every stopping point if and only if the new text is no longer than the recorded size, or extends an old text of that size |
| FsCrash.FormatCrash | fs/nawfs.c:157-183 | On any disk whatever, a format stopped after its first write leaves a recognised disk that lists the valid entries of the catalog slots not yet zeroed, at most 64 |
| FsCrash.FormatCrashTail | fs/nawfs.c:157-183 | On a disk that mirrors a catalog, these are its last entries |
| FsRecovery.StopKeepsInv | fs/nawfs.c:256-351 | Any operation stopped after any number of writes and followed by a reload leaves a sound state: recognised, mirrored, valid entries, no two keys on one sector; and the whole invariant, unless it is a deletion that leaves an entry twice |
| FsRecovery.StopLeaves | fs/nawfs.c:256-351 | From any sound state, the files are then as before, or as after the operation, or the deleted file is empty, or the written one holds the front of the new text |
| FsRecovery.RunWithStops | fs/nawfs.c:185-351 | Over any run of operations, stops and restarts whatever, from any sound state, the disk answers and ends as the map may, where a deletion may leave its file empty and a creation may find no room; where no stop leaves an entry twice, as the map does |
| FsRecovery.FormattedRunWithStops | fs/nawfs.c:157-183 | The same from any disk, formatted, and the map that starts empty |
| FsRecovery.UntouchedFile | fs/nawfs.c:256-351 | A file that no operation of the run is about reads at its end as at its start, whatever stops there were |
| FsRecovery.WrittenFile | fs/nawfs.c:284-304 | What a successful write stored is read until an operation is about that file again, whatever else stops |
| FsRecovery.DeletedFile | fs/nawfs.c:333-351 | After a deletion, carried out or stopped after any of its writes, the file is gone or empty until an operation is about it again |
| FsRecovery.DuplicateOutlivesDelete | fs/nawfs.c:333-351 | Where a stopped deletion left an entry twice, deleting that file succeeds, and it stays listed and reads empty |
| FsExamples.TornWrite | fs/nawfs.c:284-304 | On any disk, formatted, with a file of one byte, a write of two bytes stopped after its first sector leaves the first of them alone |
| FsExamples.ListedTwice | fs/nawfs.c:333-351 | On any disk, formatted, with 17 files, deleting the first and stopping after the first catalog sector lists the last twice; deleted, it reads empty |
| FsMap.StepRefines | fs/nawfs.c:256-351 | Each operation on the disk gives the answer of the same operation on a map of packed names to texts, and the files afterwards are the map afterwards |
| FsMap.StepMayRefine | fs/nawfs.c:256-351 | With entries there twice it still does, but that a deletion may leave its file empty and a creation may find no room |
| FsMap.CreateRefusedEarly | fs/nawfs.c:256-282 | A creation the map would do is refused if and only if the table is full and holds an entry twice |
| FsMap.RunRefines | fs/nawfs.c:256-351 | The same over any run of create, write, read, delete and reload |
| FsMap.FormattedRunRefines | fs/nawfs.c:157-183 | From any disk, formatted, every run behaves as the map that starts empty |
| FsMap.StoredIsCut | fs/nawfs.c:291-292 | What is kept of a text is the text cut to 512 bytes if and only if it is shorter than 65536 bytes or its length modulo 65536 is at least 512 |
| FsMap.ShortIsStored | fs/nawfs.c:291-292 | A text of at most 512 bytes, as both callers pass, is stored whole |
| FsMap.WrappedLengthLosesText | fs/nawfs.c:291-292 | A text of 65536 bytes is stored as nothing |
| TerminalModel.PutInv | kernel/terminal/terminal.c:276-320 | Writing any character keeps the invariant: cursor in the text, text in the history, an unwrapped row shorter than 80, view in the text, blank rows below |
| TerminalModel.Run | kernel/terminal/terminal.c:144-320 | Every mix of writing, clearing, moving, placing and paging keeps it |
| Terminal.Console.ShiftHistoryUp | kernel/terminal/terminal.c:48-71 | The loops drop the first history row, move the others up, blank the last and adjust cursor, count and view |
| Terminal.Console.EnsureHistoryRoom | kernel/terminal/terminal.c:126-135 | Makes room for the cursor's row, shifting once at the end of the history |
| Terminal.Console.AdvanceToNextRow | kernel/terminal/terminal.c:137-142 | Puts the cursor at the start of a fresh row |
| Terminal.Console.RenderView | kernel/terminal/terminal.c:93-115 | The loops show the view's rows, blank past the last, and place the hardware cursor |
| Terminal.Console.EndBatch | kernel/terminal/terminal.c:225-236 | The end of the outermost batch draws the screen once when a redraw is pending and not otherwise, and the screen then shows the state; an inner end draws nothing |
| Terminal.Console.PutChar | kernel/terminal/terminal.c:276-320 | Does what writing the character does to the state, in all three branches, and shows it unless a batch is open |
| Terminal.Console.WriteText | kernel/terminal/terminal.c:322-326 | The loop writes a whole text |
| Terminal.Console.Clear | kernel/terminal/terminal.c:238-246 | Leaves the empty state |
| Terminal.Console.MoveCursorLeft | kernel/terminal/terminal.c:155-169 | Moves back over rows as their wrap flags and lengths say |
| Terminal.Console.MoveCursorRight | kernel/terminal/terminal.c:171-192 | Moves on over rows as their wrap flags and lengths say |
| Terminal.Console.SetCursorAbsolute | kernel/terminal/terminal.c:194-219 | Places the cursor, clamped to the text |
| Terminal.Console.SetCursorOffset | kernel/terminal/terminal.c:144-153 | Places the cursor by screen offset, growing the text to it |
| Terminal.Console.ScrollPageUp | kernel/terminal/terminal.c:248-259 | Moves the view up by a screen, to the top at most |
| Terminal.Console.ScrollPageDown | kernel/terminal/terminal.c:261-274 | Moves the view down by a screen, to the bottom at most |
| TerminalLayout.LayoutSnoc | kernel/terminal/terminal.c:276-316 | One character more extends the unbounded layout (lines cut into rows of 80) at its end as the terminal does |
| TerminalLayout.TextBack | kernel/terminal/terminal.c:276-316 | The text can be read back whole from its layout, whose rows wrap exactly where 80 characters fill them |
| TerminalLayout.WrapPlaces | kernel/terminal/terminal.c:306-316 | Character k of a line stands in row k / 80, column k mod 80 |
| TerminalLayout.WrapCount | kernel/terminal/terminal.c:306-316 | A line of n characters takes n / 80 + 1 rows |
| TerminalLayout.Scrollback | kernel/terminal/terminal.c:48-142 | From a cleared terminal any text without backspace leaves the last rows of its layout, at most 96, in order, with lengths and wrap flags, the cursor after the last character |
| TerminalLayout.ScreenIsLayoutEnd | kernel/terminal/terminal.c:93-104 | And the screen shows the last 25 rows of the layout |
| TerminalUndo.UndoOne | kernel/terminal/terminal.c:281-304 | One backspace takes back one character, newlines and wraps included |
| TerminalUndo.BackspaceUndoes | kernel/terminal/terminal.c:276-316 | Writing any text that shifts no history, from the end of the text, and then as many backspaces restores all cells, lengths, wrap flags and the cursor |
| TerminalUndo.WrittenAtEnd | kernel/terminal/terminal.c:276-316 | After any text the cursor stands at the end, so what follows can be taken back |
| TerminalMoves.LeftBeforeRight | kernel/terminal/terminal.c:155-192 | Left goes strictly back and right strictly on in reading order, and they do nothing exactly at the start and at the end of the text |
| TerminalMoves.ViewFollows | kernel/terminal/terminal.c:85-91 | The view stays while the cursor is in sight, and else moves just until it is |
| TerminalMoves.LeftUndoesRight | kernel/terminal/terminal.c:155-192 | Moving left undoes moving right if and only if the cursor was within the row's text; the cursor stays in sight and the text unchanged |
| TerminalMoves.RightUndoesLeft | kernel/terminal/terminal.c:155-192 | The same the other way round |
| TerminalMoves.PlacedInSight | kernel/terminal/terminal.c:194-219 | Wherever the cursor is asked to be, it comes in sight, the rows unchanged, in the row and the column that are nearest among those in use |
| TerminalMoves.OffsetLands | kernel/terminal/terminal.c:144-153 | The hardware cursor lands in the cell of the screen that the offset names, the view staying |
| TerminalMoves.PagingUndone | kernel/terminal/terminal.c:248-274 | When a page down undoes a page up and the other way round, both exactly |
| VisualPosition.PositionsIncrease | apps/editor/editor_cursor.c:5-17 | The position is strictly increasing in the index |
| VisualPosition.OneLine | apps/editor/editor_cursor.c:5-17 | On one line character i stands i / 80 rows on, in column i mod 80 |
| VisualPosition.LineBreak | apps/editor/editor_cursor.c:5-17 | After a line break comes the start of the next row |
| Editor.EditorState.GetVisualPosition | apps/editor/editor_cursor.c:19-26 | The loop computes the position of the cursor's index |
| Editor.EditorState.IndexFromVisualPosition | apps/editor/editor_cursor.c:28-51 | The loop finds the first index of the row at or past the column, else the row's last; -1 if and only if the text has no such row |
| Editor.EditorState.Move | apps/editor/editor_cursor.c:53-79 | Left and right move by one index; up and down go to the adjacent row at the same column or its last one, and stay when there is no such row |
| EditorLayout.ArrowKeys | apps/editor/editor_cursor.c:53-79 | By scan code: 0x4B and 0x4D go one index back and on, 0x48 and 0x50 one row up and down, never to a later column; at the ends of the text, in its first and in its last row the cursor stays |
| EditorLayout.UpAndDown | apps/editor/editor_cursor.c:53-79 | Down undoes up, and up undoes down, if and only if the row between kept the column |
| EditorLayout.IndexInvertsPosition | apps/editor/editor_cursor.c:28-51 | Looking up the position of an index finds that index and no other |
| EditorLayout.IndexIsUnique | apps/editor/editor_cursor.c:28-51 | A row and column lead to one index only |
| EditorLayout.RowExists | apps/editor/editor_cursor.c:5-17 | Every row from the first to that of the text's end holds an index |
| EditorLayout.LookupLands | apps/editor/editor_cursor.c:53-79 | A lookup lands in the row at the smaller of the column and the row's last one exactly when the text has the row |
| EditorScreen.CursorAfterDrawing | kernel/terminal/terminal.c:276-320 | After drawing a text the terminal's cursor is at the text's position, held at row 95 |
| EditorScreen.CellAtPosition | apps/editor/editor_cursor.c:5-17 | Every character stands in the layout at its computed position; line ends and the end of the text stand on a blank |
| EditorScreen.TextStart | apps/editor/editor_render.c:9-20 | The header puts the text at row 3, or lower by the rows its title and status wrap into |
| EditorScreen.CursorAgrees | apps/editor/editor_render.c:22-27 | Drawing up to an index leaves the terminal's cursor at the editor's position if and only if the header has not wrapped and the position is within 96 rows (or both are at the last row) |
| EditorScreen.HeaderFits | kernel/shell/shell_commands.c:208-218 | With a name, an extension and a status as the shell and the editor give them, the header never wraps and the text starts at row 3 |
| EditorScreen.CursorAgreesFromShell | apps/editor/editor_render.c:22-27 | So the two positions agree if and only if the editor's is within the 96 rows |
| EditorScreen.LongTextDisagrees | apps/editor/editor_render.c:22-27 | After 93 empty lines the editor's row is 96 and the terminal's 95 |
| EditorScreen.CursorOnItsCharacter | apps/editor/editor_render.c:5-29 | While the drawing fits, the screen shows under the cursor the character the cursor is at |
| Editor.Render | apps/editor/editor_render.c:5-29 | Leaves the drawing with the cursor placed; the screen is drawn exactly once, or not at all inside a batch of the caller's |
| NetChecksum.Checksum | net/ipv4.c:13-29 | The loops compute the complement of the folded 32-bit word sum |
| NetChecksum.OnesSumFolds | net/ipv4.c:24-26 | Folding carries at the end gives the one's-complement sum word by word |
| NetChecksum.WorkedExample | net/ipv4.c:13-29 | The sum of the example in section 3 of RFC 1071 is the one given there |
| NetChecksum.HighByteFirst | net/ipv4.c:16-22 | A word has its high byte first; a last odd byte is the high one |
| NetChecksum.ChecksumExact | net/ipv4.c:13-29 | For given data the program's checksum is the one's-complement one if and only if the carries lost past 32 bits are harmless |
| NetChecksum.ChecksumExactUpTo | net/ipv4.c:13-29 | It is for all data of a length if and only if the length is at most 131074 bytes |
| NetChecksum.ChecksToZero | net/ipv4.c:13-29 | Data whose zeroed word is replaced by its checksum has checksum zero |
| NetFrame.HeaderChecksToZero | net/udp.c:55-66 | Every header sent checks to zero |
| NetFrame.SendPacket | net/udp.c:38-80 | Filling the packet field by field yields exactly the frame; nothing is sent when the card is not ready or the data exceeds 1472 bytes |
| NetFrame.FrameBytes | net/udp.c:49-77 | What stands at each byte of a frame: the broadcast address, the sender's, the type, the lengths, the addresses, the ports and the payload, high bytes first |
| NetFrame.FillIp | net/udp.c:55-66 | The header bytes are those of the header with its checksum in place, and no other byte changes |
| NetFrame.FrameRoundTrip | net/ethernet.c:8-21 | A frame sent is taken by every card, shows whose it is, and is received with the same addresses, ports and payload, whatever padding follows it |
| NetFrame.PayloadInsideFrame | net/ipv4.c:31-58 | From any frame at all, a payload received is a stretch of the frame after the headers |
| NetFrame.ReceivedExactly | net/ipv4.c:31-58 | Any frame at all is received if and only if its type, version, protocol and lengths are right, with the addresses and ports that stand in it |
| NetFrame.ChecksumNotChecked | net/ipv4.c:31-58 | Frames that differ in the header checksum only are received alike |
| NetFrame.TextShownVerbatim | net/udp.c:108-114 | A text datagram is shown as sent if and only if it has at most 120 bytes, all printable |
| NetFrame.TextShown | net/udp.c:108-114 | Of a text datagram the first 120 bytes are shown, a dot for each that is not printable |
| NetFrame.Delivered | net/udp.c:103-114 | A datagram goes to DHCP if and only if its ports are 67 and 68, and is dropped if and only if it is neither that nor for port 5000 |
| NawMath.Sqrt | lib/math.c:134-152 | The loop computes twelve Newton steps from max(v, 1) |
| NawMath.NewtonError | lib/math.c:147-149 | Each step keeps the guess from above and divides the excess of its square by at least four |
| NawMath.RootError | lib/math.c:134-152 | The root r of v > 0 satisfies 0 <= r*r - v <= (max(v,1)^2 - v) / 4^12 |
| NawMath.DivideMultiply | lib/math.c:564-575 | Division by a number other than zero is inverse to multiplication |
| NawMath.QuotientIsUnique | lib/math.c:564-575 | And gives the only such quotient |
| NawMath.DivideByZero | lib/math.c:567-570 | Division by zero gives zero |
| NawMath.UnitSquared | lib/math.c:558-562 | The imaginary unit squared is -1, and a real number times it is that number upright |
| NawMath.RealProduct | lib/math.c:558-562 | The product of two real numbers is the real one |
| NawMath.PowInt | lib/math.c:615-640 | Squaring computes the n-fold product, for a negative power its inverse, and zero for zero |
| NawMath.PowSquared | lib/math.c:626-633 | The n-th power of a square is the 2n-th power |
| NawMath.SqrtError | lib/math.c:673-704 | The square of the computed complex root misses its argument by the errors of the real roots it is made of, given exactly, in both parts; neither half is ever cut at zero |
| NawMath.SqrtSign | lib/math.c:697-703 | The square of the computed root lies on the argument's side of the real axis |
| NawMath.SqrtBound | lib/math.c:673-704 | The squared distance from that square to the argument is at most a stated sum of products of the two halves it is made of and the real roots' bounds (max(v,1)^2 - v) / 4^12 |
| NawMath.ComplexSqrt | lib/math.c:673-704 | The method computes that root |
| NawMath.RootsSolve | lib/math.c:757-766 | Both roots x satisfy a*x^2 + b*x + c = (s^2 - D) / (4a) exactly, s being the computed root of the discriminant D, and add up to -b/a |
| NawMath.RootsBound | lib/math.c:757-766 | So the squared size of that value, times 16 times that of a, is at most the stated bound for D |
| NawMath.LinearSolved | lib/math.c:748-754 | With a = 0 and b other than 0 the result is the one number that solves the equation |
| NawMath.DegenerateSolved | lib/math.c:740-746 | With a = b = 0 every number is a root exactly when the status says so, and none otherwise |
| NawMath.StatusMeans | lib/math.c:724-769 | What each status says, for all coefficients: quadratic exactly for a other than 0, linear exactly with one root that is the result, infinite exactly when every number is a root, none only when no number is |
| NawMath.RootsApart | lib/math.c:757-766 | The first root lies the computed root of the discriminant, divided by a, from the second |
| NawMath.SolveQuadratic | lib/math.c:724-769 | The method returns and stores that solution and its status, in all four cases |

## Left out

- LelyaCompiler.NawCompile: requires a text that the compiler stops on, whose code has at most 1024 instructions and whose loops have at most 32 breaks and 32 continues each; beyond them the C code does not end or writes past its arrays. `ReadTwice`, `TooManyBreaks` and `StrayBrace` are such texts, `FileFits` and `NoBraceStops` conditions that rule them out. A loop nested deeper than 8 is modelled (its head is skipped), and so are full tables of names and strings (the last slot is shared).
- LelyaBounds.ProgramBound: quadratic, because a string that runs past the end of its line lets the next statement compile the same characters again; without quotes (`LelyaSize.NoQuoteBound`) and for printed programs the bound is linear.
- LelyaSize.FileFits: one way only; a text with quotes may fit as well, as every printed program of at most 512 characters does.
- LelyaVm.Vm.Run: runs for at most a given number of instructions, because a program may run for ever; the results about whole runs are stated for every number.
- LelyaRun.NawlangRun: the same; what it shows is tied to the program's meaning for native calls with the arity the machine expects and expressions no deeper than the stack of 256.
- LelyaRun.PrintedProgramRuns: requires the same of the program that is printed.
- LelyaCorrectness.Preservation: requires native calls with the arity the machine expects, expressions no deeper than 256, and a slot for every name and string. `LelyaShared.SharedSlots` extends it to full tables. With a wrong arity the machine's stack drifts, which the interpreter, having no stack, does not describe; `NativeNetsOne` says exactly when it does, and `NeverCrashes` that no array is left.
- LelyaCorrectness.SimulateExpr: requires the same of its expression.
- LelyaCorrectness.SimulateStmt: requires the same of its statement.
- LelyaCorrectness.DivergenceAgrees: requires the same of its program.
- LelyaCorrectness.EndAgrees: requires the same of its program.
- LelyaCorrectness.EveryStateSafe: requires the same of its program; that no array is left, `NeverCrashes`, holds of every program.
- LelyaSafety.StackDiscipline: requires the arities and the depth, without which it is false; that jumps land, `JumpsLand`, holds of every program.
- LelyaSafety.EmptyBetweenStatements: requires the same of its program.
- Signed overflow in the machine's arithmetic, undefined in C, is 32-bit wrap-around on both sides.
- String pointers are indices into the pool, `read` takes the next number of an infinite input stream, printing appends to a trace, and the `math_*` functions are any function of their argument texts.
- NawFs.FileSystem.DiskRead: one flag says whether the drive answers, for all sectors alike; writes fail only outside the disk, as in the driver, and each is atomic.
- NawFs.FileSystem.constructor: the table starts empty, as C's static storage does; interrupts being disabled while mounting is not modelled.
- `fs_list`, `fs_read_to_buffer` and the shell's commands: printing and copying.
- Terminal.Console.constructor: starts from the cleared state; a cell is its character, the attribute being constant.
- Terminal.Console.PutBackspace: leaves out the clamp of a negative column, which no state reaches.
- The terminal's number formatting, and the VGA memory beneath the cell grid.
- Inserting and deleting in the editor's buffer, its keyboard events, loading and saving.
- The DHCP client, which only receives its payload here, and the network card's ring buffers.
- NetFrame.Taken: a card takes what is sent to its own address or to all; the driver, which accepts every frame, asks for no less (drivers/rtl8139/rtl8139.c:136-141).
- NetFrame.SendPacket: the packet array is built afresh and its used part returned as the frame handed to the card.
- NawMath.RootError: and all of `NawMath` is over exact reals; the rounding of `double` is not modelled. Trigonometric, exponential and logarithm series, real powers and the text of numbers are left out.
- NawMath.PowInt: an exponent of -2147483648, whose negation overflows in C, is treated as the integer it is.
