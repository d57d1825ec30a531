# Verified models of Cervus userland tools

This project models the hard parts of the userland tools of Cervus, a hobby operating system written
in C, and proves what those parts are for. One group of modules stands for each tool:

- `Csh*`: the script interpreter of the shell (block matching, the line machine, its stack), its
  glob matcher and its integer expressions.
- `Bits`, `BitIo`, `Huffman`, `HuffTable`, `FixedCode`, `Lz`, `LzProof`, `Inflate`, `Deflate`,
  `DeflateRun`, `Dynamic`, `Stream`: the compressor and decompressor of the C library.
- `ArcBase`, `ArcCrc`, `Tar`, `Zip`, `Gzip`, `ArcFiles`: the archiver `arc` and its formats;
  `ArcForeign` and `ArcFormats` hold them against the bytes of other writers and of the standards.
- `Neo*`: the editor `neo` (two syntax highlighters, the early-stopping repaint, the row edits).
- `Find*`: the directory walk of `find`.
- `Awk*`: the lazy record and the hash arrays of `awk`.
- `Grep`, `Diff`, `Fdisk`, `Brew`, `Libc`: context output, hunks, partition placing, version order,
  and the number reading that two of them depend on. `Wrappers` holds the option type.

State that the source changes in place is held by classes and arrays, loops are loops, and every such
method is proved equal to a function on values; the theorems are about those functions. Modules with
`Laws`, `Words`, `Numbers`, `Meaning` or `Exact` in their name say what such a function gives without
naming its parts, with characters and positions written out.

## Main results

- The line interpreter of `csh`, which jumps between lines with a stack of frames, runs every
  structured program nested at most 32 deep, with its jumps in loops, whose run comes to no bad
  `foreach` header, as a big-step semantics of the program tree does: same commands, same order, same
  variables, and it halts iff the program terminates (`CshTheorem.RunsAsProgram`). On any script the parser accepts its
  stack is the list of enclosing blocks in every state, up to the first of three kinds of step that
  lose the thread (`CshInvariant.StackIsEnclosing`).
- `raw_inflate(raw_deflate(x)) = x` for every input: hash-chain matching, tokens, Huffman codes, bit
  buffers, the ten-bit decoding table and stored blocks (`DeflateRun.RawDeflate`). `raw_inflate` reads
  every stream of stored blocks, blocks with the fixed codes and blocks with codes of their own,
  however their headers were put down (`Stream.StreamInflates`).
- What `arc` wrote comes back through the dispatch of `arc x`, which looks only at the bytes, under
  exact conditions for .zip, .tar, .tar.gz and .gz (`ArcFiles.ZipUnpacks`, `ArcFiles.TarUnpacks`,
  `ArcFiles.TarGzUnpacks`, `ArcFiles.GzUnpacks`), and every checksum equals its bit-level definition
  (`ArcCrc.Crc32Of`).
- The repaint of `neo` restores agreement with a repaint from the top after every edit inside a row,
  and exactly when it does so for rows put in, taken out, split and joined (`NeoRows.UpdateRestores`,
  `NeoStale.SplitExact`). All edits are insertions or deletions in the saved text.
- Every run of `find` evaluates each reached entry once, in walk order, and nothing after a -quit
  (`FindOrder.EvaluatedOnceInOrder`, `FindQuit.QuitCutsTheWalk`); where answers depend only on the
  entry, exactly the entries to which the boolean value of the expression leaves a way
  (`FindExact.FindsExactly`).
- The lazy record of `awk` looks and answers like one that splits and joins at once, after every
  operation of a run, iff each assignment and update of NF, FS and OFS in it meets an exact condition
  (`AwkEager.RunIsEager`); context mode of `grep` prints exactly the
  windows; the hunks of `diff` patch both ways and leave out only common lines; `fdisk` keeps its
  table disjoint; versions are totally preordered.

## Where the code does not do what one would expect

The lemmas named here give the input on which the code surprises; the theorems give the condition
under which it does what it is for.

- `csh`: the stack has 32 frames and an opener that finds it full is not pushed, so the body of an
  untaken `if` below 32 blocks runs (`CshLimits.DepthLimitIsExact`). A `break` outside a loop makes an
  `else` branch run (`CshLimits.BreakOutsideLoop`). A `foreach` line without a list pushes no frame,
  so its `end` pops an outer one (`CshLimits.BadHeaderPopsOuter`). These three are all there is
  (`CshInvariant.StackIsEnclosing`).
- `neo`: a row put in is painted before the row count goes up and starts from state 0, and a row taken
  out repaints nothing, so a row below can keep old colours (`NeoWitness.SplitCanFail`,
  `NeoWitness.MergeCanFail`, with the exact conditions in `NeoStale`). A line break past the last line
  is not undone by backspace.
- `arc`: a file that cannot be read at packing time still gets a zip directory entry, which then
  describes no record (`Zip.DirectoryIsRight`). A tar name of 100 bytes or more is cut, an empty one
  ends the archive. The rounding mask in the tar code has 32 bits. The tar buffer is sized from what
  `stat` said, so a file that grows before it is read can run over it (`Tar.GrownFileOverruns`).
- `arc x` goes by the bytes: a .gz of a .zip gives the members and the .zip never comes back
  (`ArcFiles.GzOfZipGivesMembers`), and so does a .gz of a .tar; a .tar.gz of files none of which could
  be read gives 1024 zero bytes (`ArcFiles.EmptyTar`); a first name that starts like a zip sends a .tar
  to the zip reader (`ArcFiles.TarReadAsZip`).
- `inflate` does not refuse code lengths that do not fit; then its table and its bit-by-bit decoder
  need not agree (`Huffman.LookupCanDiffer`).
- `awk`: the variable NF is kept apart from the fields. The value of `NF = n` on a record that is not
  split yet is the old count (`AwkRecord.PrintsOldCount`); `NF += 1` and its like start from the count
  of the record before (`AwkRecord.UpdateStartsFromPrevious`), on the first record from 0, so that
  `NF--` empties the record and `NF -= 2` leaves the field array (`AwkRecord.FirstRecordGoesBelow`). A
  new FS or OFS still reaches the record at hand (`AwkRecord.SplitsWithNewFS`,
  `AwkRecord.JoinsWithNewOFS`). `AwkEager.RunIsEager` says exactly when none of this shows, and
  `AwkEager.CarefulRunIsEager` which scripts are safe.
- `strtoull` of the C library wraps modulo 2^64 and ignores a minus sign: version numbers of 2^64 and
  more, and sizes of 2^64 bytes and more, come out small (`Brew.WrappedNumberSortsLow`,
  `Fdisk.SizeIsExact`). On a disk smaller than what its label
  reserves, `fdisk` wraps below zero and the new partition is out of bounds
  (`Fdisk.AddKeepsTable`).

## Model

| member | source | states |
|---|---|---|
| `CshLines.ParseBlockStructure` | usr/bin/csh.c:689-742 | accepts a line list iff it is balanced (no prefix closes more than it opened, nothing left open, no `else` outside a block), and then records for every opener the one closer that belongs to it |
| `CshLines.ParseVerdict` | usr/bin/csh.c:689-742 | the pass can only reject an unbalanced list, and what it has recorded at the end of a balanced one is the matching |
| `CshLines.ClosingUnique` | usr/bin/csh.c:689-742 | an opener has at most one closer |
| `CshLines.EnclosingCounts` | usr/bin/csh.c:689-742 | the stack of open blocks is exactly as high as the depth counted without any stack |
| `CshLines.EnclosingNested` | usr/bin/csh.c:689-742 | blocks nest: what encloses an enclosing block is what stands before it on the stack |
| `CshLines.InnermostCloses` | usr/bin/csh.c:689-742 | a closer closes the innermost open block |
| `CshMachine.Interpreter.IsSkipping` | usr/bin/csh.c:745-753 | true iff some frame on the stack is one that skips |
| `CshMachine.Interpreter.StartForeach` | usr/bin/csh.c:1883-1919 | a `foreach` line makes the transition of the step function |
| `CshMachine.Interpreter.EndLoop` | usr/bin/csh.c:1942-1971 | an `end` line makes the transition of the step function: next item, next round, or past the block |
| `CshMachine.Interpreter.DoBreak` | usr/bin/csh.c:1975-1995 | pops frames down to and including the innermost loop frame and goes behind its end; without one it pops the if-frames and goes to the next line |
| `CshMachine.Interpreter.DoContinue` | usr/bin/csh.c:1997-2012 | drops the frames above the innermost loop frame and goes to its end line |
| `CshMachine.Interpreter.StepLine` | usr/bin/csh.c:1824-2021 | one pass of the interpreter loop is one step of the machine that the theorems below are about |
| `CshMachine.Interpreter.RunScript` | usr/bin/csh.c:1820-2024 | refuses exactly the unbalanced scripts, and otherwise makes as many machine steps as its budget allows |
| `CshMachine.StepsAdd` | usr/bin/csh.c:1824-2021 | runs compose |
| `CshProgram.FlattenBalanced` | usr/bin/csh.c:689-742 | the text of every structured program is accepted by the block pass |
| `CshProgram.MoreFuel` | usr/bin/csh.c:1820-2024 | the meaning of a program does not depend on how much fuel its definition is given once it terminates |
| `CshSimulation.PlacedWhereWritten` | usr/bin/csh.c:689-742 | wherever the text of a program stands in a script, the recorded ends are those of its own blocks |
| `CshSimulation.SkipsBlock` | usr/bin/csh.c:1844-1973 | as long as the stack has room, a skipped program goes by in as many steps as it has lines, without a command or an assignment, and leaves the stack as it was |
| `CshForward.Simulates` | usr/bin/csh.c:1820-2024 | from any stack in any script: if the program terminates, the machine gets from its first line to where its outcome says, with the same commands, the same variables and the same stack |
| `CshTheorem.HaltsWithResult` | usr/bin/csh.c:1820-2024 | a terminating program makes the machine halt in exactly the state the program prescribes |
| `CshTheorem.TerminatesWhenHalted` | usr/bin/csh.c:1820-2024 | if the machine halts, the program terminates |
| `CshTheorem.RunsAsProgram` | usr/bin/csh.c:1820-2024 | for every structured program nested at most 32 deep, with break and continue in loops, whose run comes to no bad header: its text is accepted, the machine halts on it iff the program terminates, and then both ran the same commands in the same order and have the same variables |
| `CshInvariant.TrackIsSound` | usr/bin/csh.c:1883-1919 | a run that stays on track comes to no bad header |
| `CshInvariant.SkipIsSilent` | usr/bin/csh.c:745-753 | while a frame skips, no step runs a command or changes a variable |
| `CshInvariant.InvStep` | usr/bin/csh.c:1824-2021 | for every script the parser accepts: a step keeps the stack invariant iff it does not open a block on a full stack, enter a `foreach` with a bad header, or `break` inside blocks without a loop |
| `CshInvariant.StackIsEnclosing` | usr/bin/csh.c:1820-2024 | for every script the parser accepts and every number of steps: in all states so far the stack is exactly the list of blocks around the line, with their body and end lines, and every frame above a skipping one skips, iff no step so far was one of those three |
| `CshInvariant.ProperIsEnclosing` | usr/bin/csh.c:1820-2024 | no step is, and so every reachable state has the right stack, when blocks nest at most 32 deep, every `break` stands in a loop or outside all blocks, and headers are sound |
| `CshLimits.DepthLimitIsExact` | usr/bin/csh.c:1846-1867 | the body of an `if` that is not taken runs all the same exactly when 32 or more blocks are around it |
| `CshLimits.BreakOutsideLoop` | usr/bin/csh.c:1975-1995 | a `break` outside every loop loses the if-frames, so that the `else` branch of a taken `if` runs as well |
| `CshLimits.BadHeaderPopsOuter` | usr/bin/csh.c:1892 | a `foreach` without a list inside a taken `if` makes the `else` branch run as well |
| `CshGlob.GlobMatch` | usr/bin/csh.c:1227-1263 | true iff the string can be cut into pieces that match the items of the pattern one by one; ends for every pattern and string |
| `CshGlob.MatchStar` | usr/bin/csh.c:1229-1235 | a run of stars and the rest of the pattern match iff the rest matches some suffix |
| `CshGlob.TestClass` | usr/bin/csh.c:1239-1253 | a bracket test consumes exactly the class and says whether the character is in its ranges |
| `CshGlob.MatchesOne` | usr/bin/csh.c:1236-1259 | an item other than a star takes exactly one character |
| `CshGlob.MatchesStar` | usr/bin/csh.c:1229-1235 | a star takes any prefix |
| `CshGlob.StarsCollapse` | usr/bin/csh.c:1230 | several stars in a row mean one |
| `CshGlobLaws.StarMeans` | usr/bin/csh.c:1229-1235 | `*` and a pattern match a text iff the pattern matches one of its suffixes |
| `CshGlobLaws.AnyMeans` | usr/bin/csh.c:1236-1238 | `?` takes any one character |
| `CshGlobLaws.CharacterMeans` | usr/bin/csh.c:1257-1260 | any character but `*`, `?` and `[` takes itself |
| `CshGlobLaws.ClassMeans` | usr/bin/csh.c:1239-1256 | a class of single characters and ranges takes one character that is among them; `!` or `^` in front turns that round |
| `CshEval.EvalPrimary` | usr/bin/csh.c:761-788 | reads what the grammar function reads at a primary: the value and where the text goes on |
| `CshEval.EvalLevel` | usr/bin/csh.c:790-854 | the loop of each level folds operators from the left, as the grammar function does |
| `CshEval.EvalInt` | usr/bin/csh.c:856-859 | the value that the grammar function gives the whole text; what that is, `CshExpr.EvaluatesText` and the laws of `CshNumbers` say |
| `CshExpr.EvaluatesText` | usr/bin/csh.c:755-859 | every text whose parentheses respect the six levels, with any blanks, evaluates to the value of its tree and is read to its end; a literal is worth ten, or sixteen, times the digits before its last, and the last |
| `CshExpr.PrintThenEvaluate` | usr/bin/csh.c:755-859 | printing any expression tree with the parentheses the levels need and evaluating the text gives the value of the tree, division and remainder by zero being 0 |
| `CshExpr.PrintIsMinimal` | usr/bin/csh.c:755-859 | no text that reads as the tree has fewer parentheses than the printed one |
| `CshNumbers.LiteralIsSum` | usr/bin/csh.c:774-787 | with exact addition and multiplication the value of a literal is the sum of its digits, each times 10 or 16 to the power of its place |
| `CshNumbers.LiteralWraps` | usr/bin/csh.c:774-787 | the same modulo 2^64 when both operations are right modulo 2^64 |
| `CshNumbers.CapitalPrefix` | usr/bin/csh.c:775 | `0X` reads as `0x` |
| `CshNumbers.OperatorsMean` | usr/bin/csh.c:790-854 | which characters stand for which of the ten operations, a division or remainder by zero being 0 |
| `CshNumbers.PrefixesMean` | usr/bin/csh.c:770-773 | what `-`, `+`, `~` and `!` in front of an operand do |
| `CshNumbers.TighterFirst` | usr/bin/csh.c:790-854 | of two operators the tighter in the list `* / %`, `+ -`, `<< >>`, `&`, `^` and the bitwise or is applied first, and of equally tight ones the left |
| `Diff.RunDiff` | usr/bin/diff.c:150-189 | the hunks, applied by their header numbers, turn the old lines into the new and back; before the first, between two and behind the last the lines of both files are the same and as many, and between two there is at least one; status 0 iff the files are equal |
| `Diff.FindResync` | usr/bin/diff.c:160-173 | the next point where the files agree again within the look-ahead, the nearest one by sum of skips, then by fewest lines of the first file |
| `Diff.ScriptOverHunk` | usr/bin/diff.c:130-148 | putting a hunk in front of a script that is right for the rest gives a script that is right for all |
| `Diff.ScriptOverCommonLine` | usr/bin/diff.c:154-158 | a common line in front of a right script keeps it right |
| `Diff.AlignedAppend` | usr/bin/diff.c:160-186 | a hunk from where the comparison stands to the next common place keeps everything outside the hunks common to both files and in step |
| `Diff.HeaderRanges` | usr/bin/diff.c:109-128 | the line numbers of a header give the hunk's ranges back, for empty and one-line ranges too |
| `Diff.HeaderMeans` | usr/bin/diff.c:109-148 | lines are counted from one, a range goes from its first to its last line, a hunk without lines of one file names the line behind which they would be; a, d or c by which side has lines |
| `Diff.RunBrief` | usr/bin/diff.c:224-230 | the -q loop gives the status of `RunDiff` |
| `Grep.Output.EmitLine` | usr/bin/grep.c:195-206 | prints the separator exactly when context is on, something was printed before, and this line does not follow the last one of this file |
| `Grep.GrepStream` | usr/bin/grep.c:231-317 | the output is that of the input cut just before the selected line after the last one allowed, for every A, B and -m N; the number returned is that of the selected lines before the cut |
| `Grep.ShowsTheWindows` | usr/bin/grep.c:231-317 | line k is printed iff some selected line s has s - B <= k <= s + A; each once, in order |
| `Grep.MarksTheGaps` | usr/bin/grep.c:195-206 | "--" stands exactly before a printed line that does not follow the one printed before it, and before the first of a file if an earlier one printed |
| `Grep.HoldInRing` | usr/bin/grep.c:292-305 | the ring buffer holds the last B lines not printed yet, oldest first |
| `Grep.ExpectedOfCut` | usr/bin/grep.c:306-316 | what is printed for the counted lines does not depend on the lines after the cut |
| `Libc.ReadDigits` | usr/lib/libcervus/internal/parse_signed.c:17-26 | reads the longest run of digits; the value is the number they write, modulo 2^64 |
| `Libc.RunUnique` | usr/lib/libcervus/internal/parse_signed.c:17-26 | the digit run is the only prefix of digits that is not followed by a digit |
| `Libc.NumberOfDecimal` | usr/lib/libcervus/internal/parse_signed.c:17-26 | the number that the decimal writing of n is read as is n |
| `Brew.Vercmp` | usr/bin/brew.c:170-185 | the order of two version texts is the lexicographic order of their tokens: digit runs as numbers, other bytes as themselves |
| `Brew.OrderIsTotalPreorder` | usr/bin/brew.c:170-185 | that order is total, transitive and changes sign when its arguments change places |
| `Brew.OrderByCharacters` | usr/bin/brew.c:170-185 | unless two digits meet, the smaller first character decides, equal ones are passed over, and a version that has ended is smaller |
| `Brew.OrderByNumbers` | usr/bin/brew.c:173-178 | where two digits meet the whole runs are compared by their numbers modulo 2^64, and equal ones are passed over |
| `Brew.VercmpDesc` | usr/bin/brew.c:187-190 | the sort order is the reverse of the version order |
| `Brew.OrderByValue` | usr/bin/brew.c:170-185 | versions all of whose numbers are below 2^64 are ordered by the values of their numbers |
| `Brew.TokensAreWrapped` | usr/bin/brew.c:173-178 | the comparison sees exactly the numbers of a version modulo 2^64 |
| `Brew.OrderedByValueWhen` | usr/bin/brew.c:170-185 | for two versions whose tokens differ somewhere in both: the order is that of the values iff at the first difference the remainders are ordered like the tokens, or are equal and the remainders behind them are |
| `Brew.PrefixByValue` | usr/bin/brew.c:170-185 | where the tokens of one version begin those of the other, the order is that of the values: the longer version is greater |
| `Brew.WrappedNumberSortsLow` | usr/bin/brew.c:173-178 | a plain number of 2^64 or more sorts above a smaller one iff its remainder does |
| `Fdisk.FindFreeStart` | usr/bin/fdisk.c:205-220 | ends, with the least sector from 2048 on that is a multiple of 2048 and in no partition |
| `Fdisk.FindFreeEnd` | usr/bin/fdisk.c:222-232 | the sector before the next partition above the start, or the last usable one |
| `Fdisk.ParseSize` | usr/bin/fdisk.c:243-253 | the sectors a size text means, with the 64-bit arithmetic of the source |
| `Fdisk.SizeIsExact` | usr/bin/fdisk.c:249-251 | a number with K, M or G means that many times 1024, 1024^2 or 1024^3 bytes, in sectors of 512, iff the product fits in 64 bits |
| `Fdisk.SectorsAreExact` | usr/bin/fdisk.c:243-253 | a number with no unit, or with any other text behind it, means that many sectors iff it fits in 64 bits |
| `Fdisk.FreeUpToEnd` | usr/bin/fdisk.c:205-232 | nothing lies between a free start and a free end |
| `Fdisk.AddKeepsTable` | usr/bin/fdisk.c:255-299 | a partition in a free range keeps the table disjoint, and in bounds iff the disk is at least as large as what the label reserves |
| `Fdisk.RemoveKeepsTable` | usr/bin/fdisk.c:301-310 | clearing a slot keeps the table disjoint and in bounds |
| `Fdisk.Context.CmdNew` | usr/bin/fdisk.c:255-299 | which slot, start, end and type a new partition gets, when none is made, and that the table stays disjoint and in bounds iff the disk is large enough for its label |
| `Fdisk.Context.CmdDelete` | usr/bin/fdisk.c:301-310 | clears the numbered slot if it is in use and changes nothing else |
| `Fdisk.Context.CmdSwitch` | usr/bin/fdisk.c:312-328 | an empty table of the other label |
| `Fdisk.Context.Session` | usr/bin/fdisk.c:255-328 | every sequence of commands keeps the table disjoint and in bounds on a disk large enough for both labels, whatever size texts are typed |
| `AwkSplit.SplitBlanks` | usr/bin/awk.c:724-779 | the loop gives the fields of the blank-splitting function, which `AwkWords.FieldsAreRuns` describes |
| `AwkSplit.SplitSingle` | usr/bin/awk.c:724-779 | splitting on one character gives the pieces between its occurrences |
| `AwkSplit.JoinUndoesSplit` | usr/bin/awk.c:724-792 | joining the pieces with the character gives the record back |
| `AwkSplit.SplitUndoesJoin` | usr/bin/awk.c:724-792 | splitting joined fields that do not contain the character gives them back |
| `AwkSplit.RebuildKeepsWords` | usr/bin/awk.c:724-792 | rebuilding a blank-separated record with single blanks keeps its words |
| `AwkWords.FieldsAreRuns` | usr/bin/awk.c:732-741 | with FS a space there are spans, in order and apart, of which the fields are the texts, and a character is in one of them iff it is no space, tab or newline: every maximal run is found and nothing else |
| `AwkWords.FieldsAreBetween` | usr/bin/awk.c:742-753 | with one other character as FS no field holds it, and the fields with it between them are the record |
| `AwkWords.FieldsAreCharacters` | usr/bin/awk.c:754-758 | with FS empty every character is a field |
| `AwkRecord.Record.GetField` | usr/bin/awk.c:794-800 | reads what eager splitting and joining would give, splitting or joining only if needed; any index |
| `AwkRecord.Record.SetField` | usr/bin/awk.c:802-814 | writes like the eager record; `$0` replaces the record, a field past the end extends it, and a negative index leaves the array |
| `AwkRecord.Record.SetNF` | usr/bin/awk.c:874 | truncates or extends the fields like the eager record, and stays in the array iff the number is at least -1; the variable, which is also the value of the assignment (line 984), is the new count iff the record was split or had that count |
| `AwkRecord.Record.UpdateNF` | usr/bin/awk.c:984-991 | `NF op= y`, `++NF` and `NF++` start from the stored variable: the record, the value before and after, and the variable afterwards; the array is left iff the new value is below -1 |
| `AwkEager.StepIsEager` | usr/bin/awk.c:707-991 | each operation leaves the record and gives the answer of the eager record iff its condition holds: the value of `NF = n` is used only if the record was split or had n fields; an update finds a variable that gives the same; NF stays at least -1; FS changes only when the record is split or splits the same, OFS only when the text is joined or joins the same |
| `AwkEager.RunIsEager` | usr/bin/awk.c:707-991 | for every sequence of reads and writes of `$0`, `$i`, `NF`, FS and OFS: record and answer are those of the eager record after each operation iff every one meets its condition |
| `AwkEager.CarefulRunIsEager` | usr/bin/awk.c:707-991 | the answers are those of the eager record in every script that keeps NF at -1 or above and follows a rule on the order of its operations: no field or NF read between a late FS and the next record, no text read between a late OFS and the next join, no value of `NF = n` before the record is split, no update of NF unless a field or NF was read, or a field set, before it |
| `AwkEager.SetFieldReadsBack` | usr/bin/awk.c:802-814 | in the eager record a field that was set is read back, all others are as they were, and NF and the text follow |
| `AwkEager.SetNFReadsBack` | usr/bin/awk.c:874 | in the eager record setting NF keeps the fields up to it, adds empty ones or drops the rest, and the text follows |
| `AwkRecord.Record.PerformAll` | usr/bin/awk.c:707-991 | the lazy record makes that run, step by step, up to an access outside the array; at least one of record and fields is valid throughout |
| `AwkRecord.AssignedValueIsOld` | usr/bin/awk.c:984 | the value of `NF = n` on a record that is not split yet is the old count, for every n |
| `AwkRecord.PrintsOldCount` | usr/bin/awk.c:984 | `{ print (NF = 5) }` prints 2 on "a b" |
| `AwkRecord.FirstRecordGoesBelow` | usr/bin/awk.c:874-885 | `NF--` on the first record makes NF -1 and the record empty, whatever it was; `NF -= 2` leaves the array |
| `AwkRecord.UpdateStartsFromPrevious` | usr/bin/awk.c:883-885 | `++NF` right after a record was read starts from the count of the record before it |
| `AwkRecord.SplitsWithNewFS` | usr/bin/awk.c:729 | `{ FS = ":"; print $1 }` splits the record at hand with the new FS |
| `AwkRecord.JoinsWithNewOFS` | usr/bin/awk.c:783 | `{ $1 = "a"; OFS = "-"; print }` joins the record at hand with the new OFS |
| `AwkRecord.JoinedAlways` | usr/bin/awk.c:781-792 | while FS and OFS are the same single character other than space and backslash, every operation keeps the record the join of its fields |
| `AwkRecord.SelfAssignment` | usr/bin/awk.c:802-814 | of such a record, assigning a field to itself leaves `$0` unchanged iff the field exists or is the first of an empty record |
| `AwkArray.Arr.Get` | usr/bin/awk.c:646-653 | finds the entry of the key; creates it at the head of its bucket when asked to; the map it stands for changes accordingly |
| `AwkArray.Arr.Store` | usr/bin/awk.c:646-653 | the map with this key set, every key in its own bucket and only once |
| `AwkArray.Arr.Delete` | usr/bin/awk.c:654-659 | the map without the key, whether it was first, inside or absent in its chain |
| `AwkArray.Arr.Clear` | usr/bin/awk.c:660-663 | the empty map |
| `AwkArray.Arr.Keys` | usr/bin/awk.c:1277-1278 | every key of the map once |
| `AwkArray.ForIn` | usr/bin/awk.c:1273-1284 | runs over the keys present at loop entry, each once; a key is visited iff no flag the body left at an earlier key, in the state it had there, ended the loop |
| `AwkArray.LoopVisits` | usr/bin/awk.c:1279-1283 | which keys are visited, the state after the loop, and that of the last flag all but `break` and `continue` is left |
| `ArcCrc.CrcInit` | usr/bin/arc.c:42-52 | entry i of the table is i after eight steps of the reflected 0xEDB88320 register |
| `ArcCrc.Crc32Of` | usr/bin/arc.c:54-61 | the table-driven checksum equals the bit-at-a-time definition of section 8 of RFC 1952 for every byte string |
| `ArcCrc.ShiftsLinear` | usr/bin/arc.c:46-48 | the register step is linear over exclusive or |
| `ArcCrc.LookUp` | usr/bin/arc.c:58 | one table look-up is eight bit steps |
| `ArcCrc.BurstIsNoticed` | usr/bin/arc.c:54-61 | two strings that differ only inside a window of at most four bytes have different checksums |
| `ArcFormats.KnownChecksum` | usr/bin/arc.c:42-61 | the checksum of the one byte 97 is E8B7BE43 |
| `Tar.TarOctal` | usr/bin/arc.c:223-230 | writes the low octal digits of the value and a zero byte, and nothing outside the field |
| `Tar.BuildHeader` | usr/bin/arc.c:246-262 | the 512 bytes written field by field over any contents are the ustar header of the entry |
| `Tar.ChecksumIsRight` | usr/bin/arc.c:258-262 | the stored checksum is the sum of the header bytes with its field read as spaces, and always fits six octal digits |
| `Tar.HeaderSlices` | usr/bin/arc.c:246-262 | every field stands where the ustar format has it, and a cut name still ends in a zero byte |
| `Tar.RoundIsExact` | usr/bin/arc.c:235 | rounding with the 32-bit mask gives the next multiple of 512 iff the size plus 511 fits in 32 bits |
| `Tar.BuildTar` | usr/bin/arc.c:232-274 | every write and the end of the archive lie inside the buffer iff for every file read the offset so far plus 512 plus its length is within it, and the last offset plus 1024 too; then the bytes written are the archive |
| `Tar.NotGrownFits` | usr/bin/arc.c:234-236 | that is so when no file grew after its size was taken |
| `Tar.OneFileMayGrow` | usr/bin/arc.c:232-274 | for a single file: iff its rounded length is at most 7168 above the rounded length taken before |
| `Tar.GrownFileOverruns` | usr/bin/arc.c:232-274 | an empty file that has grown to 7169 bytes runs over the buffer |
| `Tar.ReadOctal` | usr/bin/arc.c:428-434 | the number written by the leading octal digits of a field |
| `Tar.ReadTar` | usr/bin/arc.c:415-453 | hands on the files and directories of the archive, in order |
| `Tar.TarRoundTrip` | usr/bin/arc.c:232-453 | `read_tar` of `build_tar` gives the same names, modes and data in order iff every packed name has 1 to 99 bytes |
| `ArcForeign.ReadsForeignTar` | usr/bin/arc.c:415-453 | a header of any writer, with its octal numbers as sums over powers of eight: kind 0 or zero is a file with the bytes behind it, or the end if they are missing; kind 5 is a directory; other kinds are passed over; reading goes on at the next multiple of 512 |
| `Zip.Put32` | usr/bin/arc.c:97-100 | appends the four bytes of the low word, lowest first |
| `Zip.Get32Back` | usr/bin/arc.c:102-106 | reading four bytes gives the number written, modulo 2^32 |
| `Zip.WriteLocals` | usr/bin/arc.c:142-182 | one local record per readable file at the offset remembered in its entry, holding the data or what `raw_deflate` made of it; the entries of unreadable files stay as collected |
| `Zip.WriteDirectory` | usr/bin/arc.c:185-206 | one directory entry per collected file |
| `Zip.CreateZip` | usr/bin/arc.c:137-221 | the whole file: records, directory and end record |
| `Zip.ReadZip` | usr/bin/arc.c:369-413 | hands on the records that can be read, in order, inflating what is packed |
| `Zip.ZipRoundTrip` | usr/bin/arc.c:137-413 | reading a created zip gives exactly the readable files below 4 GiB, names and contents in order |
| `Zip.StartsLikeZip` | usr/bin/arc.c:142-218 | the file starts with a local record iff some file could be read |
| `Zip.DirectoryIsRight` | usr/bin/arc.c:185-206 | a directory entry points at a local record with the same method, checksum, sizes and name iff its file could be read |
| `Zip.CentralSlices` | usr/bin/arc.c:188-204 | a directory entry has its signature, the fields shared with the record, the permission bits and the offset in their places |
| `Zip.EndIsRight` | usr/bin/arc.c:207-216 | the end record has the number of entries and the exact size and start of the directory |
| `ArcFormats.LocalHeaderBytes` | usr/bin/arc.c:165-175 | the bytes of a local header: signature, version, method, checksum, both sizes and both lengths, each low byte first at its place |
| `ArcFormats.CentralHeaderBytes` | usr/bin/arc.c:188-204 | the bytes of a directory entry |
| `ArcFormats.EndRecordBytes` | usr/bin/arc.c:209-216 | the bytes of the end record |
| `ArcForeign.ReadsForeignZip` | usr/bin/arc.c:369-413 | a record of any writer, with an extra field of any length: stored or packed data is handed on under the first 511 bytes of the name, directories and other methods are not, and reading goes on behind the data |
| `BitIo.BitOut.PutBits` | usr/lib/libcervus/compress/deflate.c:34-44 | appends the low bits of the value, lowest first, to all bits put in before |
| `BitIo.BitOut.PutHuff` | usr/lib/libcervus/compress/deflate.c:56-60 | appends a code, highest bit first |
| `BitIo.BitOut.Flush` | usr/lib/libcervus/compress/deflate.c:46-54 | fills the last byte with at most seven zero bits |
| `BitIo.BitIn.Fill` | usr/lib/libcervus/compress/inflate.c:28-33 | moves bytes into the 64-bit buffer without changing the bits still to read |
| `BitIo.BitIn.GetBits` | usr/lib/libcervus/compress/inflate.c:35-45 | the value of the next bits, or an error that reads nothing when there are too few |
| `BitIo.BitIn.Align` | usr/lib/libcervus/compress/inflate.c:231-236 | drops the rest of the current byte and gives whole buffered bytes back |
| `Huffman.DecodeFinds` | usr/lib/libcervus/compress/inflate.c:98-112 | for every table of lengths that fits: bits that start with the canonical code of a symbol decode to that symbol |
| `Huffman.DecodeMeans` | usr/lib/libcervus/compress/inflate.c:98-112 | a symbol that is decoded has its code in front of the bits |
| `Huffman.NoShorterCode` | usr/lib/libcervus/compress/inflate.c:98-112 | no code is the beginning of another |
| `HuffTable.CountLengths` | usr/lib/libcervus/compress/inflate.c:71-73 | how many symbols have each code length |
| `HuffTable.SortSymbols` | usr/lib/libcervus/compress/inflate.c:74-77 | every symbol with a code stands at its place among the symbols sorted by code |
| `HuffTable.FillFast` | usr/lib/libcervus/compress/inflate.c:79-94 | for all lengths, every entry of the ten-bit table is the last symbol in order whose code, cut to its length, starts the window |
| `HuffTable.Huff.DecodeSlow` | usr/lib/libcervus/compress/inflate.c:98-112 | for all lengths, decodes bit by bit what the code definition says |
| `HuffTable.Huff.DecodeSymbol` | usr/lib/libcervus/compress/inflate.c:114-126 | for all lengths, gives the symbol and consumes the bits that the table, or where it has no entry the bit-by-bit decoder, prescribes |
| `Huffman.LookupIsDecode` | usr/lib/libcervus/compress/inflate.c:114-126 | on lengths that fit, the table and the bit-by-bit decoder agree |
| `Huffman.LookupCanDiffer` | usr/lib/libcervus/compress/inflate.c:86-94 | on lengths that do not fit they can differ |
| `Dynamic.GetHeader` | usr/lib/libcervus/compress/inflate.c:187-223 | reads the counts, the code for code lengths and both rows of lengths as the bit-level definition does, and fails exactly when it does |
| `Dynamic.GetLengths` | usr/lib/libcervus/compress/inflate.c:202-220 | the row of code lengths, with repeats cut at the total |
| `Stream.LengthsRead` | usr/lib/libcervus/compress/inflate.c:205-220 | however a row of lengths was put down, in single lengths, repeats and gaps, it is read back |
| `Stream.HeaderReads` | usr/lib/libcervus/compress/inflate.c:187-223 | the header of a block with its own codes gives both codes back |
| `Stream.PieceReads` | usr/lib/libcervus/compress/inflate.c:138-247 | a stored block, one with the fixed codes or one with any codes of its own is read as what it stands for |
| `Stream.StreamInflates` | usr/lib/libcervus/compress/inflate.c:249-275 | every stream of the format of RFC 1951 put together from such blocks inflates to what they stand for |
| `FixedCode.LiteralsFit` | usr/lib/libcervus/compress/inflate.c:172-178 | the fixed literal code has no more codes than room at any length |
| `FixedCode.LiteralCode` | usr/lib/libcervus/compress/deflate.c:62-66 | the codes the writer computes are the canonical codes of the fixed lengths |
| `FixedCode.DistanceCode` | usr/lib/libcervus/compress/deflate.c:92-95 | so are the distance codes |
| `ArcFormats.LengthTable` | usr/lib/libcervus/compress/deflate.c:68-73 | the lengths from 3 to 258 are cut into ranges without gap or overlap, with one more extra bit every four ranges, 258 by itself |
| `ArcFormats.DistanceTable` | usr/lib/libcervus/compress/deflate.c:74-80 | so are the distances from 1 to 32768, with one more extra bit every two ranges |
| `ArcFormats.KnownStream` | usr/lib/libcervus/compress/inflate.c:249-268 | the three bytes 4b 04 00 inflate to the one byte 97 |
| `LzProof.BlockDecodes` | usr/lib/libcervus/compress/inflate.c:138-166 | for any two codes that fit and have the symbols needed: reading the bits of any tokens and the end symbol gives what the tokens stand for and stops right behind |
| `LzProof.MatchDecodes` | usr/lib/libcervus/compress/deflate.c:82-96 | a length and distance with their extra bits are read back exactly |
| `Deflate.EmitMatch` | usr/lib/libcervus/compress/deflate.c:82-96 | writes the bits of the match token |
| `Deflate.EmitLiteral` | usr/lib/libcervus/compress/deflate.c:62-66 | writes the bits of the literal token |
| `Deflate.MatchLength` | usr/lib/libcervus/compress/deflate.c:157-160 | the longest repetition at a candidate, up to 258 bytes |
| `Deflate.FindMatch` | usr/lib/libcervus/compress/deflate.c:151-167 | whatever the hash chains hold, positions cut to 32 bits included, the match found is a real repetition within the window, and no chain entry is read that was not written |
| `Deflate.CopyIsInput` | usr/lib/libcervus/compress/inflate.c:156-163 | copying back over a repetition, even into itself, goes on with the input |
| `DeflateRun.Compress` | usr/lib/libcervus/compress/deflate.c:138-191 | one fixed-code block whose tokens stand for the input, and padding |
| `DeflateRun.RawStored` | usr/lib/libcervus/compress/deflate.c:104-129 | the stored form: blocks of at most 65535 bytes, the last one marked |
| `DeflateRun.StoredInflates` | usr/lib/libcervus/compress/deflate.c:104-129 | inflating the stored form gives the input |
| `DeflateRun.StoredFits` | usr/lib/libcervus/compress/deflate.c:106-108 | the stored form fits the buffer set aside for it |
| `DeflateRun.InflateInverts` | usr/lib/libcervus/compress/inflate.c:249-268 | inflating anything `raw_deflate` may write gives the input, whatever bytes follow |
| `DeflateRun.RawDeflate` | usr/lib/libcervus/compress/deflate.c:131-213 | for every input, what it returns inflates to the input |
| `Inflate.CopyMatch` | usr/lib/libcervus/compress/inflate.c:156-163 | the straight copy and the byte-by-byte copy are the same |
| `Inflate.InflateBlock` | usr/lib/libcervus/compress/inflate.c:138-166 | decodes a block as the bit-level definition does, and fails exactly when it does |
| `Inflate.StoredBlock` | usr/lib/libcervus/compress/inflate.c:230-247 | reads a stored block as the bit-level definition does |
| `Inflate.InflateRun` | usr/lib/libcervus/compress/inflate.c:249-275 | gives the output the bit-level definition gives for the stream, and fails exactly when it does |
| `Gzip.GunzipFile` | usr/lib/libcervus/compress/inflate.c:299-330 | finds the packed data where the header function says, which `Gzip.GunzipWithOptions` describes, and inflates it |
| `Gzip.GunzipWithOptions` | usr/lib/libcervus/compress/inflate.c:299-330 | for every header with any of an extra field, a name, a comment and a checksum, its flag bits 4, 8, 16 and 2 saying which are there: `gunzip` gives the data whose packed form stands behind them, whatever the other header bytes and the trailer are |
| `Gzip.GzRoundTrip` | usr/bin/arc.c:309-335 | `gunzip` of a .gz that arc made gives the packed data back |
| `Gzip.GzTrailer` | usr/bin/arc.c:328-329 | the file ends in the checksum and the length of the data, each modulo 2^32 |
| `ArcFiles.UnpackArchive` | usr/bin/arc.c:455-497 | which reader the bytes go to: gunzip first if they start like a gzip file, then zip, tar, a single file, or none |
| `ArcFiles.GzUnpacks` | usr/bin/arc.c:309-497 | a .gz that arc made unpacks to the one file iff its data neither starts with the signature of a zip nor has "ustar" at 257 |
| `ArcFiles.GzNameBack` | usr/bin/arc.c:482-486 | the file from NAME.gz, in small or capital letters, is called NAME, unless NAME is empty |
| `ArcFiles.ZipUnpacks` | usr/bin/arc.c:137-497 | a .zip that arc made unpacks to its readable files, names and contents in order, iff there is one |
| `ArcFiles.TarUnpacks` | usr/bin/arc.c:232-497 | a .tar that arc made unpacks to its files iff there is one, every name has 1 to 99 bytes, and the first name starts neither with 1f 8b nor with PK 3 4 |
| `ArcFiles.TarGzUnpacks` | usr/bin/arc.c:232-497 | a .tar.gz that arc made unpacks to its files iff there is one, every name has 1 to 99 bytes, and the first name does not start with PK 3 4 |
| `ArcFiles.GzOfZipGivesMembers` | usr/bin/arc.c:309-497 | a .gz of a .zip that arc made gives the members of the .zip and not the .zip |
| `ArcFiles.EmptyTar` | usr/bin/arc.c:232-497 | a .tar.gz into which no file could be read gives one file of 1024 zero bytes, the .tar nothing |
| `ArcFiles.TarReadAsZip` | usr/bin/arc.c:478-479 | a file named PK 3 4, alone in a .tar, sends it to the zip reader |
| `Find.Finder.Eval` | usr/bin/find.c:644-651 | evaluates an expression as the evaluation function does, with the short cuts of the source and nothing after a -quit; `FindMeaning.EvaluateMeans` says what that gives |
| `FindMeaning.EvaluateMeans` | usr/bin/find.c:644-651 | when answers depend only on the primary and the entry: the value is that of the tree, and what is evaluated are the primaries that short cuts leave, in order, up to a -quit |
| `FindMeaning.VerdictIsTruth` | usr/bin/find.c:644-651 | where no -quit is come to, that value is the boolean value of the expression: and, or, not and comma of the values of its primaries |
| `Find.Finder.VisitEntry` | usr/bin/find.c:755-802 | the walk of one entry: range, pruning, descending, printing |
| `Find.Finder.Run` | usr/bin/find.c:836-841 | the walk of all starting points |
| `FindQuit.QuitCutsTheWalk` | usr/bin/find.c:644-802 | the primaries a run evaluates are those of the walk on which -quit has no effect, up to and with its first -quit; without a -quit the two are the same run |
| `FindOrder.WalkIsListing` | usr/bin/find.c:755-802 | the entries evaluated are the listing of the tree without what was pruned |
| `FindOrder.WholeListed` | usr/bin/find.c:755-802 | an entry is in the listing iff its depth is in range and every directory on the way to it is found, opens, is deep and local enough to enter and is not pruned |
| `FindOrder.WholeOrdered` | usr/bin/find.c:755-802 | the listing is in preorder, in postorder with -depth |
| `FindOrder.EvaluatedOnceInOrder` | usr/bin/find.c:755-802 | every run evaluates entries in that order, none twice, only entries that are reached, and all of them unless -quit was evaluated |
| `FindOrder.NothingBelowPruned` | usr/bin/find.c:768-774 | no run evaluates an entry below a directory it pruned |
| `FindShow.PrintsSelected` | usr/bin/find.c:768-802 | without an action, every run prints exactly the paths of the entries the expression is true of, in the order of evaluation, each path being the names on the way with one slash between them; with an action it prints none itself; when answers depend only on the primary and the entry, true means the boolean value of the expression |
| `FindExact.FindsExactly` | usr/bin/find.c:755-802 | when answers depend only on the primary and the entry and there is no -quit: an entry is evaluated iff it is in the depth range and every directory on the way to it can be entered and is one that the expression, by its boolean value, does not prune |
| `FindExact.ReachedMeans` | usr/bin/find.c:755-802 | an entry is reached iff it is found, is not above the least depth, and every directory on the way is found, opens, is above the greatest depth and, with -xdev, on the device of its starting point |
| `FindExact.PathIsNames` | usr/bin/find.c:780-791 | the path of an entry is the names on the way from its starting point with one slash between them |
| `FindOrder.BeforeMeans` | usr/bin/find.c:755-802 | the order of two entries: a directory before what is in it, behind it with -depth, and else as their directories list them |
| `NeoPaint.PaintGeneric` | usr/apps/neo.c:547-622 | the class array after the loop, and what stays open, are those of the scanning function, which the laws of `NeoLaws` describe |
| `NeoPaint.PaintHtml` | usr/apps/neo.c:624-673 | the same for the html highlighter and the laws of `NeoHtmlLaws` |
| `NeoPaint.CommentRunsToClose` | usr/apps/neo.c:564-571 | inside a block comment everything up to and with the first closing delimiter is comment, and the rest is coloured like a row of its own |
| `NeoPaint.CommentStaysOpen` | usr/apps/neo.c:564-571 | without a closing delimiter the whole row is comment and the comment stays open |
| `NeoLaws.QuotedText` | usr/apps/neo.c:577-586 | from plain state, a quoted text runs from its quote to the first later quote that is not behind a backslash; backslash pairs are escapes, the rest is string, and the row goes on from plain state |
| `NeoLaws.UnclosedText` | usr/apps/neo.c:577-586 | without such a quote the text takes the rest of the row |
| `NeoLaws.QuotedOrNot` | usr/apps/neo.c:577-586 | every row behind a quote is of one of these two forms |
| `NeoLaws.LineComment` | usr/apps/neo.c:559-563 | from plain state, the delimiter of a line comment makes the rest of the row comment |
| `NeoLaws.ClosedComment` | usr/apps/neo.c:564-576 | from plain state, a block comment runs to the first closing delimiter behind its opening one, and the row goes on from plain state |
| `NeoLaws.OpenComment` | usr/apps/neo.c:564-576 | without one it takes the rest of the row and stays open |
| `NeoLaws.NumberPainted` | usr/apps/neo.c:587-597 | a digit behind a separator starts a number, which goes on through digits, point, x, a to f, u and l |
| `NeoLaws.WordPainted` | usr/apps/neo.c:599-616 | the first word, by group and place, that stands at the position is painted in its group: symbols anywhere, others behind a separator and before one or the end |
| `NeoLaws.OtherPainted` | usr/apps/neo.c:618-619 | any other character stays plain, and a word may follow iff it is a separator |
| `NeoLaws.KeywordsStandAlone` | usr/apps/neo.c:547-622 | in any row, a character has the colour of a group only inside a word of that group; if the group is not of symbols, a separator, a string, a comment or the start of the row is before it, and a separator or the end behind it |
| `NeoHtmlLaws.HtmlCommentCloses` | usr/apps/neo.c:632-638 | a comment runs to the first `-->` |
| `NeoHtmlLaws.EntityPainted` | usr/apps/neo.c:650-654 | an ampersand with a semicolon at most twelve further, and no space between, is an escape |
| `NeoHtmlLaws.TextPainted` | usr/apps/neo.c:640-655 | text that starts neither a tag nor an entity is plain |
| `NeoHtmlLaws.TagPainted` | usr/apps/neo.c:643-649 | a tag is coloured from its bracket to the end of its name |
| `NeoHtmlLaws.AttributePainted` | usr/apps/neo.c:664-669 | a letter in a tag starts an attribute of letters, digits, dashes and colons |
| `NeoHtmlLaws.ValuePainted` | usr/apps/neo.c:657-662 | a value in a tag is string from its quote to the same quote |
| `NeoHtmlLaws.InTagPainted` | usr/apps/neo.c:663-670 | the closing bracket ends the tag, and anything else in it is plain |
| `NeoRows.FreshIsPainted` | usr/apps/neo.c:675-695 | every row agrees with its predecessor iff the buffer looks like a repaint from the top |
| `NeoRows.UpdateRestores` | usr/apps/neo.c:675-695 | the repaint that stops as soon as the state does not change makes all rows right again if only the edited one was wrong |
| `NeoRows.UpdateReaches` | usr/apps/neo.c:675-695 | a repaint leaves the rows down to the one it started at right |
| `NeoStale.EditRestores` | usr/apps/neo.c:697-717 | any edit inside one row leaves all colours right |
| `NeoStale.InsertExact` | usr/apps/neo.c:738-758 | putting in a row leaves all colours right iff a condition on states known before the call holds |
| `NeoStale.DeleteExact` | usr/apps/neo.c:769-776 | taking out a row leaves all colours right iff the row below looks the same after the row above |
| `NeoStale.SplitExact` | usr/apps/neo.c:881-904 | breaking a line leaves all colours right iff a condition on the rows before the call holds: the second part can go in as a row, or the cut changes what both parts and, below an open one, all rows but the last leave open |
| `NeoStale.MergeExact` | usr/apps/neo.c:929-934 | joining two lines leaves all colours right iff the row below looks the same after the joined row as after its second half |
| `NeoWitness.SplitCanFail` | usr/apps/neo.c:881-904 | breaking "/*/" after its first byte leaves the next row coloured as a comment that is not open any more |
| `NeoWitness.MergeCanFail` | usr/apps/neo.c:929-934 | joining "/" and "*/" opens a comment that the next row does not know about |
| `NeoEditor.Render` | usr/apps/neo.c:697-714 | tabs become text up to the next multiple of the tab stop |
| `NeoRows.ExpandTab` | usr/apps/neo.c:704-708 | a tab is shown as blanks, or an angle and dots, up to the next column that is a multiple of the tab stop |
| `NeoRows.ExpandAppend` | usr/apps/neo.c:703-712 | a row is shown part by part, each from the column where the one before it ends |
| `NeoEditor.Editor.UpdateSyntax` | usr/apps/neo.c:675-695 | the recursion repaints rows as long as what they leave open changes |
| `NeoEditor.Editor.RowInsertAt` | usr/apps/neo.c:738-758 | where the row goes, and exactly when all colours stay right |
| `NeoEditor.Editor.RowDeleteAt` | usr/apps/neo.c:769-776 | which row goes, and exactly when all colours stay right |
| `NeoEditor.Editor.InsertChar` | usr/apps/neo.c:837-842 | the typed character is in the line at the cursor, and all colours stay right |
| `NeoEditor.Editor.InsertNewline` | usr/apps/neo.c:871-905 | the line is broken with its indentation; colours stay right at column 0, elsewhere iff the split is safe |
| `NeoEditor.Editor.DeleteChar` | usr/apps/neo.c:907-935 | backspace: a character of one or more bytes, a pair, or the line end; colours stay right unless an unsafe join |
| `NeoEditor.Editor.DeleteCharForward` | usr/apps/neo.c:937-950 | the same for the delete key |
| `NeoEditor.Editor.Load` | usr/apps/neo.c:1073-1088 | opening a file appends its lines and leaves all colours right |
| `NeoEditor.Editor.SwitchLanguage` | usr/apps/neo.c:1650-1652 | after a language switch all colours are right, whatever they were before |
| `NeoText.TypeRefines` | usr/apps/neo.c:837-842 | typing inserts one character into the saved text at the cursor offset, and moves the cursor one on |
| `NeoText.BreakRefines` | usr/apps/neo.c:871-905 | a line break inserts a line feed and the indentation at the cursor offset |
| `NeoText.BackspaceRefines` | usr/apps/neo.c:907-935 | backspace deletes the bytes of the saved text just before the cursor offset, both of a pair, or the line feed |
| `NeoText.DeleteRefines` | usr/apps/neo.c:937-950 | the delete key deletes the character or line feed at the cursor offset and leaves the cursor |
| `NeoText.BackspaceTakes` | usr/apps/neo.c:912-928 | in a line backspace takes out an empty pair of brackets or quotes if pairs are on, or else the bytes of one UTF-8 character |
| `NeoText.DeleteTakes` | usr/apps/neo.c:941-944 | in a line the delete key takes out the byte at the cursor and the continuation bytes behind it |
| `NeoText.BreakPuts` | usr/apps/neo.c:881-904 | a break puts in a line feed and, with automatic indentation, the leading spaces and tabs that are before the cursor |
| `NeoText.OpensLine` | usr/apps/neo.c:1074-1087 | a line of a file ends at a line feed, a carriage return, the two in this order, or the end |
| `NeoText.ChunksMean` | usr/apps/neo.c:1079-1084 | a line is cut into pieces of 4096 bytes, the last one shorter |
| `NeoText.BreakThenBackspace` | usr/apps/neo.c:871-935 | a line break and a backspace restore text and cursor iff the cursor was on an existing line and no indentation was added |
| `NeoText.OpenThenSave` | usr/apps/neo.c:1007-1022 | saving an opened file gives the same bytes iff every line is at most 4096 bytes and ends in a line feed |

## Left out

- csh: the text of conditions, headers and commands is an abstract host; variable expansion, pipes, jobs, command substitution, prompt, history and rc files are not modelled.
- csh: the kind of a line is that of its first word as written, not one that a variable expands to; `g_else_of`, which is computed and never read, is not modelled.
- CshMachine.Interpreter.RunScript: takes a budget of steps, because a script may run for ever; when some budget suffices is the subject of `CshTheorem`.
- csh expressions: the 64-bit operators are abstract functions of two numbers, so overflow and shift counts are whatever the machine does; division and remainder by zero are modelled.
- neo: drawing, keys, menus, file tree, completion, search, undo and clipboard; the loading of .syn files.
- NeoEditor.Editor.Load: the check that refuses files with zero bytes, and the file reads, are not modelled.
- arc: file system calls; `collect` (the list of files is given) and the writing of extracted files; a zip name that runs over the end of the file is taken as the end of the archive, as the check after it does.
- deflate: running out of memory; the zlib wrappers around the two and their Adler checksum.
- Zip.ZipRoundTrip: files of 4 GiB or more, whose sizes do not fit the fields.
- Tar.BuildTar: what the buffer holds when a length plus 511 does not fit in 32 bits and members overlap.
- gzip: the progress callback and the preallocation from the length field; `gunzip` checks no checksum, and neither does the model.
- find: parsing of the command line; the tests themselves and -exec, -delete and -printf, whose answers come from a function of all that was evaluated before; the tree does not change during a walk.
- awk: parser, numbers as floating point (NF and field numbers are integers of any size), printf, getline; the regular expressions given as FS are a parameter.
- awk for-in: the body is a function of its own state; as the loop goes over a snapshot, what it does to the array makes no difference to the keys visited.
- grep: which lines are selected is a parameter; binary files, directories, counts, -o and file names.
- diff: reading files and the text of the output beyond its numbers and lines.
- fdisk: reading and writing labels on disk; type names are functions; printing.
- brew: everything but the version order.
- Memory exhaustion, and C buffers that only truncate lines and paths, except the bounds named above.
- The kernel, the other utilities and libraries: they would add only easy members or have no rules of their own to state.
