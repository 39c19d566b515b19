# Models of the Go tree: branch layout, literal pools, pipes, buffers and in-place text algorithms

This project models nine self-contained algorithms of the Go source tree and proves what they are
for. Each file is one component:

| file | component |
|---|---|
| `wrappers.dfy` | the option type, bytes, little-endian and two's complement truncation |
| `relax.dfy` | branch relaxation in the 386 assembler (`span8` and the branch cases of `doasm`) |
| `literalpool.dfy` | literal-pool placement and constant loads in the ARM assembler (`span5` and its helpers) |
| `pipe.dfy` | the synchronous in-memory pipe, with any number of goroutines |
| `stream.dfy` | what a reader reads from: a script of short reads and errors, and the stream it stands for |
| `reader.dfy`, `writer.dfy`, `scanner.dfy` | `bufio.Reader`, `bufio.Writer`, and `bufio.Scanner` with `ScanLines` |
| `html.dfy` | HTML escaping and in-place unescaping |
| `cleanname.dfy` | in-place lexical path cleaning |
| `solitaire.dfy` | the backtracking peg solitaire solver |
| `sieve.dfy`, `linkcheck.dfy` | two goroutine networks: the prime sieve and the link checker |
| `byteslices.dfy` | counting, searching, splitting, joining, replacing and repeating byte slices |

Code that changes state step by step is modelled by classes and methods over arrays and fields: the
assemblers rewrite per-instruction fields and a code buffer, the buffers slide and grow, the text
algorithms use two cursors in one array, the solver makes and undoes moves on one shared board. Each
such method is proved against a specification that does not mention how it works (the least valid
layout, a finished instruction list, the byte stream, the stack-normalised path, the existence of a
winning play), and the specification has its own theorems. The pipe, the sieve and the link checker
are step systems whose interleavings are unrestricted; what is between taking and releasing a mutex,
or one rendezvous, is one step, and the theorems are about every reachable state of every run. The methods
`Do`, `Run`, `ReadAll`, `ScanAll`, `SkipPastError`, `SolveFramed` and `SpanCascade` stand for callers of the
modelled code. What the specifications' own functions mean (opcode bytes, UTF-8, line ends, path rules,
grid moves, greedy cuts) is fixed by laws that do not mention those functions.

## What was found on the way

- `Reader.Discard` with nothing buffered and an error pending reads on past the error, so that it can
  skip bytes that come after it (`src/bufio/bufio.go:160-176`). That is the only case in which the order
  of bytes and errors can be lost. `DiscardKeepsOrder` says for which sources it is kept: those that have
  nothing but empty answers for the fill, with the error pending that the fill then makes up.
  `SkipPastError` gets a reader there and skips a byte.
- `Reader.Read` into an empty slice returns a pending error ahead of bytes that are still buffered
  (`src/bufio/bufio.go:186-189`); `EmptyReadReorders` gives the exact condition.
- A `Scanner` fails on a line of `maxTokenSize` bytes or more when more text follows. A final line of
  exactly `maxTokenSize` bytes without a newline is handed out if, and only if, the error that ends the
  input arrives together with its last byte. `ArrivalMatters` says for which texts that makes a
  difference, and `TwoArrivals` gives two sources of one text that differ in it.
- `unescapeEntity` leaves a decimal reference with one digit and no semicolon alone, although the
  comment beside the test says that no characters matched (`src/html/escape.go:111-114`); and it takes
  `&#x;`, without a digit, for the replacement character. `NumericDecoded` gives the exact condition.
- The slack that `checkpool` leaves is enough for every size in the instruction table, the 20-byte form
  of `BX` included: the test counts the pending pool, which needs no room of its own, because a word's
  first user is at least as far behind the pool's first user as the word is behind the first word.
- `span8` needs up to two passes more than it has forward branches, one of which only finds that
  sizes started at zero. The bound is met for every number of branches (`BoundIsTight`), so that a
  function with 19 forward branches can hit the limit of 20 passes although it has a valid layout, while
  one with up to 18 never does (`SpanCascade`).

## Model

| member | source | states |
|---|---|---|
| `Relax.LayoutIsLeast` | src/liblink/asm8.c:1270-1350 | no pass puts any instruction later than any layout in which every short branch reaches its target does |
| `Relax.SettledIsValid` | src/liblink/asm8.c:1312-1344 | the layout the loop stops at is itself valid, forward and backward, hence the least valid one |
| `Relax.SizesNeverShrink` | src/liblink/asm8.c:1334-1344 | no instruction gets smaller from one pass to the next |
| `Relax.SettlesWithinBound` | src/liblink/asm8.c:1270-1350 | with F forward local branches some pass among the first F + 2 changes nothing |
| `Relax.CascadeBits` | src/liblink/asm8.c:1313-1319 | in a cascade of F branches exactly one more branch turns long in each pass |
| `Relax.BoundIsTight` | src/liblink/asm8.c:1270-1350 | for every F there is a program with F forward branches that settles in pass F + 2 and no earlier |
| `Relax.LayoutAt` | src/liblink/asm8.c:2475-2517 | the form a pass gives each instruction: a forward branch by its bit, a backward one by its distance in the pass's own final layout |
| `Relax.DisplacementsDecode` | src/liblink/asm8.c:2475-2517 | in the settled layout the bytes of every branch decode to target pc minus next pc |
| `Relax.PatchStep` | src/liblink/asm8.c:1313-1331 | patching one waiting branch completes its slot, disturbs no other slot, and clears its short bit exactly if it is out of reach |
| `Relax.FinalBytes` | src/liblink/asm8.c:1312-1344 | what the code buffer holds for each instruction after the loop: the opaque bytes, or a displacement that decodes to the target |
| `Relax.FinalPlace` | src/liblink/asm8.c:1270-1350 | every recorded pc is minimal over all valid layouts, and 2-byte branches are in range |
| `Relax.Assembler.constructor` | src/liblink/asm8.c:1213-1225 | the function's Progs before the first pass |
| `Relax.Assembler.MarkBackward` | src/liblink/asm8.c:1249-1252 | every branch starts short, and exactly the branches to an instruction not after them are marked backward |
| `Relax.Assembler.PatchJump` | src/liblink/asm8.c:1314-1330 | the bytes stored for one forward jump and the change of its short bit |
| `Relax.Assembler.Assemble` | src/liblink/asm8.c:2468-2517 | the bytes of one instruction: for a branch its short opcode and one displacement byte, or 0x0f if conditional, its long opcode and four, holding the distance to a backward target and else zero; a forward branch joins the comefrom list of its target |
| `Relax.Assembler.PatchTarget` | src/liblink/asm8.c:1310-1332 | reaching an instruction resolves all branches that wait for it and no other |
| `Relax.Assembler.Emit` | src/liblink/asm8.c:1334-1344 | assembling an instruction extends the buffer by its bytes in the pass's layout and records its size |
| `Relax.Assembler.Step` | src/liblink/asm8.c:1310-1344 | one turn of the for loop keeps the pass invariant and reports whether anything changed |
| `Relax.Assembler.Pass` | src/liblink/asm8.c:1271-1345 | one pass lays the function out as the bits it started with say, flips exactly the branches out of reach, and asks for another pass exactly if a size or a bit changed |
| `Relax.Assembler.Span` | src/liblink/asm8.c:1213-1355 | stops at the first settled pass, or fails in the twenty-first, never with at most 18 forward branches; then the instructions lie one behind the other, each at the least pc of all valid layouts and with its own bytes, and every branch is its short opcode and one byte, its long opcode and four, or 0x0f, its long opcode and four, and decodes to its target, short ones within [-128,127]; the size is padded to 16 |
| `Relax.SpanCascade` | src/liblink/asm8.c:1346-1350 | span8 lays that program out exactly if it has at most 18 forward branches, although it always has a valid layout |
| `Relax.EncodedDisp` | src/liblink/asm8.c:2477-2494 | the short and long branch bytes decode to the displacement they were made from |
| `Relax.EncodedBranch` | src/liblink/asm8.c:2477-2512 | opcode and displacement bytes of every form of a branch, each written out |
| `Bits.LittleEndianRoundTrip` | src/liblink/asm8.c:1325-1329 | four truncated byte stores, low byte first, read back as the signed 32-bit value |
| `Bits.LittleEndianValue` | src/liblink/asm8.c:1325-1329 | the four bytes, weighted by their places, are the value modulo 2 to the 32 |
| `Bits.ByteRoundTrip` | src/liblink/asm8.c:1323 | a truncated byte store reads back as the value if that is within [-128,127] |
| `LiteralPool.Assembler.constructor` | src/liblink/asm5.c:621-640 | the instructions before layout, with no pool pending |
| `LiteralPool.Assembler.FlushPool` | src/liblink/asm5.c:839-881 | the whole pending pool, behind a branch to the next instruction if asked for, is inserted and the pool record is cleared; without a branch exactly when 2048 bytes are threatened |
| `LiteralPool.Assembler.CheckPool` | src/liblink/asm5.c:829-837 | drops the pool with a branch around it exactly if it is full, the offset does not fit or the function ends; else everything is unchanged and the stated slack is left |
| `LiteralPool.Assembler.AddPool` | src/liblink/asm5.c:883-957 | the user is tied to a pending word with its constant, a new one exactly if there was none; the pool starts at its first user |
| `LiteralPool.Assembler.Visit` | src/liblink/asm5.c:675-692 | the rest of an iteration keeps the invariant, whatever the operand and the end of a basic block do |
| `LiteralPool.Assembler.EndBlock` | src/liblink/asm5.c:686-692 | a pool dropped without a branch follows an instruction that never falls through |
| `LiteralPool.Assembler.LayOut` | src/liblink/asm5.c:652-693 | either a pool is dropped before the instruction or the instruction is laid out at the sum of the sizes before it |
| `LiteralPool.Assembler.DropPool` | src/liblink/asm5.c:643-651 | at the end of the function the pending pool is always dropped |
| `LiteralPool.Assembler.Span` | src/liblink/asm5.c:642-695 | the finished list: the original program, no way into a pool word, pcs that are sums of sizes, and for every user its own constant within 12-bit reach |
| `LiteralPool.UserSlack` | src/liblink/asm5.c:829-837 | the test made with the previous pc and the next size keeps the next word in reach, for every size in the table |
| `LiteralPool.InsertedNowServes` | src/liblink/asm5.c:839-881 | a waiting user gets its own word in reach when the pool is dropped |
| `LiteralPool.InsertedServes` | src/liblink/asm5.c:839-881 | dropping the pool serves every user so far, old and new |
| `LiteralPool.InsertedProgram` | src/liblink/asm5.c:845-865 | an inserted pool changes neither the order nor the number of the instructions, and its branch goes to the next one |
| `LiteralPool.InsertedGuard` | src/liblink/asm5.c:845-865 | control cannot run into the words of an inserted pool, and word ids stay unique |
| `LiteralPool.ProgramPreserved` | src/liblink/asm5.c:642-695 | deleting pool words and skip branches gives back the original sequence, and control flows from each instruction to its original successor |
| `LiteralPool.OriginalInOrder` | src/liblink/asm5.c:642-695 | each original instruction is in the finished list exactly once and unchanged, behind those that came before it and before those that came after |
| `LiteralPool.PoolLoadYields` | src/liblink/asm5.c:2618-2639 | every pool load of a finished list can be encoded, refers to exactly one word, and executing it yields the user's constant and leaves the flags alone |
| `LiteralPool.ImmRot` | src/liblink/asm5.c:968-979 | a rotated-byte immediate that expands to v, or 0 exactly if none of the 4096 does |
| `LiteralPool.ImmAddr` | src/liblink/asm5.c:981-992 | 0 exactly if the offset does not fit 12 bits |
| `LiteralPool.Classify` | src/liblink/asm5.c:1124-1135 | the class of a plain constant: an immediate, the complement of one, or neither |
| `LiteralPool.AssembleMovw` | src/liblink/asm5.c:1522-1658 | the word for MOVW of a constant is, bit for bit, MOV of an immediate that expands to it, MVN of one that expands to its complement, or a load of its pool word; executing it puts the constant in the register and leaves the flags alone |
| `LiteralPool.DataProcessingExecutes` | src/liblink/asm5.c:1522-1535 | decoding the MOV or MVN word gives the condition, the register and the expanded value, with the bit for setting the flags clear and no first operand |
| `LiteralPool.LoadExecutes` | src/liblink/asm5.c:2480-2507 | decoding the load word of olr gives the memory word at pc + 8 + offset, for either sign |
| `LiteralPool.RotateBack` | src/liblink/asm5.c:973-978 | the rotation loop of immrot is the inverse of the processor's rotation |
| `LiteralPool.RotationDivides` | src/liblink/asm5.c:973-978 | rotating right by 2i bits divides by 4 to the i modulo 2 to the 32 minus 1, which fixes what the immediates expand to |
| `Pipe.PipeFields.constructor` | src/io/pipe.go:186-193 | a new pipe: no data and nobody closed |
| `Pipe.PipeFields.Read` | src/io/pipe.go:42-61 | one round of read: outcome, new fields and signal, and exactly the front of the pending data in the front of b |
| `Pipe.PipeFields.Write` | src/io/pipe.go:77-99 | write up to its first wait or its return, as the step of the runs says; WriteRound gives its results by cases |
| `Pipe.PipeFields.ContinueWrite` | src/io/pipe.go:83-98 | one round of write's loop, as the step of the runs says; WriteRound gives its results by cases |
| `Pipe.PipeFields.RClose` | src/io/pipe.go:101-110 | the read side's error is set, and nothing else |
| `Pipe.PipeFields.WClose` | src/io/pipe.go:112-121 | the write side's error is set, and nothing else |
| `Pipe.InvAlways` | src/io/pipe.go:35-121 | every reachable state satisfies the invariant on gates, parked goroutines, data ownership and bytes delivered |
| `Pipe.NoLostWakeup` | src/io/pipe.go:42-61 | a parked reader or writer always still has cause to wait, and a reader and a writer are never both parked |
| `Pipe.Conservation` | src/io/pipe.go:54-60 | the bytes of all reads are those of the finished writes in order, each cut to its reported count, then the consumed part of the pending one; a short write reports an error; while nobody has closed either side every write is full and reports none |
| `Pipe.WritesReport` | src/io/pipe.go:77-99 | a write without an error is full; an error is one that the read side has been closed with, or ErrClosedPipe after the write side was closed; with neither closed there is none |
| `Pipe.ReadsReport` | src/io/pipe.go:35-61 | a read with an error has no bytes, and the error is ErrClosedPipe after the read side was closed or one that the write side has been closed with; no bytes and no error only for an empty buffer or after an empty write |
| `Pipe.ReadRound` | src/io/pipe.go:42-61 | in every reachable state a round of read reports ErrClosedPipe if the read side has been closed, else takes what fits of the pending data, else reports the last error the write side was closed with, else parks |
| `Pipe.WriteRound` | src/io/pipe.go:77-99 | a round of write reports ErrClosedPipe if the write side was closed before it began, the whole count if its data has been taken, what was taken and the reader's error if the read side has been closed, and else parks with its data offered |
| `Pipe.RecordsAlways` | src/io/pipe.go:35-121 | in every reachable state each result so far is accounted for by the closes so far, and the bytes of the reads are the bytes received |
| `Pipe.CloseReportedLast` | src/io/pipe.go:43-51 | no read reports the writer's close while anything written is unread |
| `Pipe.CloseReleases` | src/io/pipe.go:101-121 | closing the read side leaves nobody parked, closing the write side no reader |
| `Pipe.CanAct` | src/io/pipe.go:35-121 | any goroutine in a call that is neither parked nor behind a held gate has a step |
| `Pipe.NoDeadlock` | src/io/pipe.go:35-121 | while a read and a write are in progress one of the readers or writers can act |
| `Stream.Source.Read` | src/bufio/bufio.go:95-110 | a reader in keeping with io.Reader: short reads, empty reads, and an error with or after bytes |
| `Stream.FillItems` | src/bufio/bufio.go:95-110 | a limited number of tries takes bytes and at most one error off the front of the stream, or finds an error that is not part of it |
| `Stream.FillShrinks` | src/bufio/bufio.go:95-110 | without an error something has been taken off the source |
| `Stream.FillIdle` | src/bufio/bufio.go:95-110 | a fill delivers nothing and takes nothing off the stream exactly if its answers are all empty |
| `Stream.PromptFill` | src/bufio/bufio.go:95-110 | a source that never gives as many empty answers in a row as there are tries is never given up on |
| `Stream.CopyToFront` | src/bufio/bufio.go:84-89 | an overlapping copy within one array |
| `Reader.BufReader.constructor` | src/bufio/bufio.go:46-58 | nothing buffered, in a buffer of the size asked for but at least 16 bytes |
| `Reader.BufReader.Slide` | src/bufio/bufio.go:84-89 | sliding keeps the buffered bytes |
| `Reader.BufReader.ReadChunk` | src/bufio/bufio.go:97-101 | one read into the free end keeps what is buffered |
| `Reader.BufReader.Fill` | src/bufio/bufio.go:83-111 | fill agrees with its value-level specification |
| `Reader.FillKeepsStream` | src/bufio/bufio.go:83-111 | filling leaves the stream to be handed out as it is, or finds an error that is not part of it |
| `Reader.FillPatient` | src/bufio/bufio.go:95-111 | over such a source no error is made up, so none is ever reported |
| `Reader.FillGivesUp` | src/bufio/bufio.go:95-110 | after 100 empty answers a fill gives up with ErrNoProgress |
| `Reader.BufReader.ReadErr` | src/bufio/bufio.go:113-117 | the pending error is reported once |
| `Reader.BufReader.Advance` | src/bufio/bufio.go:215 | moving past buffered bytes removes just those |
| `Reader.BufReader.Take` | src/bufio/bufio.go:307-308 | handing out buffered bytes removes just those |
| `Reader.BufReader.ReadByte` | src/bufio/bufio.go:223-235 | the next byte or the next error, whichever the stream has first; with nothing buffered, after just one fill; giving up is reported only if the source was idle |
| `Reader.BufReader.Read` | src/bufio/bufio.go:185-219 | with bytes buffered, as many of them as fit and no error; else a pending error; else, for a large p, the data and error of one read of the source; else bytes or an error; always off the front of the stream, and short only if the buffer is empty; the one case that reorders is stated |
| `Reader.EmptyReadReorders` | src/bufio/bufio.go:186-189 | reading into nothing keeps the order exactly if no byte waits before the error |
| `Reader.BufReader.Peek` | src/bufio/bufio.go:123-145 | the next n bytes without taking them, or fewer with the error that explains it |
| `Reader.BufReader.ReadSlice` | src/bufio/bufio.go:303-338 | the stream's first line, or a full buffer without the delimiter |
| `Reader.BufReader.ReadBytes` | src/bufio/bufio.go:398-437 | exactly through the first delimiter however long the line; an error exactly if the result does not end in it |
| `Reader.LineIsUnique` | src/bufio/bufio.go:398-437 | the line and its error are determined by the stream alone, whatever the chunks |
| `Reader.CopyPieces` | src/bufio/bufio.go:422-436 | the collected pieces and the fragment, in order |
| `Reader.BufReader.Discard` | src/bufio/bufio.go:152-178 | skips n bytes off the front, or fewer with an error, and which bytes; the one case that can reorder is stated |
| `Reader.DiscardKeepsOrder` | src/bufio/bufio.go:160-176 | over a pending error the order is kept exactly if the source is idle for the whole fill and the pending error is the one that the fill makes up |
| `Reader.DiscardReorders` | src/bufio/bufio.go:160-176 | whatever the error and the sizes, some source makes Discard skip a byte that comes after the pending error |
| `Reader.SkipPastError` | src/bufio/bufio.go:152-178 | a new reader gets there by ReadByte, and Discard skips the byte after the error |
| `Reader.DiscardKeepsBytes` | src/bufio/bufio.go:160-176 | even then no byte is lost: what it skips and what is left are the bytes to come |
| `Reader.TookBytes` | src/bufio/bufio.go:185-235 | handing out keeps the sequence of bytes |
| `Reader.PeekedBytes` | src/bufio/bufio.go:123-145 | peeking keeps it too |
| `Reader.FillKeepsBytes` | src/bufio/bufio.go:83-111 | so does filling, even over a pending error |
| `Reader.CallConserves` | src/bufio/bufio.go:83-437 | what any one call hands out or skips is the front of the bytes to come |
| `Reader.MixConserves` | src/bufio/bufio.go:83-437 | for any chain of such calls, the bytes handed out or skipped, then those buffered, then those to come are what the source delivers |
| `Reader.Do` | src/bufio/bufio.go:123-437 | each call of Read, ReadByte, Peek, ReadSlice, ReadBytes and Discard is such a call |
| `Reader.Run` | src/bufio/bufio.go:123-437 | any list of these calls on a reader: what they hand out or skip, then what is buffered, then what is to come is what was to come before |
| `Reader.ReadAll` | src/bufio/bufio.go:185-219 | calling Read until it reports an error gives the whole text up to the stream's first error, and that error |
| `Writer.Sink.Write` | src/bufio/bufio.go:563 | a sink that takes what its next answer says, with or without an error |
| `Writer.BufWriter.constructor` | src/bufio/bufio.go:522-535 | nothing buffered, in a buffer of the size asked for, or of 4096 bytes if that is not positive |
| `Writer.BufWriter.Keep` | src/bufio/bufio.go:568-571 | after a short write the rest stays buffered |
| `Writer.BufWriter.Flush` | src/bufio/bufio.go:556-577 | sink and buffer together keep their bytes; one write of all that is buffered: what the sink took leaves the buffer, its error or ErrShortWrite is set; nil means that the sink holds everything; a set error stays and nothing moves |
| `Writer.BufWriter.PassThrough` | src/bufio/bufio.go:592-595 | a direct write adds what the sink took and sets the error it reported |
| `Writer.BufWriter.Append` | src/bufio/bufio.go:597-598 | as much as fits is appended |
| `Writer.BufWriter.Round` | src/bufio/bufio.go:590-605 | one round of the loop: the rest past an empty buffer, or as much as fits and then the buffer to the sink; it always gets on |
| `Writer.BufWriter.Write` | src/bufio/bufio.go:589-611 | the accepted prefix, and only it, is added; all of p unless the sink has reported an error; nothing after an error; what fits is only buffered; a large p with nothing buffered goes straight to a sink that takes everything; Write and WriteString by the flag direct |
| `Writer.BufWriter.WriteByte` | src/bufio/bufio.go:614-624 | the byte is added exactly if no error is reported, and without touching the sink if there is room |
| `Writer.AcceptedInOrder` | src/bufio/bufio.go:556-675 | over any chain of calls, sink then buffer hold the concatenation of the accepted prefixes, and nothing changes from the first error on |
| `Writer.Do` | src/bufio/bufio.go:551-675 | each call of Write, WriteString, WriteByte and Flush accepts a front part of what is asked, all of it unless an error is set |
| `Writer.Run` | src/bufio/bufio.go:551-675 | any list of these calls on a writer: sink and buffer gain exactly the accepted bytes in order, nothing changes after the first error, and a final Flush without one leaves the sink with everything |
| `Scanner.SplitIsLine` | src/bufio/scan.go:290-304 | a token split off a front part of the text is the text's first line, and a missing token means that the part holds no line end |
| `Scanner.LinesRoundTrip` | src/bufio/scan.go:284-304 | without carriage returns, the lines and their newlines make up the text again |
| `Scanner.LinesReadBack` | src/bufio/scan.go:277-304 | lines written with "\n" or "\r\n" after each, in any mix, and a last one without either, are read back as just those lines |
| `Scanner.DropsOneCR` | src/bufio/scan.go:277-282 | one carriage return at the end of a line is dropped, others stay |
| `Scanner.ReadKeepsText` | src/bufio/scan.go:179-195 | over a source that is not idle, reading more changes neither the text left nor the error that ends it |
| `Scanner.FillKeepsEnd` | src/bufio/scan.go:179-195 | reading keeps whether the end comes together with the last byte, until the last byte is there |
| `Scanner.ReadKeepsAll` | src/bufio/scan.go:159-195 | so nothing that the result depends on changes while the scanner reads |
| `Scanner.TokenFound` | src/bufio/scan.go:120-141 | a token found in the buffer is the first line of the text that is left |
| `Scanner.TokenNotFound` | src/bufio/scan.go:143-150 | no token at the end means that no text is left |
| `Scanner.ScannedTooLong` | src/bufio/scan.go:161-164 | a full buffer without a line end means that the line does not fit |
| `Scanner.LineScanner.constructor` | src/bufio/scan.go:76-84 | a scanner with nothing buffered, in a buffer of the size given |
| `Scanner.LineScanner.Advance` | src/bufio/scan.go:200-211 | consuming part of the buffer removes just that |
| `Scanner.LineScanner.TakeToken` | src/bufio/scan.go:117-141 | a token of what is buffered is taken off it exactly if there is one |
| `Scanner.LineScanner.Shift` | src/bufio/scan.go:151-158 | shifting keeps the buffered bytes |
| `Scanner.LineScanner.Grow` | src/bufio/scan.go:159-175 | the size doubles, up to the limit, and the buffered bytes stay |
| `Scanner.LineScanner.ReadChunk` | src/bufio/scan.go:180-181 | one read into the free end keeps what is buffered |
| `Scanner.LineScanner.ReadMore` | src/bufio/scan.go:176-195 | a limited number of reads into the free end |
| `Scanner.LineScanner.Refill` | src/bufio/scan.go:151-196 | without a token the text left stays as it is, and there is more room, more data or an error; too long exactly when the buffer cannot grow |
| `Scanner.LineScanner.Scan` | src/bufio/scan.go:114-197 | the next line, less one carriage return at its end, exactly if it is shorter than the limit, or final, unterminated, exactly as long and arriving together with the end; else the end with the source's own error, or ErrTooLong |
| `Scanner.LineScanner.Err` | src/bufio/scan.go:86-91 | an end of input is no error |
| `Scanner.ScanAll` | src/bufio/scan.go:114-197 | the tokens are the lines of the text, as LinesReadBack fixes them, up to the first that does not fit, the error says whether all did; with all lines short, all lines for every chunking |
| `Scanner.ArrivalMatters` | src/bufio/scan.go:114-197 | the tokens depend on how the end arrives exactly if the text ends in an unterminated line of exactly the limit and all lines before fit |
| `Scanner.TwoArrivals` | src/bufio/scan.go:114-197 | every text has two sources, one with the end together with its last byte and one without |
| `Scanner.ShortLinesFit` | src/bufio/scan.go:284-304 | if every line is shorter than the limit, all are handed out however the end arrives |
| `Html.EntityShrinks` | src/html/escape.go:62-168 | no reference writes more bytes than it takes, so the writing cursor stays behind |
| `Html.NumericDecoded` | src/html/escape.go:73-125 | a numeric reference is decoded, to the code point of its number, exactly if it has two digits, or a digit and a semicolon, or in hexadecimal a digit or just a semicolon |
| `Html.NumericInstances` | src/html/escape.go:111-124 | "&#5 " is left alone, "&#5;" is decoded, and "&#x;" becomes the replacement character |
| `Html.PutRune` | src/html/escape.go:124 | the UTF-8 bytes of a code point overwrite the array at one place |
| `Html.EncodeDecodes` | src/html/escape.go:124 | UTF-8: the bytes of a code point, the fewest possible, decode to it; what is no code point becomes U+FFFD |
| `Html.ReplacementFacts` | src/html/escape.go:18-52 | five of the positions 0x80 to 0x9f stay as they are; the others become letters, accents, punctuation and symbols beyond Latin-1 |
| `Html.ReplacementsDecode` | src/html/escape.go:18-52 | the others are Windows-1252 read by its characters: each character comes from its byte |
| `Html.NumericReference` | src/html/escape.go:73-125 | every number up to 0x10ffff, written in decimal or in hexadecimal digits and a semicolon, is decoded to that number; zero and the surrogates to U+FFFD |
| `Html.NamedReference` | src/html/escape.go:127-168 | by cases on the two tables, a name is decoded as an entity, as a pair, by its longest prefix of two to six bytes that is an entity, or left alone; in an attribute it is left alone before "=" or if unknown |
| `Html.CopyDown` | src/html/escape.go:165-167 | an overlapping copy towards the front |
| `Html.ScanNumber` | src/html/escape.go:86-109 | the number, with 32-bit wrap-around, and where it ends |
| `Html.ScanName` | src/html/escape.go:130-141 | where the name ends, one semicolon included |
| `Html.FindPrefix` | src/html/escape.go:153-162 | the longest proper prefix of the name, of two to six bytes, that is an entity; none exactly if there is none |
| `Html.PrefixIsLongest` | src/html/escape.go:153-162 | no longer prefix is an entity |
| `Html.RewriteNumeric` | src/html/escape.go:73-125 | a numeric reference is overwritten as specified |
| `Html.PutTwo` | src/html/escape.go:150-152 | two code points, one behind the other |
| `Html.RewriteNamed` | src/html/escape.go:143-168 | a named reference is overwritten as specified |
| `Html.UnescapeEntity` | src/html/escape.go:62-168 | the in-place rewriting of one reference equals the functional one and leaves dst at or before src |
| `Html.Rewrite` | src/html/escape.go:174-184 | the loop from the first ampersand, with dst at or before src throughout |
| `Html.UnescapeInPlace` | src/html/escape.go:171-188 | in place, the array's front becomes what a rewriter with a fresh output writes |
| `Html.UnescapeString` | src/html/escape.go:243-250 | the shortcut for texts without an ampersand changes nothing |
| `Html.IndexSpecial` | src/html/escape.go:190-193 | the first of the five special bytes |
| `Html.EscapeTo` | src/html/escape.go:192-223 | the escaped text, or a front part of it if the writer fails |
| `Html.EscapedIsEntity` | src/html/escape.go:199-211 | whatever follows it, an escape is read as one reference to the byte it replaced |
| `Html.RoundTrip` | src/html/escape.go:227-242 | unescaping an escaped text gives the text, for every byte string |
| `Html.OnlyAmpersands` | src/html/escape.go:225-226 | no special byte but the ampersand is left in an escaped text |
| `Html.EscapeAndBack` | src/html/escape.go:229-250 | the round trip through the code itself |
| `CleanName.CleanInPlace` | src/lib9/cleanname.c:36-80 | the buffer's string becomes its clean form: the stack-normalised elements joined again, or "."; nothing behind the string is written, since q never overtakes p |
| `CleanName.StepUp` | src/lib9/cleanname.c:57-68 | the branch for "..": pop, drop at the root, or keep at the front |
| `CleanName.StepDown` | src/lib9/cleanname.c:69-74 | the branch for a real element pushes it |
| `CleanName.Backtrack` | src/lib9/cleanname.c:59-61 | the backward loop stops where the last element starts |
| `CleanName.PutDotDot` | src/lib9/cleanname.c:63-66 | ".." is written behind what is there |
| `CleanName.CopyRun` | src/lib9/cleanname.c:72-73 | the copying loop moves one element, its separator included, to the front |
| `CleanName.CopyElement` | src/lib9/cleanname.c:70-73 | an element is copied behind a slash unless it is the first |
| `CleanName.ProgressPop` | src/lib9/cleanname.c:59-61 | backtracking in the bytes is popping the stack |
| `CleanName.ProgressDotDot` | src/lib9/cleanname.c:62-68 | ".." with nothing to pop keeps the loop invariant, rooted or not |
| `CleanName.ProgressReal` | src/lib9/cleanname.c:69-74 | copying an element keeps it |
| `CleanName.ProgressSkip` | src/lib9/cleanname.c:53-56 | passing a slash or "." keeps it |
| `CleanName.PopBytes` | src/lib9/cleanname.c:59-61 | the slash that backtracking finds, or the dotdot mark, is where the stack without its top ends |
| `CleanName.RenderRoundTrip` | src/lib9/cleanname.c:32-34 | a canonical stack that is written out is read back as itself |
| `CleanName.CleanTwice` | src/lib9/cleanname.c:36-80 | cleaning is idempotent |
| `CleanName.DropsNullAndDot` | src/lib9/cleanname.c:32-34 | anywhere in a path "//" and "/./" mean the same as "/" |
| `CleanName.CancelsDotDot` | src/lib9/cleanname.c:32-34 | anywhere in a path "/x/../" means the same as "/" for every real name x; at the root so does "/../" |
| `CleanName.DropsEnds` | src/lib9/cleanname.c:32-34 | a "./" in front and a slash behind mean nothing |
| `CleanName.NormalExactly` | src/lib9/cleanname.c:32-34 | the paths that cleaning leaves alone are exactly "." and names separated by single slashes, behind a slash or some ".."; cleaning always ends in one |
| `Solitaire.Solver.constructor` | doc/play/solitaire.go:31-46 | the center is the only hole if there is exactly one, else negative |
| `Solitaire.Solver.Move` | doc/play/solitaire.go:54-63 | the jump is made exactly if it is legal, otherwise the board is unchanged |
| `Solitaire.Solver.Unmove` | doc/play/solitaire.go:66-70 | undoes a legal jump |
| `Solitaire.Solver.Solve` | doc/play/solitaire.go:79-110 | terminates, restores the board on both outcomes, is true exactly if some play wins, and then prints the boards of one, last first |
| `Solitaire.SolvableByMove` | doc/play/solitaire.go:81-107 | a board is solvable exactly if it is won or some move leads to a solvable one |
| `Solitaire.JumpLosesPeg` | doc/play/solitaire.go:56-61 | every move costs one peg and keeps the border |
| `Solitaire.MovesAreStraight` | doc/play/solitaire.go:11-29 | with a two-cell border no move wraps around the end of a row |
| `Solitaire.MovesOnGrid` | doc/play/solitaire.go:54-63 | on a framed board a move is a jump over a peg to one of the four neighbours two cells off, by row and column |
| `Solitaire.WonIsOnePeg` | doc/play/solitaire.go:83-103 | a board is won exactly if it has one peg, in the center if there is one |
| `Solitaire.SolvableOnGrid` | doc/play/solitaire.go:79-110 | solvable means that some sequence of such jumps ends in one peg |
| `Solitaire.SolveFramed` | doc/play/solitaire.go:31-110 | a new solver on any framed board finds out whether such a sequence exists and leaves the board as it was |
| `Sieve.InvAlways` | doc/play/sieve.go:8-36 | every reachable state links each channel's traffic to the one before it |
| `Sieve.ChannelCarries` | doc/play/sieve.go:16-23 | after k filters a channel carries, in order and without gaps, the integers from 2 that none of the first k primes divides |
| `Sieve.ReceivesPrimes` | doc/play/sieve.go:26-36 | the k-th value main receives is the k-th prime, in every interleaving and for any number of stages |
| `Sieve.ChainCounts` | doc/play/sieve.go:29-35 | numbers that are each the least not divided by those before are all the primes, in order |
| `Sieve.NeverBlocks` | doc/play/sieve.go:8-36 | until main has had enough some rendezvous is possible |
| `Sieve.MainGetsNext` | doc/play/sieve.go:26-36 | every run in which main still waits for a prime can be continued to where it has received it |
| `Sieve.LargeSurvivor` | doc/play/sieve.go:16-23 | above every bound there is an integer that no prime received so far divides |
| `Sieve.Onward` | doc/play/sieve.go:8-36 | taking the offer nearest to main again and again brings main its next value |
| `LinkCheck.InvAlways` | misc/linkcheck/linkcheck.go:78-180 | the counter is the senders plus the fetch in progress, every crawled URL is queued or fetched once, and the fragment records are exact, in every reachable state |
| `LinkCheck.NextKeeps` | misc/linkcheck/linkcheck.go:78-180 | every step keeps that |
| `LinkCheck.WaitMeansDone` | misc/linkcheck/linkcheck.go:173-180 | when Wait returns nobody is sending, every crawled URL has been fetched exactly once, and they are exactly the pages reachable from the root |
| `LinkCheck.MissingFragmentsExact` | misc/linkcheck/linkcheck.go:181-185 | the fragments reported are exactly those asked for by the root or a reachable page and absent from their page |
| `LinkCheck.FoundIs` | misc/linkcheck/linkcheck.go:112-171 | what a fetch asks for: every link of a page, resolved, or where a redirect within the site leads; the ids are those of the page |
| `LinkCheck.StripIs` | misc/linkcheck/linkcheck.go:85-88 | the URL before its first "#", and the fragment after it |
| `LinkCheck.AddWhileCounted` | misc/linkcheck/linkcheck.go:98 | the counter is only ever raised while it is positive and the channel is open |
| `LinkCheck.WorkShrinks` | misc/linkcheck/linkcheck.go:112-171 | on a finite site every step leaves less to do, in a well-founded order |
| `LinkCheck.WorkGoesOn` | misc/linkcheck/linkcheck.go:112-180 | until Wait has returned some step is possible |
| `ByteSlices.Count` | src/bytes/bytes.go:51-79 | the number of greedy matches |
| `ByteSlices.Index` | src/bytes/bytes.go:87-115 | the first match, or -1 exactly if there is none |
| `ByteSlices.IndexByte` | src/bytes/bytes.go:117-124 | the first occurrence in a stretch |
| `ByteSlices.NextCandidate` | src/bytes/bytes.go:60-67 | jumping to the next first byte skips no match |
| `ByteSlices.GenSplit` | src/bytes/bytes.go:201-225 | the greedy pieces, at most n of them, in a result made beforehand |
| `ByteSlices.Join` | src/bytes/bytes.go:311-331 | the pieces with the separator between, filling the buffer exactly |
| `ByteSlices.JoinedSize` | src/bytes/bytes.go:319-322 | the size computed beforehand |
| `ByteSlices.Replace` | src/bytes/bytes.go:615-649 | Replace is Join of SplitN with the replacement, for every count |
| `ByteSlices.ReplaceFirst` | src/bytes/bytes.go:629-648 | the loop fills its precomputed buffer exactly |
| `ByteSlices.JoinUndoesSplit` | src/bytes/bytes.go:234-251 | joining what splitting gives is the identity, for every limit |
| `ByteSlices.SplitAfterIsPartition` | src/bytes/bytes.go:243-259 | pieces that keep the separator are the text cut up |
| `ByteSlices.AllPieces` | src/bytes/bytes.go:201-225 | one piece more than Count finds matches, and no piece contains the separator |
| `ByteSlices.SplitExactly` | src/bytes/bytes.go:201-225 | a list of pieces is the split exactly if joining gives the text and each cut is at the leftmost separator, until n pieces are made or none is left |
| `ByteSlices.SaveAdds` | src/bytes/bytes.go:201-225 | keeping part of the separator adds just that to every piece but the last |
| `ByteSlices.JoinParts` | src/bytes/bytes.go:311-331 | joining two lists one behind the other puts one separator between |
| `ByteSlices.ReplaceIsJoinOfSplit` | src/bytes/bytes.go:615-649 | greedy replacing and greedy splitting find the same matches |
| `ByteSlices.ReplacedSize` | src/bytes/bytes.go:630 | the precomputed size is the size of the result |
| `ByteSlices.Repeat` | src/bytes/bytes.go:381-389 | count copies |
| `ByteSlices.RepeatSize` | src/bytes/bytes.go:381-389 | its size is the product |
| `ByteSlices.RepeatAdds` | src/bytes/bytes.go:381-389 | m + k copies are m copies and then k |
| `ByteSlices.RepeatOnce` | src/bytes/bytes.go:381-389 | one copy is the slice, none is empty |
| `ByteSlices.FillByDoubling` | src/bytes/bytes.go:383-388 | copying the filled part behind itself gives the repetition, also when the last copy is cut short |

## Left out

- `Relax`: NaCl padding, which breaks the monotonicity that minimality rests on; JCXZ, whose prefix is not counted in the backward displacement; LOOP; relocations; the opcode tables. Instructions other than local branches are byte strings of fixed length.
- `Relax.DisplacementsDecode`: is about functions shorter than 2 GiB, because displacements are stored in 32 bits.
- `Relax.Assembler`: the intrusive Prog list and the comefrom/forwd links are sequences indexed by position, so pointer aliasing between Progs is not captured.
- `LiteralPool`: NaCl bundles, CASE and BCASE tables, relative constants of shared code, floating-point encodings, and the matching of the instruction table, whose result (size, flag, condition) is an input.
- `LiteralPool.Assembler.Span`: the second layout loop and the emission of bytes after the first loop; without NaCl they repeat the same pcs.
- `LiteralPool.Assembler`: the Prog list is a sequence, and the pointer from a user to its word is a number that no other word has.
- `Pipe`: a call of Wait and the retaking of the mutex after it are one phase; signals to goroutines other than those in read and write do not exist.
- `Pipe.NoDeadlock`: says that some step is possible, not that a fair scheduler takes it; a writer left without a reader waits, as in the original.
- `Reader`: UnreadByte and lastByte, the rune methods, ReadLine, ReadString and WriteTo; slices that share the buffer with the reader are values, so their invalidation by the next call is not captured. A source with a negative count panics in the original and is not modelled.
- `Reader.BufReader.ReadSlice`: takes sources that do not report ErrBufferFull themselves.
- `Writer`: WriteRune, ReadFrom, which does not honour the sticky error, and Reset.
- `Scanner`: custom split functions, with their negative or excessive advance and the count of empty tokens; ScanWords, ScanRunes and ScanBytes.
- `Scanner.ScanAll`: the source never gives 101 empty answers in a row; one that does may be given up on, and then where its text ends depends on the chunks.
- `Html`: the contents of the entity tables beyond amp, lt and gt; that no encoding is longer than its name is an assumption on the tables, which the repository's own entity test checks.
- `CleanName.CleanInPlace`: the buffer has room for two bytes, since an empty path becomes ".".
- `Solitaire`: the text form of the board and the count of attempted moves.
- `Sieve`: printing, and the ten stages of the original, which are any number here.
- `LinkCheck`: HTTP, regular expressions, logging and the problems list; fetching a URL is a function. The order in which goroutines send is arbitrary, and a map entry's list of sources is a set.
- `ByteSlices`: empty separators, which need UTF-8 decoding, and everything about runes; the capacities of the slices returned.
- Formatted printing and scanning, image geometry, flag parsing, mathematical functions and the system wrappers of the C libraries: dependent on code outside the tree, or without a property worth a model.
