# Verified models of Service Lasso's hard core

Service Lasso is a local runtime for supervised services. This project models the parts of
it whose correctness rests on an algorithm or on a protocol, in the form the sources give
them, and proves what they promise for every input and every run:

- a self-contained DEFLATE decoder and ZIP verifier (`BitStrings` to `ZipWriter`), against
  RFC 1951, the checksum of RFC 1952 and the record formats of PKWARE's APPNOTE;
- the brace-pattern library: a stack parser that rewrites its own tree, a printer, an
  expander over mutable queues, a compiler to regular expressions and two guards
  (`BraceAst` to `BraceLimits`);
- the hash-chained audit log, its verifier and its concurrent writers (`Audit*`);
- three state machines: the handle discipline of the MSI reader (`HandleTrace`, `MsiReader`),
  the one-shot grants of the Darwin host runner (`GrantLedger`, `HostRunner`) and the
  windowed login limiter (`LoginLimiter`);
- the freshness decisions of the HTTP cache (`HttpCache`).

`dafny verify dfyconfig.toml` checks everything.

## How to read it

Rejections are values: where a source throws on bad input, the model returns `Rejected`, and
contracts say exactly when. Bits are numbers 0 and 1, so no bit-vector reasoning is involved.
Methods that follow the source's loops are proved against functions or relations, and the
theorems are about those.

**DEFLATE.** `DeflateFormat` is the standard: legal tokens, blocks, headers, the bits they are
written as and the bytes they stand for. `Inflate` is exact in both directions: every encoding
of the expected number of bytes that fills the window, within the member and block quotas,
decodes to the bytes it stands for and to its own bit length, and nothing else decodes.
`EveryByteStringEncodes` shows the statement is not empty. Lookup tables are proved to be the
canonical code of the lengths: distinct keys, prefix-free, inverted by `Decode`. Known streams
(`DeflateExamples`) fix byte for byte what the two directions could otherwise only agree on.

**ZIP.** `Observe` accepts exactly the files for which some reading satisfies `ArchiveOk`, and
that reading is unique. From `ArchiveOk` follow the exact tiling of the file, disjoint data
ranges and the directory tree of names. `ZipWriter` lays archives out byte by byte, without
reading anything back, and proves that the verifier returns exactly what was written.

**Braces.** A parse state is a stack of open blocks with the path to the node touched last,
which stands for the source's `prev` and `parent` links. `Pattern` is the independent notion of
a pattern; both back ends are related to its meaning.

**Audit log.** A directory is a map from file names to lines. The hash is a parameter: it must
never be empty for the run theorem, and injective for the tampering theorems. The lock is a step
that only one writer can have taken; the steps between taking it and giving it back interleave
freely with other writers.

**MSI reader.** Native answers, callbacks and exceptions are arbitrary. `Stuck` is the retention
loop, from which control never comes back. A ghost trace records acquisitions and closes.

**Grants.** The clock may go anywhere. A journal append has three outcomes, because the source
reports failure when only the sync fails although the line is already there.

**HTTP cache.** A deadline says until when an answer is given. Two of them, computed without
looking at the clock, decide every evaluation; at a single clock reading they decide it exactly.

### Where the code and what it promises part

- A third dot after a range whose left neighbour is a closed block makes the parser append to a
  value that is not there; `{{a}...` prints as a text with "undefined" in it
  (`packages/braces-safe/lib/parse.js:286-293`). `PrintUndoesParse` proves the round trip for
  exactly the other inputs, `GarbledExample` is a witness; text without three dots in a row is
  always printed back (`WithoutThreeDots`).
- The compiler loses an empty alternative between two commas, the expander keeps it
  (`packages/braces-safe/lib/compile.js:32`); text that contains `|`, `*`, `+`, `?` or `^` is
  compiled unescaped; and the empty pattern expands to nothing but compiles to an expression
  that matches the empty string. `BackEndsCompare` and `BackEndsAgree` state exactly when the two
  agree, `AdjacentCommasDisagree` and `EmptyPatternDisagrees` are witnesses. A brace that holds
  just a number is text to the expander and a count to the regular expression
  (`packages/braces-safe/lib/compile.js:23-29`): such patterns are not covered by the equivalence,
  `CountDisagrees` is a witness.
- A data descriptor without signature is misread if the checksum it begins with is the signature's
  number (`scripts/native/core1681-vsix-bytes.cs:34`); `Writable` asks for the signature then. A
  second place in the file that looks like its end record makes the archive ambiguous, and exactly
  then what was written is rejected (`WrittenReads`).
- The text guard and the tree guard have the same two limits, 64 and 10000, but count different
  things: characters and open braces in the text, nodes in the tree, where the delimiters of a
  brace lie one level below it. A pattern the text guard accepts is refused in front of the
  compiler and the expander (`packages/braces-safe/index.js:102`, `:128`) exactly when it is nested
  64 deep or has more than 10000 nodes (`GuardsCompared`). `TooDeepAsTree` and `TooLargeAsTree`
  are witnesses: 64 nested braces, and `{,}` written 2500 times.
- If the sync of the "consumed" journal line fails, the grant is then journalled as "revoked" as
  well (`scripts/host-runner-service/darwin/service-lasso-host-runner.c:48`, `:60`).
  `OrderedUnlessSpoiled` shows for every run and every nonce that this is the only way the order of
  a nonce's lines can be spoiled, `SpoiledRun` that it is possible. Journal lines end in a
  backslash and the letter n, not in a line feed.
- Five failures per window allow nine credential checks within one millisecond, at the seam of
  two windows (`NineReached`); nine per stretch of a window's length is the exact bound.
- A verified audit log stays verified when its newest events are cut off; only the head hash
  tells (`TruncationVerifies`).

## Model

| member | source | states |
|---|---|---|
| BitReader.Bits.constructor | scripts/native/core1681-vsix-bytes.cs:22 | the reader starts at bit 0 of the window |
| BitReader.Bits.Read | scripts/native/core1681-vsix-bytes.cs:22 | n bits read least significant first spell the value of the next n bits of the window (RFC 1951 section 3.1.1); rejected exactly when n exceeds 16, the bits run out or the window has more bits than an int holds, and then nothing is consumed |
| BitReader.Bits.Align | scripts/native/core1681-vsix-bytes.cs:22 | aligning consumes fewer than 8 bits up to a byte boundary and fails only on a window too long to count |
| BitReader.AlignStaysInside | scripts/native/core1681-vsix-bytes.cs:22 | aligning never runs past a window of whole bytes |
| CanonicalCode.EndIsKraft | scripts/native/core1681-vsix-bytes.cs:26 | the code space the length loop uses up is the Kraft sum of the lengths |
| CanonicalCode.CodeFits | scripts/native/core1681-vsix-bytes.cs:26 | every assigned code lies below 2 to the power of its length |
| CanonicalCode.CodewordUnique | scripts/native/core1681-vsix-bytes.cs:26-27 | at most one symbol's codeword stands at any position of any stream |
| CanonicalCode.PrefixFree | scripts/native/core1681-vsix-bytes.cs:26 | no codeword is a prefix of another symbol's (RFC 1951 section 3.2.1) |
| CanonicalCode.CompleteRecognises | scripts/native/core1681-vsix-bytes.cs:26-27 | a complete code finds a codeword wherever as many bits remain as its longest codeword has |
| CanonicalCode.AdmissibleFits | scripts/native/core1681-vsix-bytes.cs:26 | empty and single-symbol codes that are let through are never oversubscribed |
| Huffman.DecodeInvertsEncode | scripts/native/core1681-vsix-bytes.cs:27 | a symbol's codeword anywhere in a stream decodes to that symbol |
| Huffman.Reverse | scripts/native/core1681-vsix-bytes.cs:25 | reversing a code gives the value its bits have in stream order |
| Huffman.Tally | scripts/native/core1681-vsix-bytes.cs:26 | counts codewords per length and the longest one; refuses exactly lengths above 15 |
| Huffman.SpaceLeft | scripts/native/core1681-vsix-bytes.cs:26 | succeeds exactly when the lengths are not oversubscribed, and then what is left over is 2 to the 15th minus the Kraft sum |
| Huffman.FirstCodes | scripts/native/core1681-vsix-bytes.cs:26 | each length starts at the canonical first code (RFC 1951 section 3.2.2) |
| Huffman.FillTable | scripts/native/core1681-vsix-bytes.cs:26 | the dictionary maps the key of every symbol with a code to that symbol and holds no other key |
| Huffman.KeysDistinct | scripts/native/core1681-vsix-bytes.cs:26 | different symbols never collide in the dictionary |
| Huffman.BuildHuff | scripts/native/core1681-vsix-bytes.cs:26 | accepts exactly complete codes, plus empty or single-symbol ones where allowed |
| Huffman.Huff.Decode | scripts/native/core1681-vsix-bytes.cs:27 | returns the one symbol whose codeword stands at the position and consumes exactly its length; rejects when none does |
| DeflateFormat.FixedTablesComplete | scripts/native/core1681-vsix-bytes.cs:33 | the fixed literal and distance lengths are complete codes |
| DeflateFacts.FixedCodesAsTabulated | scripts/native/core1681-vsix-bytes.cs:33 | the fixed lengths yield the code values RFC 1951 section 3.2.6 gives for all 288 literal/length symbols and all 32 distance symbols |
| DeflateFacts.EveryCopyHasToken | scripts/native/core1681-vsix-bytes.cs:29-32 | the base and extra-bit tables cover every length from 3 to 258 and every distance from 1 to 32768 |
| DeflateExamples.LengthsAsTabulated | scripts/native/core1681-vsix-bytes.cs:29-30 | base and extra bits of all 29 length symbols, by the rule behind the table of RFC 1951 section 3.2.5 |
| DeflateExamples.DistancesAsTabulated | scripts/native/core1681-vsix-bytes.cs:31-32 | the same for all 30 distance symbols |
| DeflateExamples.LengthsSentInOrder | scripts/native/core1681-vsix-bytes.cs:33 | where each transmitted code length goes: symbols 16, 17, 18, 0, then 8 and upwards alternating with 7 and downwards; symbols not sent have none |
| DeflateExamples.HeaderCodes | scripts/native/core1681-vsix-bytes.cs:33 | a legal header has at most 286 and 32 symbols, a complete code length code, and codes that are complete, a single one-bit codeword or, for distances, empty |
| DeflateReading.NextOpIff | scripts/native/core1681-vsix-bytes.cs:33 | a code-length operation is read exactly where its bits stand and it is legal |
| DeflateReading.TokenIff | scripts/native/core1681-vsix-bytes.cs:33 | a literal or copy is read exactly where its bits stand |
| DeflateReading.ReadHeaderComplete | scripts/native/core1681-vsix-bytes.cs:33 | every legal dynamic header is read back to its two length vectors |
| DeflateReading.ReadHeaderSound | scripts/native/core1681-vsix-bytes.cs:33 | whatever is read as a dynamic header is the encoding of a legal one |
| DeflateReading.ReadBlocksComplete | scripts/native/core1681-vsix-bytes.cs:33 | every legal sequence of blocks is read back to the bytes it stands for and its own length |
| DeflateReading.ReadBlocksSound | scripts/native/core1681-vsix-bytes.cs:33 | whatever is read is the encoding of a legal sequence of blocks |
| Inflater.StoredBlock | scripts/native/core1681-vsix-bytes.cs:33 | a stored block is aligned, its length checked against its complement and the room left, and its bytes copied |
| Inflater.CodeLengthCode | scripts/native/core1681-vsix-bytes.cs:33 | the three-bit lengths land at their permuted places |
| Inflater.RunOf | scripts/native/core1681-vsix-bytes.cs:33 | symbols 16, 17 and 18 repeat what the standard says they repeat, and only these are runs |
| Inflater.CodeLengths | scripts/native/core1681-vsix-bytes.cs:33 | the run-length coded lengths fill the vector exactly, never past its end |
| Inflater.DynamicTables | scripts/native/core1681-vsix-bytes.cs:33 | succeeds exactly on legal headers and builds the tables of their two length vectors |
| Inflater.CopyBack | scripts/native/core1681-vsix-bytes.cs:33 | the byte-by-byte copy, overlapping or not, appends the periodic extension of the last `distance` bytes and reads only written ones |
| Inflater.CopyToken | scripts/native/core1681-vsix-bytes.cs:33 | a copy is performed exactly when it is well formed, reaches no further back than what is written and fits the buffer |
| Inflater.BlockBody | scripts/native/core1681-vsix-bytes.cs:33 | the loop up to the end-of-block symbol expands the tokens in order; it ends because bits run out |
| Inflater.Blocks | scripts/native/core1681-vsix-bytes.cs:33 | blocks are decoded up to the final one, within the block quota; the loop ends because bits run out |
| Inflater.Inflate | scripts/native/core1681-vsix-bytes.cs:33 | inverts every encoding within the quotas, reporting its bytes and its bit length; success means an encoding of exactly the expected bytes that leaves no byte of the window over |
| DeflateFacts.EveryByteStringEncodes | scripts/native/core1681-vsix-bytes.cs:33 | every byte string within the member quota has an encoding the decoder accepts |
| DeflateExamples.DynamicStandsFor | scripts/native/core1681-vsix-bytes.cs:33 | fourteen given bytes are an encoding of 3, 4, 3, 4, 3 by one dynamic block that uses all three kinds of runs |
| DeflateExamples.StoredStandsFor | scripts/native/core1681-vsix-bytes.cs:33 | six given bytes are an encoding of the byte 97 by a stored block |
| DeflateExamples.FixedStandsFor | scripts/native/core1681-vsix-bytes.cs:33 | three given bytes are an encoding of it by a fixed block |
| DeflateExamples.InflateKnown | scripts/native/core1681-vsix-bytes.cs:22-33 | the decoder returns those bytes for the three streams |
| Crc32.FeedDivides | scripts/native/core1681-vsix-bytes.cs:19 | feeding bits to the register divides the message polynomial: a quotient exists for which the register is what remains |
| Crc32.CrcIsRemainder | scripts/native/core1681-vsix-bytes.cs:19 | the checksum, with its pre- and post-inversion, is the reflected remainder of the message by the CRC-32 polynomial (RFC 1952 section 8) |
| Crc32.RemainderUnique | scripts/native/core1681-vsix-bytes.cs:19 | a polynomial has only one remainder, so that remainder determines the checksum |
| Crc32.StepsFeed | scripts/native/core1681-vsix-bytes.cs:19 | xoring a byte in and shifting eight times equals feeding its eight bits one by one |
| Crc32.Crc | scripts/native/core1681-vsix-bytes.cs:19 | the loop over unsigned words computes that checksum |
| Crc32.BurstDetected | scripts/native/core1681-vsix-bytes.cs:19 | messages of equal length that differ only inside a window of at most four bytes, in particular in one byte, have different checksums |
| ZipRecords.Extra | scripts/native/core1681-vsix-bytes.cs:20 | accepts exactly ranges filled by tagged blocks, none of them ZIP64 |
| ZipRecords.ChainCovers | scripts/native/core1681-vsix-bytes.cs:34 | in a chain of records every position lies in exactly one |
| ZipVerifier.FindEnd | scripts/native/core1681-vsix-bytes.cs:34 | finds the end record if there is exactly one in the whole file, and rejects otherwise |
| ZipVerifier.ReadEnd | scripts/native/core1681-vsix-bytes.cs:34 | succeeds exactly when the end record describes one unsplit directory that reaches up to it |
| ZipVerifier.ReadEntry | scripts/native/core1681-vsix-bytes.cs:34 | returns the directory entry the bytes spell if there is one within the limits, rejects otherwise |
| ZipVerifier.ReadDirectory | scripts/native/core1681-vsix-bytes.cs:34 | returns the one list of entries that fills the directory with names distinct up to case, within the expansion quota; rejects when there is none |
| ZipVerifier.CollectPaths | scripts/native/core1681-vsix-bytes.cs:34 | succeeds exactly when no two entries share a path up to case |
| ZipVerifier.CheckAncestors | scripts/native/core1681-vsix-bytes.cs:34 | succeeds exactly when no file's path is the directory part of another entry's path up to case |
| ZipVerifier.SortByOffset | scripts/native/core1681-vsix-bytes.cs:34 | a permutation of the entries in offset order |
| ZipVerifier.RecordEnd | scripts/native/core1681-vsix-bytes.cs:34 | the one end a local record can have, with or without descriptor and descriptor signature |
| ZipVerifier.Content | scripts/native/core1681-vsix-bytes.cs:34 | the one content of the entry's size and checksum that the data stands for, or rejection |
| ZipVerifier.ReadLocal | scripts/native/core1681-vsix-bytes.cs:34 | the one member whose record starts at the expected offset and agrees with its entry, or rejection |
| ZipVerifier.ReadLocals | scripts/native/core1681-vsix-bytes.cs:34 | the one list of members whose records fill the file up to the directory, or rejection |
| ZipVerifier.Observe | scripts/native/core1681-vsix-bytes.cs:34 | accepts exactly the files that can be read as an archive, and there is only one way to read them |
| ZipVerifier.RecordsTile | scripts/native/core1681-vsix-bytes.cs:34 | local records, directory entries and the end record with its comment tile an accepted file |
| ZipVerifier.EveryByteOnce | scripts/native/core1681-vsix-bytes.cs:34 | every byte of an accepted file lies in exactly one record |
| ZipVerifier.DataDisjoint | scripts/native/core1681-vsix-bytes.cs:34 | every member's data ends before the directory and before the data of every later member, so data ranges never overlap |
| ZipWriter.Field16 | scripts/native/core1681-vsix-bytes.cs:15 | two bytes, the low one first, are read as the number they spell |
| ZipWriter.Field32 | scripts/native/core1681-vsix-bytes.cs:16 | four bytes, the lowest first, are read as the number they spell |
| ZipWriter.ExtraReads | scripts/native/core1681-vsix-bytes.cs:20 | an extra field written as tagged blocks without a ZIP64 one is accepted |
| ZipWriter.EntryReads | scripts/native/core1681-vsix-bytes.cs:34 | a directory entry written byte by byte is read back to its file |
| ZipWriter.MemberReads | scripts/native/core1681-vsix-bytes.cs:34 | a local record written byte by byte, with or without descriptor, is read back to its file and content |
| ZipWriter.WrittenReads | scripts/native/core1681-vsix-bytes.cs:34 | an archive laid out byte by byte from files within the limits is read back as those files, exactly if nothing else in it looks like its end record; otherwise no reading is accepted |
| ZipWriter.ObserveWritten | scripts/native/core1681-vsix-bytes.cs:34 | the verifier returns those files with their names and contents, in order |
| ZipWriter.ObserveKnown | scripts/native/core1681-vsix-bytes.cs:34 | it accepts the empty archive and a given archive of 100 bytes with one empty file |
| ZipWriter.AcceptedIsOrdinary | scripts/native/core1681-vsix-bytes.cs:34 | byte by byte, what every entry of an accepted file is like: no encryption or unknown flags, stored or deflated, first disk, plain file or directory; local records repeat their entries; the four quotas are kept |
| ZipWriter.SizesRepeat | scripts/native/core1681-vsix-bytes.cs:34 | byte by byte: checksum and sizes stand in an accepted local header as in its entry or, with a descriptor, zero or the same there and as in the entry behind the data |
| ZipWriter.ExtraIsBlocks | scripts/native/core1681-vsix-bytes.cs:20 | an accepted extra field is one that tagged blocks without a ZIP64 one spell |
| ZipWriter.NameIsSpelled | scripts/native/core1681-vsix-bytes.cs:21 | an accepted name is what its one to 4096 bytes spell, as UTF-8 if the flag says so and as ASCII otherwise |
| ZipNames.SegmentIsPiece | scripts/native/core1681-vsix-bytes.cs:21 | splitting a name at a separator yields every stretch between separators |
| ZipNames.PieceIsSegment | scripts/native/core1681-vsix-bytes.cs:21 | and nothing else |
| ZipNames.PathGoesDown | scripts/native/core1681-vsix-bytes.cs:21 | no step of an accepted path is empty, the directory itself or the one above, or ends in a dot or a space; no root, drive or control character anywhere |
| ZipNames.NoDevice | scripts/native/core1681-vsix-bytes.cs:21 | no step of an accepted path names one of the 22 devices before its first dot, in any case |
| ZipNames.PlainNames | scripts/native/core1681-vsix-bytes.cs:21 | paths of lower-case words of five and more letters and digits are accepted |
| BraceParser.Guard | packages/braces-safe/lib/guard.js:6-17 | accepts exactly texts of at most 10000 characters no prefix of which is nested deeper than 64 |
| BraceParser.Parse | packages/braces-safe/lib/parse.js:32-331 | accepts exactly what the guard accepts and returns the tree of running the text through the parse states |
| BraceRoundTrip.PrintUndoesParse | packages/braces-safe/lib/parse.js:44-330 | for input without backslash, square bracket, quote, backtick, no-break space and byte-order mark, balanced or not: printing the parsed tree gives the input back if and only if the garbling branch is never taken |
| BraceRoundTrip.WithoutThreeDots | packages/braces-safe/lib/parse.js:276-305 | such an input without three dots in a row is always printed back |
| BraceRoundTrip.RunPrints | packages/braces-safe/lib/parse.js:78-305 | what every parse step keeps: the open blocks print the text read so far, or already depart from it for good |
| BraceRoundTrip.UnwindPrints | packages/braces-safe/lib/parse.js:308-327 | splicing unclosed blocks into their parents does not change the printed text |
| BracePattern.GarbledExample | packages/braces-safe/lib/parse.js:286-293 | `{{a}...` is not printed back |
| BracePattern.ParsesToTree | packages/braces-safe/lib/parse.js:32-331 | the parser builds exactly the tree of every pattern of plain text and balanced braces, with or without commas |
| BraceExpand.Append | packages/braces-safe/lib/expand.js:7-31 | appending a stash to a queue element lists the cross product, the queue varying slowest, however the arrays are nested |
| BraceExpand.CrossAssociative | packages/braces-safe/lib/expand.js:7-31 | the order in which products are formed does not matter |
| BraceExpand.Queue.Extend | packages/braces-safe/lib/expand.js:48-98 | replacing the last queue element by its product with a stash |
| BraceExpand.WalkNode | packages/braces-safe/lib/expand.js:36-108 | walking a block updates the queue around it as the value-level walk does |
| BraceExpand.Expand | packages/braces-safe/lib/expand.js:110 | the mutable queues end up listing the value-level expansion |
| BraceMeaning.DenoteSize | packages/braces-safe/lib/expand.js:7-111 | concatenation multiplies and alternatives add up: the number of strings a pattern stands for, never zero |
| BraceMeaning.ExpansionDenotes | packages/braces-safe/lib/expand.js:33-111 | expanding a pattern's tree lists exactly the strings the pattern stands for, in left-to-right order with repetitions: alternatives without their braces, a single alternative or nothing with them; only the empty pattern gives none |
| BraceMeaning.TreeWalkable | packages/braces-safe/lib/expand.js:36-108 | the trees of patterns are among those the expander is proved for |
| BraceRegex.TreeCompiles | packages/braces-safe/lib/compile.js:6-58 | compiling a pattern's tree gives the regular expression of the compacted pattern: braces with commas become groups, others stay text, an empty alternative between two commas is dropped |
| BraceRegex.MatchesDenotes | packages/braces-safe/lib/compile.js:6-58 | the structure of a pattern's expression matches a stretch of text exactly when the pattern stands for that stretch |
| BraceRegex.BackEndsCompare | packages/braces-safe/lib/compile.js:6-58 | for every pattern without a brace that holds just a number: the expression denotes the expansion if and only if the pattern is not empty, has no metacharacter and loses no string by compacting |
| BraceRegex.BackEndsAgree | packages/braces-safe/lib/compile.js:6-58 | for those without adjacent commas: the expression denotes the expansion if and only if the pattern is not empty and has none of the five metacharacters |
| BraceRegex.AdjacentCommasDisagree | packages/braces-safe/lib/compile.js:31-33 | for `{a,,b}` the expansion lists the empty string and the expression does not match it |
| BraceRegex.EmptyPatternDisagrees | packages/braces-safe/lib/compile.js:6-58 | the empty pattern's expression matches the empty string, which its expansion does not list |
| BraceRegex.CountDisagrees | packages/braces-safe/lib/compile.js:23-29 | a brace that holds just a number compiles to a count: `a{2}` expands to itself, its expression matches "aa" |
| BraceLiterals.Escaped | packages/braces-safe/lib/parse.js:90-97 | a backslash makes any character text |
| BraceLiterals.Quoted | packages/braces-safe/lib/parse.js:165-194 | text in quotes of any of the three kinds is text, without the quotes |
| BraceLiterals.Bracketed | packages/braces-safe/lib/parse.js:108-141 | text in square brackets is text, with the brackets, up to the one that balances the first |
| BraceLiterals.LoneBracket | packages/braces-safe/lib/parse.js:99-106 | a closing square bracket alone is escaped |
| BraceLiterals.Dropped | packages/braces-safe/lib/parse.js:86-88 | a no-break space or byte-order mark behind plain text is as if it were not there |
| BraceLiterals.ParensProtect | packages/braces-safe/lib/parse.js:143-163 | parentheses in a brace are text, and commas between them do not separate alternatives |
| BraceLiterals.TextExpands | packages/braces-safe/lib/expand.js:33-111 | what is only text expands to itself |
| BraceLiterals.UnclosedBrace | packages/braces-safe/lib/parse.js:307-327 | an opening brace that is never closed is text, and so are the commas behind it |
| BraceLiterals.DollarVerbatim | packages/braces-safe/lib/expand.js:47-50 | a brace behind a dollar sign expands to itself as it is written, with everything in it |
| BraceLiterals.DollarCompiles | packages/braces-safe/lib/compile.js:8-58 | and compiles to itself, if it holds no brace and no two adjacent commas |
| BraceLiterals.DotsVerbatim | packages/braces-safe/lib/parse.js:264-279 | a brace that begins with two dots is no range: it expands and compiles to itself, whatever text and single commas follow |
| BraceGuard.Ast | packages/braces-safe/lib/guard.js:18-34 | ends on every object graph, shared or cyclic, and accepts exactly those that unfold along `nodes` to a tree of distinct objects, at most 10000 of them and at most 64 levels deep |
| BraceGuard.RoundKeeps | packages/braces-safe/lib/guard.js:22-33 | one round of the worklist changes nothing about whether the pending objects fit |
| BraceLimits.PatternPeak | packages/braces-safe/lib/guard.js:9-16 | the deepest nesting the text guard sees is the nesting depth of the pattern |
| BraceLimits.GuardMeans | packages/braces-safe/lib/guard.js:6-17 | the text guard accepts exactly texts of at most 10000 characters no stretch of which opens more than 64 braces beyond those it closes |
| BraceLimits.TreeCount | packages/braces-safe/lib/parse.js:32-331 | the parsed tree of a pattern has as many nodes as counted on the pattern: root and two markers, a leaf for each run of characters, and for each brace itself, two delimiters and its commas |
| BraceLimits.SmallWhenRepresented | packages/braces-safe/lib/guard.js:18-34 | on objects that represent a syntax tree the tree guard accepts exactly trees at most 64 levels deep with at most 10000 nodes |
| BraceLimits.EveryTreeIsRepresented | packages/braces-safe/lib/guard.js:18-34 | every syntax tree has such objects |
| BraceLimits.GuardsCompared | packages/braces-safe/lib/guard.js:4-34 | a parsed pattern passes the text guard if and only if it has at most 10000 characters and nesting at most 64, the tree guard if and only if it has nesting at most 63 and at most 10000 nodes; so it passes the first and fails the second exactly when it is nested 64 deep or has more than 10000 nodes |
| BraceLimits.TooDeepAsTree | packages/braces-safe/lib/guard.js:4-34 | 64 nested braces, 259 nodes, pass the text guard and fail the tree guard |
| BraceLimits.TooLargeAsTree | packages/braces-safe/lib/guard.js:4-34 | `{,}` 2500 times, 7500 characters nested once and 10003 nodes, passes the text guard and fails the tree guard |
| AuditFiles.ListAuditFiles | src/runtime/audit/store.ts:128-138 | lists the log files in the one order in which the legacy file is first and the others follow by name |
| AuditFiles.ListingUnique | src/runtime/audit/store.ts:128-138 | a directory has only one listing |
| AuditFiles.ListedNames | src/runtime/audit/store.ts:128-138 | a listing holds exactly the names that end in ".jsonl", "events.jsonl" first |
| AuditFiles.DatesOrder | src/runtime/audit/store.ts:269 | comparing dates as strings compares the days they name |
| AuditChain.VerifyAuditFiles | src/runtime/audit/store.ts:145-232 | the verdict, its reason, the events reported and the sequence number reported are those of the first line that does not continue the log, or "verified", or "unavailable" because empty |
| AuditChain.VerdictUnique | src/runtime/audit/store.ts:145-232 | lines have only one verdict: status, reason, events and place |
| AuditChain.VerifiedMeans | src/runtime/audit/store.ts:145-232 | "verified" if and only if the files hold at least one line and every line is an event that continues the ones before it |
| AuditChain.VerifiedSpelled | src/runtime/audit/store.ts:145-232 | the same field by field: one named chain, numbers from 1, the predecessor's hash and the event's own, none of them empty |
| AuditChain.HeadFixesLog | src/runtime/audit/store.ts:91-101 | with an injective hash two chains with the same head hold the same events in the same order, up to the chain status |
| AuditChain.TamperingShows | src/runtime/audit/store.ts:91-101 | changing, dropping, inserting or reordering events of a verified log stops it from verifying or changes its head hash |
| AuditChain.TruncationVerifies | src/runtime/audit/store.ts:145-232 | a non-empty beginning of a verified log verifies, under another head |
| AuditStore.TargetIsLast | src/runtime/audit/store.ts:263-270 | the file an event is appended to is the last one of the listing or sorts after all of it |
| AuditStore.TargetDay | src/runtime/audit/store.ts:263-270 | an event never goes to a file older than its own date; if its date is later than that of every file it opens the file of its date, otherwise it goes to the latest file |
| AuditStore.PutDated | src/runtime/audit/store.ts:263-272 | an append keeps it so that every dated file was opened by an event of its date and holds none of a later date |
| AuditStore.PutReadsLast | src/runtime/audit/store.ts:263-272 | so a reader of the whole directory meets the new event last |
| AuditStore.NextChains | src/runtime/audit/store.ts:244-262 | the stored event continues the chain and ids stay distinct, replayed ids included |
| AuditStore.AppendHolds | src/runtime/audit/store.ts:238-274 | one append to a healthy directory leaves it healthy, with the event stored once and its content unchanged |
| AuditStore.AuditDirectory.Append | src/runtime/audit/store.ts:238-274 | the directory and the returned event after an append; a known id returns the stored event and writes nothing |
| AuditStore.AuditDirectory.Verify | src/runtime/audit/store.ts:145-232 | verifies the directory in listing order |
| AuditWriters.StepKeeps | src/runtime/audit/store.ts:238-281 | what every step of every writer keeps, among it that what the lock holder has read is still so |
| AuditWriters.RunVerifies | src/runtime/audit/store.ts:238-288 | after any run of any number of writers with any clocks within four-digit years, crashes and replays included, verification lists the written events in the order they were written, numbered from 1, each id once |
| AuditWriters.RunDated | src/runtime/audit/store.ts:238-288 | after any run every dated file was opened by an event of its own date and holds no event of a later one |
| AuditWriters.LogOnlyGrows | src/runtime/audit/store.ts:238-288 | later logs extend earlier ones |
| HandleTrace.AllClosed | scripts/native/core1681-msi.cs:347-375 | when nothing is left open, whatever was acquired was later closed with status 0 |
| HandleTrace.ClosedOnce | scripts/native/core1681-msi.cs:347-375 | no close is attempted after one that succeeded |
| HandleTrace.LastInFirstOut | scripts/native/core1681-msi.cs:347-375 | what was acquired while a resource was open is closed before that resource is |
| HandleTrace.ViewsCloseFirst | scripts/native/core1681-msi.cs:352-359 | a view's handle is closed only after the view itself was closed with status 0 |
| MsiReader.Budget.Charge | scripts/native/core1681-acquisition.cs:232-233 | refuses exactly charges that are negative or exceed what is left, and then charges nothing |
| MsiReader.Budget.Row | scripts/native/core1681-acquisition.cs:234-235 | the row quotas per table and in all, and the charge for a row |
| MsiReader.Budget.Stream | scripts/native/core1681-acquisition.cs:236-237 | the stream quota and the charge for a chunk |
| MsiReader.Reader.Acquire | scripts/native/core1681-msi.cs:153-189 | a call that returns has published its nonzero handle on top of the open resources, or acquired nothing |
| MsiReader.Reader.Observe | scripts/native/core1681-msi.cs:190-208 | noting an answer, with the native error record it may fetch and close, leaves the open resources as they were |
| MsiReader.Reader.Release | scripts/native/core1681-msi.cs:347-375 | returns only after the newest open resource has been closed with status 0, its view first |
| MsiReader.Reader.ReadTable | scripts/native/core1681-msi.cs:376-415 | however a table ends, the open resources are as before |
| MsiReader.Reader.ReadSummary | scripts/native/core1681-msi.cs:447-481 | however the summary ends, the open resources are as before |
| MsiReader.Reader.Read | scripts/native/core1681-msi.cs:482-517 | whatever the native side answers: if control comes back, no handle is open, every published resource was closed with status 0 after its view if it has one, and the trace is well bracketed; a second call does nothing |
| GrantLedger.RevokeKeeps | scripts/host-runner-service/darwin/service-lasso-host-runner.c:55 | revoking keeps the ledger good whether or not the journal takes the line |
| GrantLedger.AnnounceKeeps | scripts/host-runner-service/darwin/service-lasso-host-runner.c:44-49 | a nonce whose file could be created exclusively was never used, and is noted as issued |
| GrantLedger.InstallKeeps | scripts/host-runner-service/darwin/service-lasso-host-runner.c:59 | installing an issued grant that expires within a minute of the clock keeps the ledger good |
| GrantLedger.AcceptKeeps | scripts/host-runner-service/darwin/service-lasso-host-runner.c:60 | accepting a live grant before its expiry keeps the ledger good; in particular its nonce had not been accepted before |
| GrantLedger.RefuseKeeps | scripts/host-runner-service/darwin/service-lasso-host-runner.c:60 | a refused completion leaves the grant unusable and accepts nothing |
| GrantLedger.OnlyLostSyncSpoils | scripts/host-runner-service/darwin/service-lasso-host-runner.c:48-60 | for one completion of a live grant: its journal lines are "issued" and at most one of "consumed" and "revoked" if and only if it does not happen that the "consumed" append fails after leaving its line and a "revoked" line follows |
| GrantLedger.StepKeeps | scripts/host-runner-service/darwin/service-lasso-host-runner.c:55-60 | every step of the protocol keeps the ledger good |
| GrantLedger.AcceptedAtMostOnce | scripts/host-runner-service/darwin/service-lasso-host-runner.c:44-60 | over every run of issues, completions, revocations and restarts: no two acceptances share a nonce, and each was before its expiry, at most 60 seconds after the clock it was issued by, and journalled as issued and consumed |
| GrantLedger.OrderAfterStep | scripts/host-runner-service/darwin/service-lasso-host-runner.c:44-60 | after any step a nonce's lines are in order if and only if they were before and the step is not its completion with a lost sync and a "revoked" line |
| GrantLedger.OrderedUnlessSpoiled | scripts/host-runner-service/darwin/service-lasso-host-runner.c:44-60 | over every run and for every nonce: its lines are "issued" and at most one of "consumed" and "revoked" if and only if no step of the run was such a completion of it, whatever other appends reported |
| GrantLedger.SpoiledRun | scripts/host-runner-service/darwin/service-lasso-host-runner.c:44-60 | a run of two steps ends with the lines "issued", "consumed", "revoked" |
| GrantLedger.RestartKeeps | scripts/host-runner-service/darwin/service-lasso-host-runner.c:37 | losing the table in a restart keeps the ledger good |
| HostRunner.Runner.Transition | scripts/host-runner-service/darwin/service-lasso-host-runner.c:48 | one append: written, missing, or there but reported as failed |
| HostRunner.Runner.RevokePeer | scripts/host-runner-service/darwin/service-lasso-host-runner.c:56 | afterwards no live grant belongs to the peer, and only its grants were revoked |
| HostRunner.Runner.RevokeExpired | scripts/host-runner-service/darwin/service-lasso-host-runner.c:57 | afterwards every live grant expires after the clock that was read, and only expired ones were revoked |
| HostRunner.Runner.Issue | scripts/host-runner-service/darwin/service-lasso-host-runner.c:59 | an issued grant has a nonce without an earlier output file, one journal line, and expires at most 60 seconds after the clock it was checked against |
| HostRunner.Runner.Install | scripts/host-runner-service/darwin/service-lasso-host-runner.c:59 | the grant goes into a free slot; refused exactly when all 64 are live |
| HostRunner.Runner.Complete | scripts/host-runner-service/darwin/service-lasso-host-runner.c:60-61 | acceptance means a live grant of this peer and this pipe whose expiry was not reached, used up by it; all grants stay accepted at most once |
| HostRunner.Runner.Restart | scripts/host-runner-service/darwin/service-lasso-host-runner.c:37 | the table is lost, journal and output files stay |
| LoginLimiter.Limiter.Consume | src/runtime/auth/local-auth-validate.ts:65-77 | starts a window if none is running and allows the call while the window has fewer than five failures; loopback is always allowed |
| LoginLimiter.Limiter.RecordFailure | src/runtime/auth/local-auth-validate.ts:79-91 | counts the failure in the running window or starts the next one with it |
| LoginLimiter.Limiter.Validate | src/runtime/auth/local-auth-validate.ts:105-144 | the answer and the table after a login call, in every branch |
| LoginLimiter.KeyIsAddress | src/runtime/auth/local-auth-validate.ts:58-60 | two callers are counted together exactly when their addresses differ in surrounding white space only, where a missing or blank address reads "unknown" |
| LoginLimiter.AddressesIndependent | src/runtime/auth/local-auth-validate.ts:58-144 | whoever else calls, an address gets the answers, and is left with the window, it would have alone |
| LoginLimiter.SuccessForgives | src/runtime/auth/local-auth-validate.ts:93-144 | after a login that succeeds the next call from that address has its credentials checked |
| LoginLimiter.FiveLock | src/runtime/auth/local-auth-validate.ts:65-77 | five failures in a window of 15 minutes lock the address for exactly the rest of it |
| LoginLimiter.LoopbackUncounted | src/runtime/auth/local-auth-validate.ts:65-144 | local callers are never locked out and never count against anybody |
| LoginLimiter.RunCharges | src/runtime/auth/local-auth-validate.ts:65-144 | after any failing run the granted checks are spread over windows that start more than 15 minutes apart, and the last ones are charged to the current window |
| LoginLimiter.FivePerWindow | src/runtime/auth/local-auth-validate.ts:65-144 | at most five credential checks of one remote address fall in one window, among calls of any clients, with the clock read twice per call and never running backwards |
| LoginLimiter.NinePerSpan | src/runtime/auth/local-auth-validate.ts:65-144 | any stretch of 15 minutes sees at most nine of them |
| LoginLimiter.NineReached | src/runtime/auth/local-auth-validate.ts:65-144 | nine are possible within one millisecond |
| HttpCache.OnlyDegrades | packages/http-cache-semantics-safe/index.js:394-449 | for a fixed entry and request the answer only gets worse as the clock advances, each check reading the clock anew: served, served while revalidating, not served |
| HttpCache.MissIsFinal | packages/http-cache-semantics-safe/index.js:394-449 | over any number of evaluations a miss is final |
| HttpCache.AnswerSwitches | packages/http-cache-semantics-safe/index.js:394-449 | entry and request alone fix two instants: an evaluation that ends by the first serves without revalidation and one that begins after it never does; the same for the second and being served at all, however the five clock readings of an evaluation are spread |
| HttpCache.NoLifetimeNoHit | packages/http-cache-semantics-safe/index.js:605-664 | an entry that may not be stored or reused, varies on everything, is shared with a private cookie or `proxy-revalidate`, has a lifetime of zero or, without one, an unreadable or past `expires` is never served, whatever else it carries and the request tolerates |
| HttpCache.NeverServed | packages/http-cache-semantics-safe/index.js:394-664 | an entry is served to no request at no time if and only if its lifetime is not positive or it must be revalidated |
| HttpCache.ForbiddenNeverServed | packages/http-cache-semantics-safe/index.js:266-297 | responses that either side forbids to store or reuse, private or authorised ones in a shared cache without leave, and answers of other methods or statuses are never served |
| HttpCache.ServedToItsRequest | packages/http-cache-semantics-safe/index.js:456-500 | a response is only served to a request for the same URL, host, method and varying headers that does not ask for a fresh one |
| HttpCache.ExplicitLifetime | packages/http-cache-semantics-safe/index.js:605-650 | an ordinary response is served exactly while its age is below `s-maxage` in a shared cache, else `max-age`, else the time from its date to `expires` |
| HttpCache.HeuristicLifetime | packages/http-cache-semantics-safe/index.js:652-664 | without an explicit lifetime it is served exactly until its age reaches the heuristic share of the time it had not been modified, or the least time for immutable ones |

## Left out

- ZipVerifier.Observe: archive and member hashes, the claims and the selection
  (`scripts/native/core1681-vsix-bytes.cs:34`), and the fields it reports for diagnosis only.
- `Name` (`scripts/native/core1681-vsix-bytes.cs:21`) is modelled by a function; UTF-8 decoding,
  control characters, upper-casing of a character and normalisation form C are parameters, and the
  culture-sensitive `StartsWith("/")` is a comparison of the first character.
- Unsigned 32-bit arithmetic of the checksum is modelled by bounded numbers and polynomials over
  bits; checked `int` arithmetic by the bound on windows and offsets.
- ZipVerifier.SortByOffset: an insertion sort stands for the library's sort; any order of equal
  offsets is allowed, and acceptance does not depend on it.
- BraceExpand.Append: nothing is said of nested arrays that contain an empty one; `Queue.Extend`
  keeps them out of the expander's queues.
- BraceExpand.WalkNode: for trees without numeric ranges.
- BraceExpand.Expand: for trees without numeric ranges.
- Numeric ranges (`fill-range`, step and range limit) in the expander and the compiler, whose
  library is not part of this model; dots are covered in the round trip only.
- BraceRegex.BackEndsCompare: patterns with a brace that holds just a number, whose expression
  repeats what stands before it.
- BraceRegex.BackEndsAgree: the same.
- Parentheses, quotes, escapes and `$` inside patterns (`BraceLiterals` treats them alone); the options `escapeInvalid`,
  `keepEscaping`, `keepQuotes`, `maxLength`, `rangeLimit` and `nodupes`; the array input and the
  option plumbing of `packages/braces-safe/index.js`; and the console output of `compile.js`.
- Groups that begin with a question mark (`(?:…)`, look-around): the model of regular expressions
  treats them as ill-formed. Patterns that compile to one contain a metacharacter, so where the
  back ends agree is not affected.
- The branches of the compiler for the delimiters of unclosed blocks
  (`packages/braces-safe/lib/compile.js:14-21`).
- BraceParser.Parse: the tree is a value; `parent` and `prev` links and the sharing of nodes are
  represented by the parse state, and the writes of the back ends into the tree by the walk.
- The object graph of BraceGuard.Ast is a function from identities to their `nodes`; getters and
  proxies are not part of this model.
- Canonical JSON, SHA-256 and the file system under the audit log: an event's remaining fields
  are one string, the hash is a parameter, an append happens whole or not at all.
- AuditFiles.ListAuditFiles: names other than dates are ordered by character value where the
  source uses the locale's order.
- Strings are sequences of Unicode scalar values, so beyond the basic plane order and length
  differ from UTF-16 code units: the order of log file names and the brace length limit.
- AuditWriters.RunVerifies: years outside 0000 to 9999, whose timestamps do not begin with a
  four-digit year, are excluded by the request step.
- Querying and paging of the audit log (`src/runtime/audit/store.ts:341-434`).
- The values the MSI reader collects (cells, schema join, receipt): only which calls are made and
  what they acquire; native answers and thrown exceptions are unconstrained, and the retention
  loop is an end without return.
- The identity checks of the host runner (code signing, process image, audit token, Mach and XPC
  calls) and the contents of its output files are arbitrary answers; torn journal lines and the
  tampering of others with its state directory are not part of this model.
- The loopback test of `src/runtime/auth/request-policy.ts:140-150`, credential verification and
  session issue: answers given with each login call.
- The constructor, header parsing, serialisation and header rewriting of the HTTP cache: parsed
  values are inputs; floating-point times are real numbers.
- Authenticode and OPC inspection, service admission, the command line, contracts, broker
  clients, catalogue install, platform facades and the operator UI.
