# Proofs about xdelta

This project models the algorithms of xdelta and proves them right, in Dafny.  It covers the
delta algebra, the resumable decoder and the two secondary compressors of xdelta3, and the
generator and applier of xdelta1, with the small parts they stand on.

A delta is a program of RUN, ADD and COPY instructions (section 3 of RFC 3284) whose target
copies may overlap what they write.  `Delta` gives such a program two meanings: the bytes it
makes of a source, and the origin of every byte without any source.  `Vcdiff` is the reference
interpreter of one window.  On these rest

- `Merge`, `Flatten`, `Recode`, `MergeCommand` and `MergeLimits`: deltas are flattened, merged without
  looking at a file and cut into windows again; merging is composition.  A valid delta can hold empty
  instructions that the program cannot write again; when it can is said exactly.
- `Decoder`: emitting a window with source blocks of any size, interrupted at any time, refines
  the reference interpreter.  `StreamDecode`: how the input is chopped makes no difference.
  `WireFormat`: the bytes of a delta file in the order of section 4 of RFC 3284, and what the
  decoder makes of them.  `BlockDecode`: all at once.

The compressors are

- DJW (`Heap`, `Sums`, `PrefixTree`, `TreeLengths`, `Optimal`, `Shortest`, `Huffman`, `Codes`, `Mtf`,
  `MtfDecode`, `DjwFormat`, `DjwExample`, `DjwDecode`, `DjwBest`, `DjwEncode`, `Djw`, `DjwGroups`): Huffman
  lengths with a limit, canonical codes, move-to-front with runs, and the whole section, up to the
  round trip and the size of what is accepted.
- FGK (`FgkShape`, `FgkLinks`, `FgkUpdate`, `FgkStage`, `FgkTree`, `Fgk`, `FgkCodec`, `FgkOrder`): the
  adaptive tree, first as places in an order (`FgkShape`), then as the pointers of the program, then
  the coder and the round trip, and the codes of bytes that come for the first time.

xdelta1 is in `Pages`, `Rolling`, `Matching`, `Control`, `Search`, `Generate`, `Pack`, `Apply` and `Xdelta`,
up to generate-then-apply.  `LinkedList`, `Recency` and `BlkCache` are the block cache, `Integers` and `Hash`
the base-128 integers and the checksums of xdelta3.  `Bytes`, `Binary`, `BitIO`, `Blocks` and `Arith`
are shared.

Objects the program updates in place are classes, and arrays it fills are arrays; every such
method is proved against a function of the values involved, about which the laws are proved.
`dafny verify dfyconfig.toml` checks everything.

Code and documentation disagree in one place.  The header of `main_getblk_func` speaks of an LRU
cache; for a source that cannot seek the program replaces blocks in turn, and that is modelled.

## Model
| member | source | states |
|---|---|---|
| MergeCommand.MergeDeltas | xdelta3/xdelta3-main.h:1979-2299 | The merge command as a whole, for any number of valid deltas, empty instructions included. It goes through exactly when every delta takes only bytes that the one before it has written and the merged program can be written. Its windows are those of the last delta, in number but for windows at the end that hold nothing, in length and in checksum; they are a valid delta exactly when the program can be cut, and then it turns every source the first delta applies to into what all the deltas make of it in turn. Otherwise the first instruction that cannot be merged decides the status. Deltas without empty instructions always go through if each follows the one before it |
| MergeCommand.ChainIff | xdelta3/xdelta3-main.h:1979-2063 | The fold accepts a chain if and only if every delta takes only bytes the one before it has written, and even its empty copies name one of them |
| MergeCommand.AllThere | xdelta3/xdelta3-main.h:2153-2171 | As many windows are written as the last delta has, if and only if it has one window or its last window holds something |
| MergeCommand.EachWindow | xdelta3/xdelta3-main.h:2153-2171 | Two deltas that make the same file in windows of the same lengths make the same bytes in each window |
| MergeCommand.ChecksumsCarry | xdelta3/xdelta3-main.h:2161-2171 | Wherever every checksum of the last delta is right for what it decodes, every checksum written is right for the bytes of its window |
| MergeLimits.CopyAtBorderFails | xdelta3/xdelta3-main.h:2216-2224 | A valid delta with an empty copy of the target at the first byte of its second window: the assertion on its address fails |
| MergeLimits.EmptyAtEndFails | xdelta3/xdelta3-main.h:2153-2158 | A valid delta whose last instruction is empty: a window is asked for that is not there |
| MergeLimits.EmptySourceFails | xdelta3/xdelta3-main.h:2252-2258 | A valid delta whose only copy from the source is empty: the assertion on the source window fails |
| MergeLimits.BehindSourceFails | xdelta3/xdelta3-main.h:2206-2258 | A valid delta that is written without an error, as a window that no decoder accepts: an empty copy names the byte behind the source window |
| MergeLimits.HollowEndIsDropped | xdelta3/xdelta3-main.h:2153-2171 | A valid delta of two windows, the second of which holds nothing: only one can be written with the same lengths and checksums |
| Merge.WholeState.MergeInputs | xdelta3/xdelta3-merge.h:437-481 | For any two deltas: the status is that of the first instruction of the second one that cannot be merged (a VCD_TARGET copy or an address behind the first output is invalid input, a copy that starts inside the first output and ends behind it runs over the end of the instruction array); without one the result is well formed, its symbolic file is the composition of the two symbolic files, and its target copies are those of the second delta, unmoved |
| Merge.OutcomeOk | xdelta3/xdelta3-merge.h:437-481 | A merge goes through if and only if no instruction is a VCD_TARGET copy and every source copy starts and ends inside the first output |
| Merge.OutcomeFirst | xdelta3/xdelta3-merge.h:437-481 | Otherwise the first instruction that is refused or runs over decides the status, whatever follows it |
| Merge.WholeState.MergeSourceCopy | xdelta3/xdelta3-merge.h:330-433 | The recursion ends for every well-formed first delta, because the end address of the copy drops at every call; what it appends has exactly the origins that the copied range of the first output has, and none of it copies from the target. It fails exactly where the address is behind the first output or the range ends behind it |
| Merge.WholeState.FindPosition | xdelta3/xdelta3-merge.h:291-328 | Reports an error exactly when the address is not below the length of the output, and otherwise finds the instruction whose bytes contain the address; the "internal error" after the search is never reached |
| Merge.WholeState.MergeRun | xdelta3/xdelta3-merge.h:225-248 | Appends one run that owns its byte: the symbolic file grows by the origins of the input run, all else stays |
| Merge.WholeState.MergeAdd | xdelta3/xdelta3-merge.h:250-275 | Appends one add that owns its bytes: the symbolic file grows by the origins of the input add, all else stays |
| Merge.WholeState.MergeTargetCopy | xdelta3/xdelta3-merge.h:277-289 | Appends the copy unchanged: the symbolic file grows by the forward copy, which may overlap what it writes |
| Merge.WholeState.MergeInputOutput | xdelta3/xdelta3-merge.h:206-223 | The merged delta, instruction by instruction the one the merge function gives, replaces this one; on an error this one is unchanged |
| Merge.MergeArguments | xdelta3/xdelta3-main.h:1979-2063 | The fold over the -m arguments: the status is that of the first delta that cannot be merged, the fold succeeds if and only if every delta reads only what the one before it writes, and then the merged delta does to every source what the arguments do to it in turn |
| Merge.ChainOutcomeOk | xdelta3/xdelta3-main.h:2000-2030 | A chain of deltas merges exactly when each link does |
| Flatten.AppendInst | xdelta3/xdelta3-merge.h:125-171 | One parsed half-instruction made absolute: the whole-file program stands for the bytes written so far and the rest of the window is still to be read |
| Flatten.AppendWindow | xdelta3/xdelta3-merge.h:173-202 | Of every window: its instructions with absolute addresses, as far as they can be read; a valid window adds exactly its own bytes to the symbolic file, no target copy of it reads below the window, and a window that is refused or lacks literal data is invalid |
| Flatten.FlattenFile | xdelta3/xdelta3-main.h:2067-2075 | Of every delta: its instructions one by one, with a record of its windows that follow each other without a gap; a valid delta gives a well-formed program with the same symbolic file, whose target copies stay inside their windows; an error means that the delta is invalid |
| Flatten.FlattenedDecodes | xdelta3/xdelta3-merge.h:125-202 | For every source: the flattened program applies to it exactly when the windows decode against it, and gives the concatenation of what they decode to |
| Flatten.FileEval | xdelta3/xdelta3-merge.h:173-202 | A sequence of windows decodes against a source exactly when it is valid without one and takes no byte from behind the end of the source; the bytes are then those the symbolic file names |
| Flatten.ValidIsTrusted | xdelta3/xdelta3-merge.h:125-202 | What flattening does not check holds of every valid window: the literal data suffices and the sizes add up to the length of the window |
| Recode.MergeOutput | xdelta3/xdelta3-main.h:2079-2299 | Any program whose target copies stay in their windows, empty instructions included, cut at the recorded window borders. It is written without a failed assertion exactly when there is a window, the last instruction is not empty, no empty target copy stands at the first byte of a window, and the hull of the source copies of a window is empty in none that has any; the windows written decode to the symbolic file of the program if also no empty source copy at the first byte of a window names the end of the hull, and are invalid otherwise. Each window has the length and the checksum recorded for it, and all are written but those at the end that hold nothing. Every copy window lies inside the part of the source that the program needs; an internal error is only a window whose recorded offset is not where it starts |
| Recode.EncodeWindow | xdelta3/xdelta3-main.h:2135-2263 | One window, empty instructions included: no assertion fails exactly when the window can be written, and then it has the length and the checksum it was given, its copy window is the hull of the source copies, and the matches and literal bytes collected decode to exactly the window, or to nothing where an empty copy names the end of the copy window; the instruction at the border is shortened in place and goes on in the next window |
| Recode.MergeFinal | xdelta3/xdelta3-main.h:2079-2299 | The last delta merged and written: the status is that of the merge if it fails, the command goes through exactly when the merged program can be written, the windows have the lengths and checksums of the last delta, and where the program can be cut they turn every source the first delta applies to into what the two deltas do one after the other |
| Recode.SolidCuttable | xdelta3/xdelta3-main.h:2135-2263 | Where no instruction is empty there is nothing to stumble over: the program can be cut into any windows |
| Vcdiff.WindowEval | xdelta3/xdelta3-decode.h:640-712 | A window decodes against a source if and only if it runs symbolically and every source byte it names exists; both runs then give the same bytes |
| Decoder.Stream.ParseHalfinst | xdelta3/xdelta3-decode.h:237-306 | Refuses exactly the half-instructions that end behind the window, lack an address, or copy from an address that is not yet written or from a range that leaves the copy window; otherwise the address moves from its section into the instruction |
| Decoder.Stream.DecodePair | xdelta3/xdelta3-decode.h:309-338 | Parsing an opcode keeps the meaning of the decoder state; if it is refused the reference interpreter fails as well |
| Decoder.Stream.OutputHalfinst | xdelta3/xdelta3-decode.h:342-511 | One round keeps the meaning of the decoder state, advances by at most one source block, and leaves everything as it was when a block must be asked for; a target copy, overlapping or not, reads written bytes only |
| Decoder.Stream.OutputSourceCopy | xdelta3/xdelta3-decode.h:427-477 | As many bytes as one block holds are copied; what is left of the copy means what the rest of the instruction meant, for every block size |
| Decoder.Stream.Emit | xdelta3/xdelta3-decode.h:640-712 | From every reachable state the call either keeps the meaning (a block is asked for, or the application fails), or outputs exactly what the reference interpreter makes of the rest of the window, with both sections used up and the checksum right, or rejects a window that the reference interpreter rejects, whose checksum is wrong or whose source is too short |
| Decoder.DecodeInterrupted | xdelta3/xdelta3-decode.h:640-712 | Whatever the block size is, every answered request for a block takes the decoder further, so that the requests come to an end; a window that is output is what the reference interpreter decodes, a valid window of a complete source is rejected only for its checksum, and nothing else can happen unless the block reader of the application fails |
| StreamDecode.RunSplit | xdelta3/xdelta3-decode.h:714-1100 | Chunking invariance: for every state of the decoder, running on a then b tells the same events, fails alike and ends in the same state as running on a followed by b |
| StreamDecode.StepSplit | xdelta3/xdelta3-decode.h:714-1100 | One state of the decoder with more input behind it: the same result with the extra input left over, or, where it had to wait, what the state it stopped in makes of the extra input |
| StreamDecode.StepRank | xdelta3/xdelta3-decode.h:714-1100 | Every state that does not wait consumes input or comes closer to the end of its window, so the decoder never loops |
| StreamDecode.Stream.OneState | xdelta3/xdelta3-decode.h:714-1100 | The program on one state does what the step function says, in all 24 states |
| StreamDecode.Stream.DecodeBytes | xdelta3/xdelta3-decode.h:39-63 | As many bytes of a field as there are: complete exactly when enough has come, and the field then holds the bytes of all pieces in order |
| StreamDecode.Stream.DecodeInput | xdelta3/xdelta3-decode.h:714-1100 | One call runs to the next event, error or request for input, and loses nothing of the run still to come |
| StreamDecode.Stream.DecodePieces | xdelta3/xdelta3-decode.h:714-1100 | An input that arrives in any pieces gives the events, and the success or failure, of the whole input in one piece |
| WireFormat.DeltaRead | xdelta3/xdelta3-decode.h:714-1100 | Every delta, written field by field in the order of section 4 of RFC 3284 with any values in the fields: the decoder refuses the header, or tells of one window after the other what its fields say, up to one that is refused. What is refused is said field by field; of a window that is not, the decoder holds exactly the copy window, target length, checksum and sections that were written when it decompresses and executes it |
| WireFormat.HeaderRead | xdelta3/xdelta3-decode.h:747-880 | The header is accepted exactly with the magic number and version, an indicator of three bits, a known secondary compressor, no code table, and an application header whose size can be raised by one |
| WireFormat.HeadRead | xdelta3/xdelta3-decode.h:881-1034 | A window up to its sections is announced exactly when every number fits, the copy window lies where it may, the window is not too large, the delta indicator is allowed, and the redundant length is that of the fields and sections after it; it is then the first of the file or a later one, and all fields are held |
| WireFormat.WindowRead | xdelta3/xdelta3-decode.h:881-1100 | One window from its first byte to its last, skipped, only decompressed or executed: one event for its start, one for its output and one for its end, and the decoder stands between two windows again |
| WireFormat.HeaderOnlyRead | xdelta3/xdelta3-decode.h:543-636 | An application that wants no more than the header is told of an empty window |
| BlockDecode.BlockStream.EmitWindow | xdelta3/xdelta3-decode.h:640-712 | Emission within the whole decoder: a window is told, refused, or left as it is for a block that is missing; served with the block it gets strictly further |
| BlockDecode.BlockStream.DecodeInput | xdelta3/xdelta3-decode.h:714-1100 | One call of the whole decoder runs to the next event, error, request for input or request for a block, and loses nothing of the run still to come |
| BlockDecode.BlockStream.DecodePieces | xdelta3/xdelta3-decode.h:640-1100 | The input chopped in any way and the source in blocks of any size, with every request answered: the decoder comes to an end and tells the events of the whole input in one piece, each window being what the reference interpreter makes of its sections, unless a window takes more from the source than there is |
| BlockDecode.WindowExecutes | xdelta3/xdelta3-decode.h:640-712 | A window that arrived is executed as the reference interpreter does it with the copy offset, copy length, target length and literal data it was sent with, and accepted if the checksum it was sent with is right |
| Heap.HeapInsert | xdelta3/xdelta3-djw.h:231-243 | The heap order is kept and the heap holds its old entries and the new one |
| Heap.HeapExtract | xdelta3/xdelta3-djw.h:245-278 | Returns the first entry of the heap; the rest is a heap of exactly the other entries |
| Huffman.BuildTree | xdelta3/xdelta3-djw.h:405-417 | Joining the two lightest subtrees until one is left gives a tree over the weighted symbols, each join weighing what its children do, built greedily in the order of weights |
| Huffman.TreeCodeLengths | xdelta3/xdelta3-djw.h:421-443 | The lengths are the depths of the symbols in the tree, overflow is reported exactly when one is beyond the limit, and the bits are the weighted sum of the lengths |
| Huffman.OnePass | xdelta3/xdelta3-djw.h:367-460 | One pass: it overflows exactly when every best code for the weights has a word beyond the limit, which takes weights of at least the Fibonacci number of the limit plus three, and then every weight, zero included, is halved and raised by one; otherwise the lengths are the best there are |
| Huffman.BuildPrefix | xdelta3/xdelta3-djw.h:342-461 | Terminates; every pass before the last had a tree that was too deep. The lengths obey the limit, are non-zero exactly for the symbols weighted in the last pass, have a Kraft sum of exactly one, no prefix code for these weights is cheaper, and among the cheapest none has a shorter longest word; without an overflow the weights are those of the input |
| Huffman.ReweightedAt | xdelta3/xdelta3-djw.h:457-460 | The weights after any number of passes, in closed form: how far a weight is above two is halved in each |
| Huffman.CompanyIs | xdelta3/xdelta3-djw.h:397-402 | A symbol that occurs alone is given the first one for company, and the first one the last |
| Optimal.TreeIsOptimal | xdelta3/xdelta3-djw.h:405-443 | Huffman's theorem: the lengths of a greedily built tree cost no more than those of any code that covers the same symbols and obeys the Kraft inequality |
| Shortest.TreeIsShortest | xdelta3/xdelta3-djw.h:405-443 | Among the codes that cost as little, none has a shorter longest word than the tree, which joins the less deep of two subtrees of equal weight first |
| TreeLengths.TreeKraft | xdelta3/xdelta3-djw.h:405-443 | The code lengths of a tree leave no code word unused |
| TreeLengths.DeepIsHeavy | xdelta3/xdelta3-djw.h:367-460 | A symbol at depth d needs a tree of total weight at least the Fibonacci number of d plus two; the reason why re-weighting ends |
| Codes.BuildCodes | xdelta3/xdelta3-djw.h:463-497 | Every symbol with a length gets the canonical code word of its place among the lengths |
| Codes.CodeStarts | xdelta3/xdelta3-djw.h:463-497 | The word of the first symbol, in the order of length and number, is all zeros |
| Codes.CodeFollows | xdelta3/xdelta3-djw.h:463-497 | The word of every other symbol is that of the symbol before it plus one, lengthened with zeros |
| Codes.BuildDecoder | xdelta3/xdelta3-djw.h:1243-1309 | For all lengths within the limit, Kraft or not, the tables are the canonical limit, base and order of these lengths |
| Codes.TableIsSound | xdelta3/xdelta3-djw.h:1243-1309 | Every offset such a table can produce names a symbol, so the lookup never leaves the order |
| Codes.DecodeSymbol | xdelta3/xdelta3-djw.h:1311-1372 | Reads a symbol and exactly its bits, or fails, just as the walk over the tables does on the bits left |
| Codes.WalkCode | xdelta3/xdelta3-djw.h:1311-1372 | For lengths that obey the Kraft inequality, the walk on any code word followed by any bits stops after exactly the bits of the word, with its symbol |
| Codes.PrefixFree | xdelta3/xdelta3-djw.h:463-497 | No code word begins another one |
| Mtf.ToFront | xdelta3/xdelta3-djw.h:296-306 | The entry moves to the front, those before it move back by one, the others stay |
| Mtf.EmitRun | xdelta3/xdelta3-djw.h:308-324 | A run is sent as the digits of its length in bijective base two, least significant first, and the frequencies count what was sent |
| Mtf.DigitsWeigh | xdelta3/xdelta3-djw.h:308-324 | The digits sent for a run stand for its length: code 0 for one, code 1 for two, each place weighing twice the one before |
| Mtf.ComputeMtf12 | xdelta3/xdelta3-djw.h:502-548 | The codes written are the move-to-front and run coding of the symbols, no more of them than symbols, and the frequencies count them |
| Mtf.EncodeBound | xdelta3/xdelta3-djw.h:502-548 | Never more codes than symbols, and no code beyond the number of places |
| MtfDecode.DecodeRuns | xdelta3/xdelta3-djw.h:1420-1478 | On every input, corrupt or not, the program does what the decoding function does: the same values and the same bits left, or a failure |
| MtfDecode.RoundTrip | xdelta3/xdelta3-djw.h:1420-1478 | Decoding the words of the encoded values gives the values and leaves the bits after them, for every sequence of values with the zeros of later groups left out |
| MtfDecode.ZerosRestored | xdelta3/xdelta3-djw.h:580-598 | Leaving out the zeros of later groups is undone if and only if every group has its zeros where the group before it has them |
| DjwEncode.BuildCode | xdelta3/xdelta3-djw.h:551-578 | Every symbol that occurs has a word, the cost is the exact number of bits, and no code for the counts of the symbols is cheaper unless their best tree is too deep; then the lengths are the best for the weights of the first pass whose tree is not |
| DjwBest.StartCheapest | xdelta3/xdelta3-djw.h:342-461 | Lengths that are best for the weights of the first pass are the cheapest code for the counts, also where a symbol alone was given another one for company |
| DjwBest.PassesAre | xdelta3/xdelta3-djw.h:342-461 | How many passes are needed is determined by the counts |
| DjwEncode.EncodePrefix | xdelta3/xdelta3-djw.h:609-658 | The prefix written is a header and run coding that describes the lengths, with the best code for what is sent |
| Djw.ComputeMultiPrefix | xdelta3/xdelta3-djw.h:580-598 | The lengths of all groups, without the zeros that later groups share with the first |
| Djw.EncodeSingle | xdelta3/xdelta3-djw.h:843-890 | One group: what is written is a well-formed layout of the data whose lengths are the best for its byte counts, in as many bits of data as the cheapest code needs; it is accepted if and only if the flag is set or the sizes leave enough to be saved |
| Djw.EncodeSeveral | xdelta3/xdelta3-djw.h:891-1236 | Several groups that agree on the bytes without a word: what is written is a well-formed layout of the data with the best code for its lengths and selectors, accepted if and only if the flag is set or the sizes leave enough to be saved |
| Djw.EncodeHuff | xdelta3/xdelta3-djw.h:805-1236 | Every non-empty input that is accepted is written as such a layout with fewer than eight zero bits after it; it is accepted exactly under the conditions of one group or of several, and with the flag set no input is declined |
| DjwExample.SectionWritten | xdelta3/xdelta3-djw.h:805-890 | A section of two bytes written out bit by bit, with the constants of the program |
| DjwExample.SelectorsWritten | xdelta3/xdelta3-djw.h:891-1236 | The fields that only sections of several groups have, written out for two groups |
| DjwDecode.DecodeHuff | xdelta3/xdelta3-djw.h:1491-1680 | Never leaves its arrays, whatever the input is; of a well-formed layout followed by any bits it returns exactly the data and reads no further bit |
| Djw.RoundTrip | xdelta3/xdelta3-djw.h:805-1680 | Compressing and decompressing: what is not declined comes back byte for byte, and of the input with any bytes after it exactly the bytes sent are consumed |
| DjwGroups.GroupLengths | xdelta3/xdelta3-djw.h:1040-1066 | The code lengths of each group from its counts, every byte that occurs counting for one at least: the best lengths for these weights, or, where the tree was too deep, for the weights after so many passes |
| DjwGroups.ZerosAgree | xdelta3/xdelta3-djw.h:580-598 | Groups agree on the bytes without a word, as the coding of the lengths takes for granted, if and only if every byte has a word anyway or all groups went the same way, none of them or all of them having weighed their symbols again |
| DjwGroups.GroupsPlan | xdelta3/xdelta3-djw.h:580-1066 | Lengths made from the counts of groups can be sent exactly under that condition |
| DjwGroups.GroupsRoundTrip | xdelta3/xdelta3-djw.h:805-1680 | Several groups from their counts on, each weighing in total less than the Fibonacci number of the limit plus three, so that no tree is too deep: what is not declined comes back byte for byte, and exactly the bytes sent are consumed |
| BitIO.BitWriter.EncodeBits | xdelta3/xdelta3-second.h:179-200 | The bits written grow by the binary digits of the value, most significant first |
| BitIO.BitWriter.EncodeBit | xdelta3/xdelta3-second.h:150-171 | The bits written grow by one bit, over byte and page borders |
| BitIO.BitWriter.FlushBits | xdelta3/xdelta3-second.h:173-177 | The bytes hold all bits written and fewer than eight zero bits of padding |
| BitIO.BitOrder | xdelta3/xdelta3-second.h:150-171 | Bit k of a byte is its bit of weight 2^k: bytes are filled from their least significant end |
| BitIO.BitReader.DecodeBits | xdelta3/xdelta3-second.h:24-67 | Succeeds exactly when enough bits are left, returns their value and consumes them |
| FgkShape.Updated | xdelta3/xdelta3-fgk.h:276-293 | While a symbol stays unseen, an update by any symbol keeps all invariants: a binary tree over the places, every unseen symbol at the first place, weights that add up, neighbours ordered by weight |
| FgkShape.Climb | xdelta3/xdelta3-fgk.h:286-292 | The walk of an update from any node that stands right ends at the root with a tree whose weights add up and whose neighbours are ordered by weight |
| FgkShape.LiftedStands | xdelta3/xdelta3-fgk.h:286-290 | One turn of the walk keeps all of this except at the next node, which comes strictly later in the order |
| FgkShape.BesideLifted | xdelta3/xdelta3-fgk.h:363-378 | The special turn at the parent of the unseen symbols keeps it too |
| FgkShape.SwapTree | xdelta3/xdelta3-fgk.h:295-348 | Trading places with the leader of the block keeps the tree: the two are never ancestor and descendant |
| FgkShape.InsertedGood | xdelta3/xdelta3-fgk.h:402-469 | A symbol seen for the first time is added without disturbing the order of the weights |
| FgkLinks.MovedRepresents | xdelta3/xdelta3-fgk.h:295-348 | The pointer changes of an exchange make the links of the exchanged tree: parents, children, neighbours and block leaders |
| FgkTree.Fgk.MoveRight | xdelta3/xdelta3-fgk.h:295-348 | A node is exchanged with the leader of its block in the pointer tree, unless it is the leader, its parent is, or it has no weight yet |
| FgkTree.Fgk.Promote | xdelta3/xdelta3-fgk.h:351-397 | Afterwards there is one block for each weight, led by its last node, for the tree in which the node weighs one more |
| FgkTree.Fgk.IncreaseZeroWeight | xdelta3/xdelta3-fgk.h:402-469 | While another symbol is unseen: the new join and the new symbol are linked in, and the list and the count of the unseen symbols are without it |
| FgkTree.Fgk.EliminateZero | xdelta3/xdelta3-fgk.h:489-505 | The symbol leaves the list of unseen symbols, the others keep their order |
| FgkTree.Fgk.FactorRemaining | xdelta3/xdelta3-fgk.h:551-565 | The count of unseen symbols goes down by one and is split into a power of two and a rest |
| FgkTree.Fgk.Lift | xdelta3/xdelta3-fgk.h:286-290 | One turn of the loop over pointers is one turn of the walk over the tree, and every node moves strictly up |
| FgkTree.Fgk.UpdateTree | xdelta3/xdelta3-fgk.h:276-293 | The pointer tree represents the updated tree, with sibling order, weights, blocks and leaders, free list and counts intact |
| Fgk.Coder.FindNthZero | xdelta3/xdelta3-fgk.h:475-486 | The place of a symbol in the list of unseen symbols |
| Fgk.Coder.NthZero | xdelta3/xdelta3-fgk.h:607-619 | The symbol at a place of that list, and the last one for a number too high |
| Fgk.FactoredBits | xdelta3/xdelta3-fgk.h:551-565 | The number of bits for an unseen symbol, computed from the power and the rest, is the least that can tell all unseen symbols apart |
| Fgk.Coder.EncodeBits | xdelta3/xdelta3-fgk.h:214-259 | The bits of any symbol in the present tree, last bit first, the last unseen one included |
| Fgk.Coder.EncodeData | xdelta3/xdelta3-fgk.h:214-263 | The bits of a symbol in the present tree, last bit first, and the updated tree |
| Fgk.Coder.DecodeBit | xdelta3/xdelta3-fgk.h:570-605 | Reading the bits of a symbol one by one, the end is recognised at the last bit and not before |
| Fgk.Coder.DecodeSymbol | xdelta3/xdelta3-fgk.h:625-646 | The symbol that was encoded, for the last unseen one whatever an earlier number has left behind |
| Fgk.Coder.DecodeData | xdelta3/xdelta3-fgk.h:625-652 | The symbol that was encoded, and the same updated tree as the encoder has |
| FgkCodec.RoomFor | xdelta3/xdelta3-fgk.h:402-469 | A symbol that does not come before the last byte leaves the tree in its regular phase for all data |
| FgkCodec.EncodeFgk | xdelta3/xdelta3-fgk.h:667-692 | What is written are the codes of the data, each in the tree its predecessors have left, and padding; the last byte may be the last symbol that has not been seen, which needs no number |
| FgkOrder.NewCode | xdelta3/xdelta3-fgk.h:214-259 | The code of a byte that has not come before: the path to the unseen symbols, and the number of unseen bytes below it, in as many bits as are needed to tell the unseen bytes apart |
| FgkOrder.EncodedIsCodes | xdelta3/xdelta3-fgk.h:667-692 | What is written is the codes of the bytes one after the other, each in the tree that those before it leave |
| FgkOrder.FirstCode | xdelta3/xdelta3-fgk.h:180-201 | The first byte is sent as its own eight bits |
| FgkOrder.SecondCode | xdelta3/xdelta3-fgk.h:214-259 | Any two bytes, bit by bit |
| FgkOrder.UnseenAt | xdelta3/xdelta3-fgk.h:489-505 | In every tree an encoder reaches, the list of unseen symbols holds the bytes that have not come yet in increasing order |
| FgkCodec.DecodeFgk | xdelta3/xdelta3-fgk.h:694-736 | Encoder and decoder run in lockstep: of these codes followed by any bits come the data, and no further bit is read |
| FgkCodec.RoundTrip | xdelta3/xdelta3-fgk.h:667-736 | All data that do not go on after every byte has come, be it with the last byte, come back byte for byte, and exactly the bytes sent are consumed |
| Rolling.InitChecksum | xdelta1/xdelta.c:151-166 | The checksum of a window, both sums modulo the word size |
| Rolling.RolledIsFresh | xdelta1/xdelta.c:821-828 | Rolling the checksum on by one byte gives what computing it afresh would |
| Pages.MapPage | xdelta1/xdelta.c:507-538 | Fails exactly behind the last page; otherwise the bytes in memory are those of the page |
| Matching.CompareChunk | xdelta1/xdelta.c:626-675 | The length of agreement of two stretches: all bytes before it agree, and it is maximal |
| Matching.MatchBackward | xdelta1/xdelta.c:573-599 | The bytes before the match agree as far back as reported, and the match stops only at a difference or at the limit, which is the page in memory, the beginning of the source or what has been described already |
| Generate.Generator.TryMatch | xdelta1/xdelta.c:540-709 | A match is taken exactly if at least a window agrees, with as much before and after it as agrees; what lies before it is inserted first, and the control made so far still describes the target. Without a match nothing is written and the mapped page is the same |
| Generate.Generator.MatchForward | xdelta1/xdelta.c:607-679 | The forward match is maximal, and where it crosses into another page what had to be inserted has been written from the page that was mapped, and the match is long enough to be taken |
| Generate.Generator.RegionInsert | xdelta1/xdelta.c:450-474 | The bytes inserted are those of the target at the place reached, from the mapped page |
| Generate.Generator.RegionCopy | xdelta1/xdelta.c:476-488 | A maximal copy extends what is described of the target by the copied range |
| Generate.Generator.ControlCopy | xdelta1/xdelta.c:1197-1225 | An instruction is added, or the last one grows if this one continues it; position, flag and length are then those the rules give, the stale position included |
| Control.CopyKeeps | xdelta1/xdelta.c:1197-1225 | A maximal copy never continues the instruction before it, and keeps all that a control must satisfy: the output so far is the target so far, and the sequential flags are true, of files exactly when they can be |
| Control.InsertKeeps | xdelta1/xdelta.c:450-474 | So does inserting the next bytes of the target |
| Generate.Generator.ScanPage | xdelta1/xdelta.c:746-829 | A page is searched window by window with the rolling checksum, to the first match or the end of the page: the search of the reference goes on from there |
| Generate.Generator.TryWindow | xdelta1/xdelta.c:772-808 | One window: the entry its checksum leads to is tried if it names that checksum, and the search goes on behind the match or at the next window |
| Search.FoundIsLongest | xdelta1/xdelta.c:540-709 | A match that is found agrees with the target; it ends where the files differ or one of them ends, and begins where they differ, the source or the page begins, or the target is described already |
| Search.NothingFound | xdelta1/xdelta.c:772-808 | Nothing is found for a window if and only if its slot is empty, the checksum named there is another, or every agreement around the window is shorter than a window |
| Generate.Generator.ComputeCopies | xdelta1/xdelta.c:711-869 | For every content of the hash table with entries in range, all of a target of at least one window is described, by the matches the search of the reference takes and with what lies between them inserted |
| Generate.Generator.GenerateDelta | xdelta1/xdelta.c:948-1067 | For any sources, page sizes, checksums and hash function the control and the data describe exactly the target; it is refused only for too many sources. Unless there is too little to go by, the matches are those of the search with the table filled; every window on one page that equals a block with the right checksum is copied if its slot names that block, and a target that is its only source is one copy and no inserted byte if the checksum of its first block is right |
| Generate.Generator.BuildTable | xdelta1/xdelta.c:1011-1045 | A slot is empty exactly if no block belongs there; otherwise it names a block that does, of the last source that has one the first |
| Search.SearchCopies | xdelta1/xdelta.c:711-869 | From any state of the search: nothing made before is lost, all of the target is described, and every window still to come that the table leads to an equal block is copied |
| Search.SameIsOneCopy | xdelta1/xdelta.c:711-869 | A target that is its only source, on pages of at least a window, is one copy of all of it, whatever other blocks share a slot |
| Pack.Reindex | xdelta1/xdelta.c:1148-1161 | Exactly the instructions of one source get its new number |
| Pack.AddInfos | xdelta1/xdelta.c:1163-1185 | Sources that are used are renumbered in order, each instruction once, and keep their instructions |
| Pack.PackInstructions | xdelta1/xdelta.c:1340-1379 | Offsets of sequential sources become zero and nothing else changes; the assertion of the program holds wherever the flags are true |
| Pack.UnpackInstructions | xdelta1/xdelta.c:1296-1338 | Fails exactly for an instruction without a source; otherwise the offsets of sequential sources are the sums of their earlier lengths, and output places are the sums of all earlier lengths |
| Pack.UnpackPacked | xdelta1/xdelta.c:1296-1379 | Unpacking what was packed restores the instructions if and only if the sequential flags are true |
| Apply.CopyStream | xdelta1/xdmain.c:1391-1456 | The next bytes of a stream, or failure exactly where it has too few |
| Apply.CopyPaged | xdelta1/xdmain.c:1391-1456 | A range inside a file, gathered from its pages for every page size; beyond the end of the file an error where the file ends with a full page or the range starts on a later page, and otherwise no end, or bytes from behind the page |
| Apply.CopyDeltaRegion | xdelta1/xdapply.c:35-60 | For all instructions, the stream being read in order: the first one that cannot be carried out decides how the run ends, and otherwise the output is what the instructions name |
| Apply.RunIsOutput | xdelta1/xdapply.c:35-60 | A run comes to its end if and only if every instruction has a source and asks for nothing or for a range inside it; the output is then the concatenation of the ranges |
| Xdelta.RoundTrip | xdelta1/xdelta.c:948-1067 | Generate, renumber, pack, unpack and apply: the output is the target, for any target, sources, page sizes, checksums and hash function |
| LinkedList.Links.Add | xdelta3/xdelta3-list.h:30-35 | The four links set |
| LinkedList.Links.PushBack | xdelta3/xdelta3-list.h:37-39 | The element becomes the last of the circular list |
| LinkedList.Links.Remove | xdelta3/xdelta3-list.h:46-50 | The element leaves the list, the others keep their order |
| LinkedList.Links.PopFront | xdelta3/xdelta3-list.h:58-62 | The first element leaves the list and is returned |
| BlkCache.Cache.GetLru | xdelta3/xdelta3-blkcache.h:269-321 | The slot that holds the block, or the slot to fill: in LRU mode the one used longest ago of all, in FIFO mode the next in turn; too far back exactly where the FIFO has dropped the block; the list stays a permutation of the slots ordered by last use and no two slots hold one block |
| BlkCache.Cache.Evict | xdelta3/xdelta3-blkcache.h:311-314 | The slot taken is strictly the one used longest ago |
| BlkCache.Cache.SeekSource | xdelta3/xdelta3-blkcache.h:323-418 | A source that cannot seek is read on up to the block, and every block passed is kept in the slot the cache gives it |
| BlkCache.Cache.GetBlk | xdelta3/xdelta3-blkcache.h:428-510 | After any requests within the file, failed ones included: the block returned is the block of the file, and a request fails exactly for a block that is neither in the cache nor ahead of a source that cannot seek, or whose place the FIFO has given to a later one. A seekable source in LRU mode never fails, and what the cache holds follows the rule of least recent use; one that cannot seek, read in turn, keeps its last blocks and fails exactly for those before them |
| Recency.HeldExactly | xdelta3/xdelta3-blkcache.h:269-321 | By that rule, after any requests: a block is in the cache if and only if it was there at first or asked for, and fewer different blocks than there are slots were asked for since |
| Integers.EmitInteger | xdelta3/xdelta3-internal.h:197-218 | The bytes of the base-128 encoding, filled in from the end of the buffer |
| Integers.EncodedDigits | xdelta3/xdelta3-internal.h:197-218 | The bytes of an encoding are the digits to the base 128, the highest first, with 128 added to all but the last |
| Integers.SizeOf | xdelta3/xdelta3-internal.h:221-259 | The size computed is the length of the encoding |
| Integers.ReadInteger | xdelta3/xdelta3-internal.h:172-195 | Reading in one piece: the number, a request for more, or overflow |
| Integers.DecodeInteger | xdelta3/xdelta3-internal.h:149-170 | Reading with what has come before: the same as reading all in one piece |
| Integers.RoundTrip | xdelta3/xdelta3-internal.h:149-218 | Every number that fits is read back from its encoding, and what follows it is left |
| Integers.ReadWritten | xdelta3/xdelta3-internal.h:149-218 | Every number, written and read with any width: it comes back, or overflow is reported because it does not fit |
| Integers.OverflowExactly | xdelta3/xdelta3-internal.h:149-195 | For every sequence of digits, overflow is reported if and only if the number does not fit |
| Integers.ReadOn | xdelta3/xdelta3-internal.h:149-170 | Stopping in the middle and going on makes no difference |
| Integers.Decoder.DecodePieces | xdelta3/xdelta3-internal.h:149-170 | A number that arrives in pieces is read as one that arrives whole |
| Hash.Config.LargeChecksum | xdelta3/xdelta3-hash.h:67-92 | The checksum of a window is the polynomial in the multiplier, modulo the word |
| Hash.Config.LargeChecksumUpdate | xdelta3/xdelta3-hash.h:76-99 | The update from one window to the next gives the checksum of the next window |
| Hash.UpdatedIsFresh | xdelta3/xdelta3-hash.h:76-99 | The same as a law of the functions, for every window, multiplier and word size |
| Hash.SizeBits | xdelta3/xdelta3-hash.h:102-116 | The number of bits is the least, from two on, for which a table of twice the size has more entries than were asked for, and a valid shift |

## Left out
- Merge.WholeState.MergeInputs: where a copy runs over the end of the first output the program reads memory behind its array; the model stops with a status of its own, as a build with assertions does.
- Flatten.AppendWindow: where literal data runs out the program reads on behind its section; the model stops with a code of its own. A window whose sizes do not add up is flattened as the program does, and nothing is said of its bytes.
- Recode.MergeOutput: target copies must stay in their windows, as those of every valid delta do; where an assertion fails the model stops with a status of its own, and what a build without assertions would write is not modelled.
- MergeCommand.MergeDeltas: for valid deltas; the arguments are all flattened before the first merge, so which of several errors is reported first is not modelled.
- Recode.EncodeWindow: the encoder's choice of opcodes and address modes is that of Vcdiff windows; bytes of the code table are not modelled. Whether checksums are written at all, an option that also looks at the indicator of the last window read, is left out: every window carries one.
- Decoder.Stream.Emit: copies from earlier target windows (VCD_TARGET) are refused by the program and not modelled; Adler-32 is a parameter.
- StreamDecode.Stream.DecodePieces: what becomes of complete sections is a parameter of the configuration; BlockDecode fills in emission, and leaves the secondary decompression and the parsing of opcodes and addresses open. Sections are always copied, never left in the input.
- WireFormat.DeltaRead: numbers are written in as few bytes as they take; decompression changes the sections of a window and nothing else; for an application that goes on after the header, the other case being WireFormat.HeaderOnlyRead.
- BlockDecode.BlockStream.DecodePieces: a window that takes more from the source than there is may be refused where the reference interpreter, which looks only at the bytes used, accepts it.
- Djw.RoundTrip: the plan for several groups (code lengths, sector size and selectors) is a parameter, and the groups must have the same bytes without a word, which the program assumes; DjwGroups says when lengths made by the program do. How groups evolve and which sector size is chosen affects size only.
- Djw.EncodeSeveral: as above.
- DjwDecode.DecodeSelectors: a selector beyond the number of groups is refused, where the program has an assertion.
- FgkCodec.RoundTrip: for data that do not go on after every byte has come. Once no symbol is unseen, the early return of the promotion also fires for the leftmost node, and the order of the weights is lost.
- FgkCodec.EncodeFgk: as above; the change of the tree after the last unseen symbol, which no later byte depends on, is not modelled.
- FgkTree.Fgk.IncreaseZeroWeight: the branch for the last unseen symbol is not modelled.
- FgkTree.Fgk.UpdateTree: as above.
- FgkCodec.DecodeFgk: for codes the encoder wrote; of corrupt input nothing is said.
- FgkTree.Fgk.Promote: freed blocks are not reused in the model, and new ones never run out.
- Fgk.Coder.EncodeData: the buffer of coded bits has room for every code; the last unseen symbol is covered by Fgk.Coder.EncodeBits, without the change of the tree after it.
- Fgk.Coder.DecodeData: the last unseen symbol is covered by Fgk.Coder.DecodeSymbol, without the change of the tree after it.
- Generate.Generator.GenerateDelta: the checksums of the sources and the hash function are parameters; a checksum whose window is not in its source is excluded.
- Xdelta.RoundTrip: the single_hash table of byte weights is a parameter; MD5 and the serialised form of the control are not modelled.
- Apply.CopyPaged: a copy that would not end, or would leave the page, stops with a status of its own.
- Apply.CopyDeltaRegion: a stream is read in order, as the flags of a control that was unpacked say.
- BlkCache.Cache.GetBlk: for blocks of the file; the end of a file of unknown size is found by the caller. Which blocks are kept when a source that cannot seek is read past blocks in LRU mode is said one slot at a time (BlkCache.Cache.GetLru), not for the whole request.
- Hash.Config.LargeChecksum: the multipliers are parameters.
- Code table, address cache and `xd3_getblk`: the library core, xdelta3.c, is not part of this model; windows carry parsed opcodes and addresses.
- VCD_CODETABLE, application headers and secondary compression with lzma: not implemented, not interpreted, or foreign code.
- String matching of the xdelta3 encoder: the library core is not part of this model.
- Counters, weights and lengths are unbounded; wrap-around is modelled only where a property is about it (integers, checksums, overflow checks of the decoder).
- Allocation and its failure, files, pipes, options, printing, armor, and the recompression of inputs: input, output and user interface.
- Empty output pages between full ones, which no operation makes.
