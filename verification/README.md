# Verification of MNN's decoders, fusion pass and lazy evaluation

This project models the parts of MNN that do their own algorithmic work, and proves what they
compute: the decoders of the image library it carries, its fusion pass and its lazy evaluation. The
imperative code is modelled by methods over mutable state in the form of the original (the decoder
object, the kernel scope, the pass over the commands, the executor with its caches), each proved against a
definition. Most of these do not mention the algorithm; where one does, lemmas say what it means: `SaveLoad.LoadFirst`
is the loop of loading written as recursion, and gets its meaning from `SaveLoad.RoundTrip`.

**Inflate** (`Bits`, `LsbStream`, `BitReverse`, `CanonicalCode`, `InflateSpec`, `InflateStandard`, `WiderInputs`, `DeflateTables`,
`KnownStream`, `ZHuffman`, `Inflate`). The zlib decoder of stb_image. `InflateSpec` is sections 3.2.2 to 3.2.7 of RFC 1951 and section 2.2 of RFC
1950 as functions on the bits of the input, extended by zeros; it has no bit buffer, no tables and no
padding. `ZHuffman.Table.Build` accepts exactly the length lists with a Kraft sum of at most 1 and
fills tables that decode the canonical code. `Inflate.ZlibDecodeMalloc` returns the decoding, and
returns nothing only when there is no decoding within the input and the room for output: the
speculative padding of 16 bits never rejects a valid stream, and no stored payload byte is lost in the
bit buffer. Some rules of the standards are not enforced: the window size, in the header and for matches, the
number of literal codes and the Adler-32 checksum; `InflateStandard.InflatedIsStandard` shows that nothing else differs, and
`WiderInputs` has a stream for each way. What decoder and definition share, the order of the code length codes, the fixed
codes and the ranges of lengths and distances, is pinned by `DeflateTables` in other words, and by `KnownStream`, which
decodes a whole dynamic block byte by byte.

**PNG** (`Arithmetic`, `PngSpec`, `Png`, `PngInterlace`, `PngEncode`, `PngPixels`). From inflated bytes to samples. `PngSpec`
defines filtering, reconstruction, samples and the seven passes as the PNG specification (ISO/IEC
15948) has them. `Png.CreateImageRaw` reconstructs rows in a buffer of two rows that take turns and
spreads their samples out, in place where the source does; `PngSpec.UnfilteringInverts` says that
filtered rows come back whatever filters were chosen. `PngInterlace.CreateImage` puts every pixel of
every pass into its place. `PngEncode` writes an image as the specification says, and
`PngEncode.ImageComesBack` and `PngEncode.InterlacedComesBack` say that the decoder takes it and gives it back.
`PngPixels` says what a decoded image is, pixel by pixel and from the bytes of the data, without the definitions that the
decoder works with.

**GIF** (`LzwSpec`, `GifFrame`, `Gif`, `GifImage`, `KnownRaster`). `LzwSpec` is Appendix F of GIF89a on dictionaries of strings.
`Gif.Decoder.Image` draws, through the linked table of entries and the moving cursor, exactly the decoded
indices, each on the pixel whose turn it is, interlaced or not. It records up to 8192 codes where the standard has 4096:
`LzwSpec.IndicesAreStandard` says that this shows only if there are more strings still, which makes it give up.
`GifImage.GifFile.ImageBlock` closes this with colour tables and the transparent colour: what is shown are the bytes of
the file. The background of a first frame comes out with red and blue exchanged (`GifImage.BackgroundExchanged`).

**JPEG** (`JpegHuffman`, `JpegStream`, `Jpeg`, `JpegEncode`). The entropy decoder of baseline blocks against ITU-T
T.81: the code of Annex C, the DECODE procedure of section F.2.2.3, RECEIVE and EXTEND.
`Jpeg.Decoder.DecodeBlock` is proved against definitions that know no tables and no buffer. Where bits beyond the marker
are needed, these say nothing; there what is decoded depends on how many bits are buffered, and a second definition,
with that number as its state, says exactly what. `JpegEncode.BlockFromFile` writes a block as the standard says and gets
its coefficients back, each times its own quantizer. The direct
table marks places without a short code by 255, which is also the number of the last symbol of a full
table: `JpegHuffman.LookupIsDecode` says on exactly which bits the tables are wrong, and
`JpegHuffman.AlwaysRight` for exactly which codes they are right on all bits.

**Fusion** (`PostDominators`, `FuseRegions`, `Commands`, `SourceModule`, `OpFuse`). The pass builds a
data-flow graph, finds immediate post-dominators by walks to the nearest common ancestor, grows
regions down the tree and replaces every region by one kernel. Post-dominance is defined by paths.
`OpFuse.FusePass.Run` is the whole pass: every command that is left computes what it computed before,
for all values of all tensors, and the commands that have gone into a kernel are exactly those that could go into it, by
paths of the graph: each has gone into the kernel of the farthest root that it can go to. The proof shows that the regions are closed, that they are disjoint,
that the kernel of a region equals whole-tensor evaluation, and that what a kernel loads is still
there.

**Lazy evaluation** (`ExprGraph`, `Marking`, `Sessions`, `Linearise`, `Express`, `Stale`). Expressions are read through
caches that hold compiled pipelines; writes mark caches dirty over back links; a read runs the dirty
sessions it needs by a search with an explicit stack. `Express.Executor.Valid` holds after any
sequence of creations, reads, computations and writes of the leaves described below, whatever sessions fail
on the way, and a successful read is the recursive evaluation of the expression. Writes can miss a cache.
`Marking.ExactWhereStraight` says when: the marking of a leaf is exact, in whatever order the back links stand, if and only if the
traversal stops at no expression that depends on the leaf. It stops where the first operand that it comes over
is one whose content is not needed, as it can with Crop or Interp (source/core/OpCommonUtils.cpp lines 421 to
429) if both operands depend on the leaf; with a constant second operand it does not. `Express.Executor.Write`
keeps clean caches correct for every leaf of the first kind, and for every leaf those that do not depend on it;
`Stale.StaleWhereStopped` says what can become of the others. Operators of all kinds may be created.

**Shapes, order and files** (`Shapes`, `StoredGraph`, `ExecuteOrder`, `SaveLoad`, `KnownNet`). Expressions remember
the shapes that have been inferred for them, and failures; resizing a leaf makes what is behind it forget,
along back links and no further than where nothing is remembered. `Shapes.Graph.GetInfo` is exact in both
directions after any run. `ExecuteOrder.Walker.GetExecuteOrder` lists the expressions behind some outputs,
and `SaveLoad` writes them to a net and reads them again: `SaveLoad.RoundTrip` says which expressions come
back as they were. What does not come back: operands after a null operand, an unknown batch of an input
(it becomes 1), element types other than the five that are stored, parameters without elements (they become
constants), and operators of a kind that loading turns into a tensor. `KnownNet` has a
graph, its net and what is loaded from it, written out.

Assumptions. In the fusion pass one command belongs to one OpCacheInfo, so its topoIndex is its
number and grows along edges; without that the nearest common ancestor walk is not exact. The
command list writes every tensor once, before it is read. Payloads of operators are functions.
Element-wise operands are scalars or have the element count of the output. In the lazy evaluation
shapes are fixed and a session run is the evaluation of its pipeline; which operators fail in which run is given.

Verify all files together with `dafny verify dfyconfig.toml`.

## Model

| member | source | states |
|---|---|---|
| Inflate.ZlibDecodeMalloc | 3rd_party/imageHelper/stb_image.h:4526-4561 | a result is what RFC 1951 (with the header, RFC 1950) says of the input bits extended by zeros, or the input is in one of the named ways wider than the standards allow; without a result the standards give no decoding inside the input and the output room |
| InflateStandard.InflatedIsStandard | 3rd_party/imageHelper/stb_image.h:4444-4514 | RFC 1950 and RFC 1951 allow exactly what the decoder takes, but for too large a window, blocks against the rules and data without their checksum |
| InflateStandard.BlocksAreStandard | 3rd_party/imageHelper/stb_image.h:4365-4413 | the blocks differ only where a dynamic block has codes for more than 286 literals and lengths or a match goes back further than the window |
| WiderInputs.LargeWindowTaken | 3rd_party/imageHelper/stb_image.h:4444-4456 | a whole stream that is decoded although its header asks for a window of 65536 bytes, which the standard refuses |
| WiderInputs.ChecksumIgnored | 3rd_party/imageHelper/stb_image.h:4487-4514 | an empty stream with a right header is decoded whatever follows it; by the standard only if the four bytes of its checksum follow |
| WiderInputs.TooManyCodes | 3rd_party/imageHelper/stb_image.h:4373-4411 | a whole stream that is decoded although its block has 287 literal and length codes, which the standard refuses |
| WiderInputs.FarMatchTaken | 3rd_party/imageHelper/stb_image.h:4342-4360 | a stream with a window of 256 bytes whose match goes back 257 is decoded, and the copied bytes with it; the standard refuses it, whatever checksum follows |
| KnownStream.KnownOutput | 3rd_party/imageHelper/stb_image.h:4315-4413 | a whole dynamic block, byte by byte, with a code length in the sixteenth place, all three run codes, literals, and a length and a distance with extra bits, is decoded to these 32 bytes |
| KnownStream.KnownChecksum | 3rd_party/imageHelper/stb_image.h:4487-4514 | the checksum that stays unread, of a known text |
| DeflateTables.CodeLengthAt | 3rd_party/imageHelper/stb_image.h:4367-4382 | the length of each code length code stands at the place that arithmetic on its number gives, and is 0 if fewer are sent |
| DeflateTables.LengthRanges | 3rd_party/imageHelper/stb_image.h:4301-4307 | the least lengths and the extra bits of the codes in closed form |
| DeflateTables.LengthCodes | 3rd_party/imageHelper/stb_image.h:4301-4307 | there is a code for exactly the lengths 3 to 258 |
| DeflateTables.OneLengthCode | 3rd_party/imageHelper/stb_image.h:4301-4307 | and one only, but for 258, which has two |
| DeflateTables.DistanceRanges | 3rd_party/imageHelper/stb_image.h:4309-4313 | the least distances and the extra bits of the codes in closed form |
| DeflateTables.DistanceCodes | 3rd_party/imageHelper/stb_image.h:4309-4313 | there is a code for exactly the distances 1 to 32768 |
| DeflateTables.OneDistanceCode | 3rd_party/imageHelper/stb_image.h:4309-4313 | and one only |
| DeflateTables.RunRanges | 3rd_party/imageHelper/stb_image.h:4393-4405 | the run codes repeat 3 to 6, 3 to 10 and 11 to 138 times |
| DeflateTables.FixedCodeWords | 3rd_party/imageHelper/stb_image.h:4458-4484 | the fixed codes are, bit by bit, those of the table in section 3.2.6 of RFC 1951 |
| DeflateTables.FixedItems | 3rd_party/imageHelper/stb_image.h:4319-4341 | what each of them stands for; the last two for nothing |
| DeflateTables.FixedDistances | 3rd_party/imageHelper/stb_image.h:4345-4348 | of the 32 distance codes the last two are refused |
| DeflateTables.HeaderBytes | 3rd_party/imageHelper/stb_image.h:4444-4456 | the headers that are accepted are those that section 2.2 of RFC 1950 has, written from window size, level and check bits, without a dictionary |
| Inflate.ZBuf.ParseZlib | 3rd_party/imageHelper/stb_image.h:4487-4514 | for one decoder object, from its first byte: the decoding of the input by the rules that the decoder enforces |
| Inflate.ZBuf.ParseBlocks | 3rd_party/imageHelper/stb_image.h:4495-4513 | decodes the blocks up to and including the final one, in order |
| Inflate.ZBuf.ParseBlock | 3rd_party/imageHelper/stb_image.h:4498-4511 | one block body, by its type, with type 3 refused |
| Inflate.ZBuf.ParseHuffmanBlock | 3rd_party/imageHelper/stb_image.h:4315-4363 | output equals the expansion of the block's literals and matches; refusal only if the block is malformed, runs past the input or out of room |
| Inflate.ZBuf.NextItem | 3rd_party/imageHelper/stb_image.h:4319-4348 | the next literal, match or end of block as section 3.2.5 of RFC 1951 encodes it |
| Inflate.ZBuf.MatchItem | 3rd_party/imageHelper/stb_image.h:4342-4348 | length and distance with their extra bits |
| Inflate.ZBuf.CopyMatch | 3rd_party/imageHelper/stb_image.h:4354-4360 | a match that overlaps its own output is copied as if byte by byte, in both copy loops |
| Inflate.ZBuf.PutMatch | 3rd_party/imageHelper/stb_image.h:4350-4360 | appends a match, or fails exactly when it does not fit the largest possible buffer |
| Inflate.ZBuf.PutLiteral | 3rd_party/imageHelper/stb_image.h:4322-4326 | appends a byte, or fails exactly when it does not fit |
| Inflate.ZBuf.Zexpand | 3rd_party/imageHelper/stb_image.h:4279-4299 | keeps what has been decoded and makes room exactly when doubling can reach it within 32 bits |
| Inflate.ZBuf.GrownIs | 3rd_party/imageHelper/stb_image.h:4285-4291 | the room for output is the initial size doubled as often as the result is an unsigned integer |
| Inflate.ZBuf.HuffmanDecode | 3rd_party/imageHelper/stb_image.h:4249-4277 | the next symbol of the canonical code and its length in bits; failure only without a matching code or after the input was overrun, despite the refill and the padding trick |
| Inflate.ZBuf.Lookup | 3rd_party/imageHelper/stb_image.h:4269-4276 | fast table and slow path together equal the canonical decoder on 16 buffered bits |
| Inflate.ZBuf.LookupSlow | 3rd_party/imageHelper/stb_image.h:4230-4247 | the slow path finds the symbol whose code begins the bits, or there is none |
| Inflate.ZBuf.FirstLength | 3rd_party/imageHelper/stb_image.h:4236-4239 | the loop over shifted ends stops at the length of the code |
| Inflate.ZBuf.SlotValue | 3rd_party/imageHelper/stb_image.h:4242-4246 | the slot found holds that symbol, so neither corruption check can fire |
| Inflate.ZBuf.Pad | 3rd_party/imageHelper/stb_image.h:4253-4259 | sixteen implicit zero bits keep the buffer equal to the zero-extended stream |
| Inflate.ZBuf.FillBits | 3rd_party/imageHelper/stb_image.h:4208-4218 | refills to more than 24 bits, keeps buffer and stream in step, and never takes its error exit |
| Inflate.ZBuf.Zreceive | 3rd_party/imageHelper/stb_image.h:4220-4228 | the next bits of the stream as a number, least significant first |
| Inflate.ZBuf.Zget8 | 3rd_party/imageHelper/stb_image.h:4203-4206 | the next byte, or zero at the end without moving |
| Inflate.ZBuf.ComputeHuffmanCodes | 3rd_party/imageHelper/stb_image.h:4365-4413 | reads the dynamic codes of section 3.2.7 of RFC 1951 into both tables, with up to 288 literal and length codes where the section allows 286, or fails exactly when they are malformed or past the input |
| Inflate.ZBuf.ReadCodeLengths | 3rd_party/imageHelper/stb_image.h:4385-4409 | run-length decoding of the code lengths, with repeats that may not come first or run over the total |
| Inflate.ZBuf.ReadCodeLengthSizes | 3rd_party/imageHelper/stb_image.h:4378-4382 | the code length code in its permuted order |
| Inflate.ZBuf.BuildFixed | 3rd_party/imageHelper/stb_image.h:4458-4473 | the default length tables are the fixed codes and are accepted |
| Inflate.ZBuf.ParseUncompressedBlock | 3rd_party/imageHelper/stb_image.h:4415-4442 | copies a stored block, or fails exactly when its complement check or the input or the room does not allow it |
| Inflate.ZBuf.StoredHeader | 3rd_party/imageHelper/stb_image.h:4419-4433 | draining the bit buffer yields the four header bytes and leaves no payload byte in the buffer |
| Inflate.ZBuf.PayloadStart | 3rd_party/imageHelper/stb_image.h:4430-4435 | after the header the payload begins at the byte pointer |
| Inflate.ZBuf.ParseZlibHeader | 3rd_party/imageHelper/stb_image.h:4444-4456 | accepts exactly method 8 without a dictionary and with right check bits, whatever the window size, with data after it |
| Inflate.LengthTable | 3rd_party/imageHelper/stb_image.h:4301-4307 | the length tables hold what the code ranges of section 3.2.5 of RFC 1951 come to |
| Inflate.DistTable | 3rd_party/imageHelper/stb_image.h:4309-4313 | the distance tables hold what the code ranges come to |
| ZHuffman.Table.Build | 3rd_party/imageHelper/stb_image.h:4130-4175 | accepts a length list exactly when its Kraft sum is at most 1, and then the tables decode its canonical code |
| ZHuffman.Table.BuildStarts | 3rd_party/imageHelper/stb_image.h:4138-4158 | first codes, first slots and shifted ends of all lengths; fails exactly on an over-full length |
| ZHuffman.Table.EnterSymbols | 3rd_party/imageHelper/stb_image.h:4159-4173 | every coded symbol gets its slot and, if short, all its fast entries |
| ZHuffman.Table.EnterSymbol | 3rd_party/imageHelper/stb_image.h:4160-4172 | one more symbol leaves the entries of the others alone |
| ZHuffman.FastLookup | 3rd_party/imageHelper/stb_image.h:4269-4275 | a fast entry gives symbol and length of the code that begins the bits, and no entry means that no short code does |
| CanonicalCode.SlowLookup | 3rd_party/imageHelper/stb_image.h:4236-4246 | below the end of a length and not below the end of the one before, the slot belongs to the code that begins the bits |
| CanonicalCode.BelowShiftedEnd | 3rd_party/imageHelper/stb_image.h:4150-4152 | comparing 16 bits with a shifted end compares their first bits with the end |
| CanonicalCode.SlotsDiffer | 3rd_party/imageHelper/stb_image.h:4162-4165 | different symbols have different slots |
| ZHuffman.FastMatchIsMatch | 3rd_party/imageHelper/stb_image.h:4166-4171 | the entries stamped for a symbol are those whose low bits are its reversed code |
| CanonicalCode.CodesCover | 3rd_party/imageHelper/stb_image.h:4145-4154 | codes of length at most l begin exactly the bit strings below the end of length l |
| CanonicalCode.PrefixFree | 3rd_party/imageHelper/stb_image.h:4138-4157 | an accepted list gives a prefix-free code |
| CanonicalCode.DecodeUnique | 3rd_party/imageHelper/stb_image.h:4230-4247 | at most one code begins a bit string |
| CanonicalCode.KraftSumIsEndCode | 3rd_party/imageHelper/stb_image.h:4145-4154 | the running code counter is the scaled Kraft sum |
| BitReverse.ReverseDigits | 3rd_party/imageHelper/stb_image.h:4122-4128 | mask-and-shift reversal reverses the digits of every number of up to 16 bits |
| BitReverse.Reverse16Digits | 3rd_party/imageHelper/stb_image.h:4113-4120 | the four exchanges reverse 16 digits |
| OpFuse.FusionPreservesMeaning | codegen/OpFuse.cpp:307-405 | for all initial tensors, every surviving command leaves its outputs as in the original list |
| OpFuse.FusePass.Run | codegen/OpFuse.cpp:418-519 | the pass on a whole list: same values for every command that is left, unread outputs still computed, the sets are exactly the classes of commands with the same farthest root, by paths of the data-flow graph and with the element-wise commands as the legal ones; each class is replaced by one kernel and nothing else is changed |
| OpFuse.FusePass.BuildGraph | codegen/OpFuse.cpp:420-449 | edges are exactly the pairs of a writer and a reader of the same tensor |
| OpFuse.FusePass.BuildTree | codegen/OpFuse.cpp:464-483 | the parents agree with post-dominance, every node is listed once under its parent or in the queue |
| OpFuse.FusePass.Codegen | codegen/OpFuse.cpp:334-393 | roots become kernels, other members disappear, nothing else changes |
| OpFuse.FusePass.Erase | codegen/OpFuse.cpp:395-403 | exactly the commands without an operator are removed, in order |
| OpFuse.Simulation | codegen/OpFuse.cpp:377-393 | up to every point both lists agree on all tensors but those of removed commands |
| OpFuse.RootStep | codegen/OpFuse.cpp:378-385 | a kernel in the root's place gets the root-time operands and computes the root's output |
| OpFuse.OperandSurvives | codegen/SourceModule.cpp:99-117 | what a kernel loads was written by a surviving earlier command |
| OpFuse.RegionKernel | codegen/SourceModule.cpp:51-58 | a region's kernel is well defined and stores exactly the root's output |
| OpFuse.ReadsNothingGone | codegen/OpFuse.cpp:253-305 | only members of the same region read a removed output |
| OpFuse.UnreadStays | codegen/OpFuse.cpp:464-483 | an output that no command reads is never removed |
| OpFuse.LiveRunsTheSame | codegen/OpFuse.cpp:395-403 | removing empty commands changes no result |
| PostDominators.LCA | codegen/OpFuse.cpp:240-252 | the walk returns the node whose ancestors are the common ancestors, or null if there are none |
| PostDominators.MeetOfSuccessors | codegen/OpFuse.cpp:466-472 | the parent's ancestors are the common post-dominators of the successors |
| PostDominators.ParentsAreImmediate | codegen/OpFuse.cpp:464-483 | the parent is the immediate post-dominator, and is null exactly when nothing else post-dominates |
| PostDominators.PostDomsExact | codegen/OpFuse.cpp:464-483 | following edges finds exactly the nodes on all paths to an end |
| FuseRegions.FuseNode | codegen/OpFuse.cpp:271-305 | the set is the region of the root, root last: the root, and the nodes from which every path goes through it and is legal until there; the edges are the children left outside |
| FuseRegions.AllPathLegal | codegen/OpFuse.cpp:253-270 | true exactly when every path from the node is legal until the target comes up on it |
| FuseRegions.FindFuseSets | codegen/OpFuse.cpp:484-504 | the sets are the classes of nodes with the same farthest root, all of those with more than one node and no others |
| FuseRegions.AllLegalExact | codegen/OpFuse.cpp:253-270 | the recursion over successors is legality of all paths until the target |
| FuseRegions.RegionByPaths | codegen/OpFuse.cpp:271-305 | the members of a region by paths alone |
| FuseRegions.UnitIsFarthest | codegen/OpFuse.cpp:484-504 | working down the tree sends every node to the farthest root that it can go to, by paths alone |
| FuseRegions.ChainFused | codegen/OpFuse.cpp:253-270 | a chain of two legal nodes before one that is not is fused |
| FuseRegions.FuseRoot | codegen/OpFuse.cpp:487-503 | one work-list step |
| FuseRegions.RegionClosed | codegen/OpFuse.cpp:271-305 | every successor of a member other than the root is a member |
| FuseRegions.RegionIsUnit | codegen/OpFuse.cpp:271-305 | the region around a legal root is the set of nodes that the greedy choice assigns to it |
| FuseRegions.AncestorLegal | codegen/OpFuse.cpp:293-300 | legality of all paths passes up the tree, so growing child by child misses no member |
| FuseRegions.AllSeen | codegen/OpFuse.cpp:484-504 | the work list reaches every root |
| SourceModule.KernelIsStaged | codegen/SourceModule.cpp:91-162 | running the kernel once per element equals running the commands one after another on whole tensors |
| SourceModule.AddNodesFaithful | codegen/SourceModule.cpp:107-138 | after the commands every variable holds the element that staged execution computes |
| SourceModule.InputsAreExternal | codegen/SourceModule.cpp:113-131 | what the kernel loads is nothing that it computes |
| SourceModule.ScopeCovers | codegen/SourceModule.cpp:51-58 | exactly the tensors read or written have a variable, and exactly the tensors read are used |
| SourceModule.BuildKernel | codegen/SourceModule.cpp:91-162 | the kernel of a node set is the kernel of its commands in topological order |
| SourceModule.VarScope.Node | codegen/SourceModule.cpp:107-138 | the code of one command |
| SourceModule.VarScope.Operand | codegen/SourceModule.cpp:114-132 | an operand is loaded once, as constant, scalar or element |
| SourceModule.VarScope.ComputeOutput | codegen/SourceModule.cpp:51-58 | the outputs are the variables that nothing used, each once |
| Commands.Settled | codegen/OpFuse.cpp:307-405 | once an element-wise command has run its output stays its function of its inputs |
| Express.Executor.Read | express/Expr.cpp:797-858 | a value that is returned is the recursive evaluation on the current leaves, from written input leaves only; nothing is returned only if an input leaf is unwritten on which a target of a cache that is used depends, or if the run of a session that is used has failed |
| Express.Executor.Write | express/Expr.cpp:924-934 | the leaf is changed and exactly the caches that the traversal marks become dirty; if it stops nowhere, those are the ones with a target that depends on the leaf, and every clean cache stays correct; in any case those stay correct that have no such target |
| Express.Executor.InformDirty | express/Expr.cpp:861-889 | marks the caches of what the traversal of the back links reaches |
| Express.Executor.VisitOutputs | express/Expr.cpp:952-974 | the recursive traversal equals its specification, visited flags included |
| Express.Executor.Compute | express/Utils.cpp:229-296 | terminates; success exactly when everything behind the cache is written and no session fails; sessions that were dirty and are clean now have run exactly once, only sessions that the cache uses have run, and nothing was made dirty; a failure is that of the last run |
| Express.Executor.Refresh | express/Utils.cpp:278-293 | a session runs only when all its input caches are clean, and is clean and correct afterwards |
| Express.Executor.Resize | express/Utils.cpp:297-342 | the nested search lays out only sessions whose shapes are dirty, which visited caches never are |
| Express.Executor.Check | express/Utils.cpp:230-255 | the first search, which has no visited set, terminates and finds exactly whether everything is written |
| Express.Executor.Run | express/Utils.cpp:283-293 | running a pipeline whose inputs are clean leaves correct values, unless one of its operators fails |
| Express.Executor.MakeCache | express/Executor.cpp:499-640 | targets without a cache get a common new one with their offsets, and everything stays valid |
| Express.Executor.PrepareCompute | express/Expr.cpp:890-911 | one cache for all expressions without one; existing caches stay |
| Express.Executor.ComputeAll | express/Expr.cpp:912-923 | every operator among the variables has a cache afterwards, which is clean unless an input leaf behind it is unwritten or the run of a session that it uses has failed |
| Express.Executor.CreateOp | express/Expr.cpp:204-226 | a new operator, whatever it needs, is linked from all its operands and disturbs no cache |
| Express.Executor.CreateLeaf | express/Expr.cpp:157-203 | a new leaf, written or not |
| Express.NotReadyWaits | express/Utils.cpp:230-255 | a cache that is not ready waits for an unwritten input leaf on which a target of it, or of a cache that it uses, depends |
| ExprGraph.EvalIs | express/Executor.cpp:499-640 | what evaluation means: operands in order, each the output that it names, and the results in order |
| Express.CorrectWritten | express/Expr.cpp:924-934 | for any leaf, a cache none of whose targets depends on it is still correct after a write |
| Stale.StaleWhereStopped | express/Expr.cpp:861-889 | where the traversal stops, with the given operands and needs there are operators, an order of the links, contents and a new value with which every clean and correct cache of some expression alone stays clean and then holds what is no longer its value |
| Express.CoherentWritten | express/Expr.cpp:861-889 | if the traversal stops nowhere, every clean cache is still correct after a write and the marking, caches shared by several targets included |
| Express.ReadyWritten | express/Utils.cpp:247-251 | a ready cache computes nothing from an unwritten input leaf |
| ExprGraph.InformedExactly | express/Expr.cpp:861-889 | if the traversal stops nowhere, exactly what depends on the leaf is marked, in any order of the links |
| Marking.ExactWhereStraight | express/Expr.cpp:861-889 | the marking of a leaf is exact in every order of the links if and only if the traversal stops at no expression that depends on the leaf |
| Marking.StopMissed | express/Expr.cpp:861-889 | wherever it stops there is an order of the links in which a dependent expression is not marked |
| Marking.OrderedLinked | express/Expr.cpp:126-146 | any order of the links that operands make is a linking |
| Marking.NeverMarked | express/Expr.cpp:863-868 | an expression that has been passed over once is never marked |
| Marking.SparedStraight | express/Expr.cpp:878-885 | it stops nowhere if no operand whose content is not needed depends on the leaf |
| Marking.UniformStraight | express/Expr.cpp:878-885 | it stops nowhere if operators need all or none of their operands |
| Marking.MixedNeedsMissed | express/Expr.cpp:861-889 | an operator that needs only the first of two operands that both depend on the leaf is passed over in some order |
| Marking.SecondUseMissed | express/Expr.cpp:952-974 | an operator that uses the leaf twice and needs it the second time only is never marked, in any order |
| ExprGraph.HitsDepend | express/Expr.cpp:861-889 | nothing is marked that does not depend on the leaf, whatever the operators need |
| ExprGraph.EvalUnchanged | express/Expr.cpp:924-934 | what does not depend on a leaf keeps its value when it is written |
| Linearise.MakePipeline | express/Executor.cpp:499-605 | operands are earlier outputs, tensors of existing caches or leaves; each target's outputs are at its offset; only what a target needs is computed, read or waited for, and nothing twice if no target takes part in another |
| Linearise.Scan | express/Executor.cpp:528-554 | finds the first operand that is not ready, with those before it ready, or none |
| Linearise.BuildEmit | express/Executor.cpp:555-604 | appending an expression keeps the invariants of the search |
| Sessions.EntryComputes | express/Executor.cpp:585-604 | an operator of a pipeline computes the outputs of its expression |
| Gif.Decoder.Image | 3rd_party/imageHelper/stb_image.h:6853-6897 | every pixel of the frame whose turn has come shows the index that Appendix F of GIF89a decodes for its turn, every other pixel is as before; refused exactly for a rectangle outside the picture, a minimum code size above 12, data whose decoding by the standard breaks off, or more strings between two clear codes than the table of 8192 codes has room for; reading goes on after the last sub-block |
| Gif.Decoder.ProcessRaster | 3rd_party/imageHelper/stb_image.h:6697-6780 | success exactly with a complete decoding, and the indices drawn are that decoding, in its order |
| Gif.Decoder.Raster | 3rd_party/imageHelper/stb_image.h:6724-6779 | the loop over sub-block bytes and codes of growing width follows the definition code by code |
| Gif.Decoder.StringCode | 3rd_party/imageHelper/stb_image.h:6750-6774 | one code: its string is emitted, the dictionary grows as defined, also when the code is the one just being made, and the width with it |
| Gif.Decoder.AddEntry | 3rd_party/imageHelper/stb_image.h:6755-6766 | the new entry stands for the previous string and the first letter of this one, or the table is full |
| Gif.Decoder.OutGifCode | 3rd_party/imageHelper/stb_image.h:6660-6695 | the recursion over prefixes terminates and draws the string of the code in order |
| Gif.Decoder.Plot | 3rd_party/imageHelper/stb_image.h:6670-6694 | one pixel at the place of its turn, nothing once the frame is full |
| Gif.Decoder.PutPixel | 3rd_party/imageHelper/stb_image.h:6672-6682 | marks the pixel and writes its colour unless it is transparent; all other pixels stay |
| Gif.Decoder.Advance | 3rd_party/imageHelper/stb_image.h:6683-6694 | the cursor goes on to the pixel of the next turn, over the ends of rows and passes, or below the frame |
| Gif.Decoder.BeginFrame | 3rd_party/imageHelper/stb_image.h:6856-6886 | accepts exactly rectangles inside the picture and starts at the first turn |
| Gif.Decoder.InitCodes | 3rd_party/imageHelper/stb_image.h:6713-6717 | the roots stand for their own indices |
| Gif.Decoder.NextRow | 3rd_party/imageHelper/stb_image.h:6685-6694 | skipping passes without rows finds the row of the next turn or the end of the frame |
| GifImage.GifFile.ImageBlock | 3rd_party/imageHelper/stb_image.h:6851-6912 | every pixel whose turn comes shows the bytes that the image's own table, or else that of the file, has for its index, in the order of the file, and is as before if that colour is transparent; on the first frame the others get the background |
| GifImage.GifFile.ParseColourTable | 3rd_party/imageHelper/stb_image.h:6603-6612 | the entries are those of the file with red and blue exchanged, opaque but for the transparent one; the rest of the palette stays |
| GifImage.GifFile.Header | 3rd_party/imageHelper/stb_image.h:6614-6644 | accepts exactly the two signatures, and the global palette holds the table of the file |
| GifImage.GifFile.Extension | 3rd_party/imageHelper/stb_image.h:6914-6947 | a control extension says which colour is transparent, and after any extension the global palette is the file's table with just that colour transparent |
| GifImage.GifFile.FillBackground | 3rd_party/imageHelper/stb_image.h:6899-6909 | pixels that have not been drawn get the background entry as it stands in the palette, and no other changes |
| GifImage.BackgroundExchanged | 3rd_party/imageHelper/stb_image.h:6901-6908 | which is the colour of the file if and only if its red equals its blue, because the palette has them exchanged and is copied as it is |
| GifImage.DrawnColours | 3rd_party/imageHelper/stb_image.h:6675-6682 | what drawing with the palette comes to in the bytes of the file |
| GifImage.PixelInOrder | 3rd_party/imageHelper/stb_image.h:6857-6873 | the pixels of a rectangle are drawn row by row from its upper left corner |
| GifFrame.TwentyRows | 3rd_party/imageHelper/stb_image.h:6880-6886 | the rows of an interlaced frame of 20 rows in the order of Appendix E of GIF89a |
| KnownRaster.KnownIndices | 3rd_party/imageHelper/stb_image.h:6697-6780 | raster data, byte by byte, with a code that is used as it is made and codes that get wider, are decoded to these 13 indices |
| KnownRaster.ClearFirst | 3rd_party/imageHelper/stb_image.h:6735-6747 | data whose first code neither empties the table nor ends the data are refused |
| KnownRaster.UnknownCode | 3rd_party/imageHelper/stb_image.h:6750-6768 | a code that has no string yet is refused, the next one only as the first after the table has been emptied |
| KnownRaster.DataEnd | 3rd_party/imageHelper/stb_image.h:6724-6733 | data may end without an end code |
| Gif.SkipBlocks | 3rd_party/imageHelper/stb_image.h:6743-6747 | passes over the remaining sub-blocks |
| Gif.TableGrows | 3rd_party/imageHelper/stb_image.h:6755-6764 | an entry with prefix, first and suffix of the last codes adds the string of the prefix and one letter, and leaves the others |
| LzwSpec.DecodeSane | 3rd_party/imageHelper/stb_image.h:6735-6777 | in every reachable dictionary a string that is not a root is that of an earlier code and one letter, and no emitted string is empty |
| LzwSpec.StartsWithRoot | 3rd_party/imageHelper/stb_image.h:6761-6763 | the first letter of every string is that of a root |
| LzwSpec.DecodeFitting | 3rd_party/imageHelper/stb_image.h:6769-6772 | before the table of the standard is full there are never more codes than the width has |
| LzwSpec.GrowsAtPower | 3rd_party/imageHelper/stb_image.h:6769-6772 | testing the masked number of codes makes codes wider exactly when all codes of the width are taken |
| LzwSpec.MoreCodesThanStandard | 3rd_party/imageHelper/stb_image.h:6755-6759 | the decoder gives up exactly if there are more strings between two clear codes of the standard decoding than the table has room for; otherwise it decodes as with the 4096 codes of the standard, or, if the minimum code size is 12 and codes have 13 bits from the start, with 8192 |
| LzwSpec.IndicesAreStandard | 3rd_party/imageHelper/stb_image.h:6697-6780 | the same for the whole data of an image |
| GifFrame.TurnOnce | 3rd_party/imageHelper/stb_image.h:6683-6694 | no two pixels of a frame are drawn at the same turn, interlaced or not |
| GifFrame.TurnBound | 3rd_party/imageHelper/stb_image.h:6683-6694 | the turns of the pixels are below the size of the frame |
| GifFrame.RankBound | 3rd_party/imageHelper/stb_image.h:6880-6886 | every row of a frame has its time among as many as there are rows |
| GifFrame.RankInjective | 3rd_party/imageHelper/stb_image.h:6880-6886 | no two rows are drawn at the same time, interlaced or not |
| Png.CreateImageRaw | 3rd_party/imageHelper/stb_image.h:4702-4865 | the rows are the reconstruction of sections 9.2 and 9.4 of the PNG specification and the output shows their samples; refused exactly if the data are too short or a filter type does not exist |
| Png.DecodeRows | 3rd_party/imageHelper/stb_image.h:4743-4859 | the same for the loop with its two rows that take turns |
| Png.DecodeRow | 3rd_party/imageHelper/stb_image.h:4744-4858 | one row, of which the next finds the reconstruction in the other half of the buffer |
| Png.UnfilterRow | 3rd_party/imageHelper/stb_image.h:4761-4791 | reconstructs a row in place below the row above, which stays as it is |
| Png.FirstRowSame | 3rd_party/imageHelper/stb_image.h:4654-4661 | on the first row the substitute filters give the reconstruction below a row of zeros, whatever the buffer holds |
| Png.PaethIsPredictor | 3rd_party/imageHelper/stb_image.h:4663-4674 | the comparison of thresholds is the Paeth predictor, on all integers |
| PngSpec.ReconstructionUnique | 3rd_party/imageHelper/stb_image.h:4761-4791 | a row is the only reconstruction of what filtering has made of it |
| PngSpec.UnfilteringInverts | 3rd_party/imageHelper/stb_image.h:4743-4793 | rows filtered by any choice of filters come back, so decoding inverts filtering |
| Png.ExpandRow | 3rd_party/imageHelper/stb_image.h:4795-4858 | puts out the samples of a row for every bit depth, with opaque alpha if wanted, and touches nothing else |
| Png.ExpandPacked | 3rd_party/imageHelper/stb_image.h:4796-4823 | samples of 1, 2 and 4 bits, grey ones scaled to the full range |
| Png.AlphaExpandInPlace | 3rd_party/imageHelper/stb_image.h:4681-4699 | going backwards, spreading pixels over their own row loses no sample |
| Png.AlphaExpandWords | 3rd_party/imageHelper/stb_image.h:4842-4856 | 16-bit pixels with opaque alpha |
| Png.NextSample | 3rd_party/imageHelper/stb_image.h:4803-4823 | shifting bits out at the top of a byte yields the packed samples in order |
| PngInterlace.CreateImage | 3rd_party/imageHelper/stb_image.h:4867-4910 | each pass takes the bytes after those of the one before, an empty pass none, and every pixel of the image is that of its place in its pass; refused exactly if a pass cannot be decoded |
| PngInterlace.Scatter | 3rd_party/imageHelper/stb_image.h:4894-4901 | the pixels of a pass go to their places and all others stay |
| PngInterlace.PassSize | 3rd_party/imageHelper/stb_image.h:4886-4887 | rounding up gives the number of columns and rows of a pass |
| PngInterlace.NumberOfPlace | 3rd_party/imageHelper/stb_image.h:4894-4900 | every pixel of a pass goes to a pixel of the image that belongs to the pass at that number |
| PngInterlace.NumberOnce | 3rd_party/imageHelper/stb_image.h:4894-4900 | no two pixels of the image come from one pixel of a pass |
| PngInterlace.NumberBound | 3rd_party/imageHelper/stb_image.h:4886-4887 | every pixel of the image that belongs to a pass is within its size |
| PngInterlace.OthersStay | 3rd_party/imageHelper/stb_image.h:4894-4901 | a pass leaves the pixels of the other passes alone |
| PngInterlace.DeinterlacingInverts | 3rd_party/imageHelper/stb_image.h:4876-4909 | if the passes are those of an image, that image comes out |
| PngEncode.ImageComesBack | 3rd_party/imageHelper/stb_image.h:4702-4865 | an image of any depth that has been packed into rows and filtered in any way is accepted and put out again, whatever follows its bytes |
| PngEncode.InterlacedComesBack | 3rd_party/imageHelper/stb_image.h:4867-4910 | the seven passes of an image, written one after another with any filters, are accepted and that image is put out |
| PngEncode.PackHolds | 3rd_party/imageHelper/stb_image.h:4795-4858 | packed rows hold the samples at every bit depth |
| PngSpec.GridOfPass | 3rd_party/imageHelper/stb_image.h:4880-4883 | a pixel is on the grid of one pass only, the one that the pattern of section 8.2 of the PNG specification gives it |
| PngPixels.BytePixels | 3rd_party/imageHelper/stb_image.h:4714-4800 | in a decoded image every sample of 8 bits is the byte in the data and, by filter type, what sections 9.2 and 9.4 say of the same channel in the pixels to the left, above, and above to the left |
| PngPixels.WordPixels | 3rd_party/imageHelper/stb_image.h:4714-4800 | so is either byte of every sample of 16 bits, the high one first |
| PngPixels.PackedBytes | 3rd_party/imageHelper/stb_image.h:4714-4800 | and every byte of rows of smaller samples, from the byte before it and those above |
| PngPixels.PackedPixels | 3rd_party/imageHelper/stb_image.h:4803-4833 | each of which is its bits in that byte, the first in the highest, in steps of 255, 85 and 17 for greys |
| PngPixels.AlphaOut | 3rd_party/imageHelper/stb_image.h:4834-4862 | the alpha sample that is added is the greatest of its depth |
| PngPixels.RefusedExactly | 3rd_party/imageHelper/stb_image.h:4726-4748 | what cannot be decoded, by the bytes of the data |
| PngPixels.PatternIs | 3rd_party/imageHelper/stb_image.h:4879-4884 | the passes are those of the pattern in section 8.2, as it is drawn there |
| PngPixels.PassSizes | 3rd_party/imageHelper/stb_image.h:4886-4888 | the size of every pass in closed form |
| PngPixels.PlacesInPasses | 3rd_party/imageHelper/stb_image.h:4895-4901 | where a pixel of the image stands in its pass |
| PngPixels.PassesInOrder | 3rd_party/imageHelper/stb_image.h:4889-4904 | the passes stand in the data one after the other, those without pixels taking no bytes |
| PngSpec.PassesDetermine | 3rd_party/imageHelper/stb_image.h:4879-4906 | the seven passes leave no sample of the image open |
| JpegHuffman.Table.Build | 3rd_party/imageHelper/stb_image.h:2009-2051 | accepts exactly lists of at most 256 symbols whose lengths are those of a prefix code, and then all tables are those of the code of Annex C of T.81 |
| JpegHuffman.Table.BuildSizes | 3rd_party/imageHelper/stb_image.h:2013-2020 | the size list, refused exactly beyond 256 symbols |
| JpegHuffman.Table.BuildCodes | 3rd_party/imageHelper/stb_image.h:2022-2036 | codes, shifted ends and deltas of all lengths; fails exactly on an over-full length |
| JpegHuffman.Table.BuildFast | 3rd_party/imageHelper/stb_image.h:2038-2050 | an entry gives the symbol whose short code begins the nine bits, if there is one |
| JpegHuffman.ProcedureIsDecode | 3rd_party/imageHelper/stb_image.h:2111-2140 | the DECODE procedure of section F.2.2.3 of T.81 finds the symbol whose code begins the bits, or none |
| JpegHuffman.LookupIsDecode | 3rd_party/imageHelper/stb_image.h:2109-2152 | on any 16 bits the tables give symbol and length as DECODE does if and only if the bits do not begin with a code of at most nine bits for symbol number 255, the flag of the direct table |
| JpegHuffman.AlwaysRight | 3rd_party/imageHelper/stb_image.h:2038-2050 | so the tables are right on all input if and only if symbol number 255 has no code of nine bits or fewer |
| JpegHuffman.FullCodeIsUnsafe | 3rd_party/imageHelper/stb_image.h:2038-2050 | 255 symbols of 8 bits and one of 9 are accepted, and the last is mistaken |
| JpegHuffman.SlowIsDecode | 3rd_party/imageHelper/stb_image.h:2122-2147 | for longer codes the comparison with shifted ends finds the symbol; its code is the bits, so the assertion on line 2147 holds |
| JpegHuffman.FastLookup | 3rd_party/imageHelper/stb_image.h:2109-2120 | what an entry or the flag says about 16 bits |
| JpegHuffman.SlotIsNumber | 3rd_party/imageHelper/stb_image.h:2025-2031 | the number of a symbol is its place in the order of the codes |
| JpegStream.StuffingInverts | 3rd_party/imageHelper/stb_image.h:2083-2096 | reading stuffed data before a marker, with any number of fill bytes, gives back the data and stops there |
| Jpeg.Decoder.GrowBuffer | 3rd_party/imageHelper/stb_image.h:2081-2100 | keeps buffer and scan in step over stuffed zeros, fill bytes and the marker; more than 24 bits unless the marker has just come; how many bits there are then is said exactly |
| Jpeg.Decoder.HuffDecode | 3rd_party/imageHelper/stb_image.h:2106-2153 | the symbol that the tables give for the next 16 bits, which are consumed as its code is long; -1 exactly if they give none or more bits than there are after filling, which can only be beyond the marker |
| Jpeg.Decoder.ExtendReceive | 3rd_party/imageHelper/stb_image.h:2160-2173 | RECEIVE and EXTEND of section F.2.2.1 of T.81, or 0 and nothing consumed exactly if there are not enough bits after filling, which can only be beyond the marker |
| JpegStream.Receive | 3rd_party/imageHelper/stb_image.h:2167-2169 | rotating and masking takes the first bits and leaves the others at the top |
| Jpeg.SignBit | 3rd_party/imageHelper/stb_image.h:2166-2171 | the top bit decides as the comparison in EXTEND does |
| Jpeg.BuildFastAc | 3rd_party/imageHelper/stb_image.h:2055-2079 | every entry of the combined table is what its nine bits hold, or 0 |
| Jpeg.AcEntryMeans | 3rd_party/imageHelper/stb_image.h:2061-2077 | a non-zero entry is DECODE followed by RECEIVE and EXTEND, in run, value and bits taken, for all bits that begin with those nine |
| Jpeg.Decoder.ReadAc | 3rd_party/imageHelper/stb_image.h:2237-2258 | one AC symbol and its value, through either table, in agreement with T.81 before the marker; with the zeros and missing bits that come up beyond it, exactly what a reader with this many bits gets |
| Jpeg.Decoder.DecodeAc | 3rd_party/imageHelper/stb_image.h:2234-2266 | the AC coefficients of sections F.2.2.2 and A.3.6 of T.81; before the marker fails exactly on bits that no code begins; beyond it, exactly as such a reader does |
| Jpeg.Decoder.DecodeDc | 3rd_party/imageHelper/stb_image.h:2221-2228 | the DC difference of section F.2.2.1 of T.81; beyond the marker exactly what such a reader gets |
| Jpeg.Decoder.DecodeBlock | 3rd_party/imageHelper/stb_image.h:2216-2268 | a block is the dequantized coefficients that the scan holds, in whatever way it ends, and the prediction moves by its difference |
| Jpeg.ReadDcFails | 3rd_party/imageHelper/stb_image.h:2221-2223 | a difference is refused for what its bits are, the zeros beyond the marker included, and never for want of bits |
| JpegStream.AskedTwice | 3rd_party/imageHelper/stb_image.h:2081-2108 | filling stops short at the marker once; filled again the buffer has the bits |
| Jpeg.ZigzagOrder | 3rd_party/imageHelper/stb_image.h:2200-2213 | the table walks the diagonals by turns, and sends what is beyond the block to its last place |
| Jpeg.SumFits | 3rd_party/imageHelper/stb_image.h:1070-1075 | the test refuses exactly sums that are no int |
| Jpeg.ProductFits | 3rd_party/imageHelper/stb_image.h:1078-1084 | for a quantizer, which is not negative, the test refuses exactly products that are no short |
| Jpeg.ProductTest | 3rd_party/imageHelper/stb_image.h:1078-1084 | the test is right on exactly these numbers: a second factor that is not negative, -1 with a first factor from -32767 to 32768, or another negative one with a first factor that is not negative or just fits |
| JpegEncode.BlockBack | 3rd_party/imageHelper/stb_image.h:2216-2268 | a block that sections F.1.2.1 and F.1.2.2 of T.81 write is decoded to its coefficients, each at its own place of the zigzag order and times the quantizer of that place; refused exactly if the DC coefficient does not fit |
| JpegEncode.BlockFromFile | 3rd_party/imageHelper/stb_image.h:2081-2268 | the same from the bytes of a file: whole bytes of bits, stuffed zeros, fill bytes and a marker |
| JpegEncode.AcBack | 3rd_party/imageHelper/stb_image.h:2234-2266 | runs of zeros, runs of sixteen and the end of the block included |
| JpegEncode.DcBack | 3rd_party/imageHelper/stb_image.h:2221-2228 | the difference of a DC coefficient comes back |
| JpegEncode.ExtendBack | 3rd_party/imageHelper/stb_image.h:2160-2173 | a value comes back from its bits |
| JpegEncode.SizeBound | 3rd_party/imageHelper/stb_image.h:2160-2173 | the size of a value is the number of its category in table F.1 |
| JpegEncode.NumbersBack | 3rd_party/imageHelper/stb_image.h:2200-2213 | the table of places inverts the numbers of figure A.6 |
| JpegEncode.ShortIs | 3rd_party/imageHelper/stb_image.h:2250-2262 | the conversion to a short keeps what is one |
| JpegEncode.LuminanceCode | 3rd_party/imageHelper/stb_image.h:2009-2051 | the codes made from the counts of table K.3 of T.81 are those that the table has |
| Shapes.ShapeFromOperands | express/Expr.cpp:308-364 | what inference means: the shapes of the outputs that the operands name, in order, and a shape for every output |
| Shapes.OperandWithoutShape | express/Expr.cpp:308-364 | an operator with an operand that has no shape has none |
| Shapes.Graph.GetInfo | express/Expr.cpp:737-746 | after creations, reads and resizes of leaves that find memory, a variable's shape is exactly what recursive inference gives from the present shapes of the leaves, and null exactly when inference fails |
| Shapes.Graph.RequireInfo | express/Expr.cpp:308-364 | infers what is not remembered; what is clean stays clean, and failure is remembered only where inference fails |
| Shapes.Graph.Resize | express/Expr.cpp:748-782 | a leaf's new shape reaches everything that it can change; if memory for it cannot be had, the shape is set and nobody is told; for an operator that is not a constant the given shape takes the place of the inferred one |
| Shapes.Graph.VisitOutputs | express/Expr.cpp:952-974 | stops at expressions that have nothing to forget, yet all users of everything that has forgotten have forgotten too |
| Shapes.Graph.SetInfoDirty | express/Expr.cpp:975-989 | forgets, and goes on only if there was something to forget |
| Shapes.Graph.CreateOp | express/Expr.cpp:204-226 | a new operator is linked from its operands and disturbs nothing |
| Shapes.StillRight | express/Expr.cpp:975-989 | after a resize what is still clean has the shapes that it had and what is still marked invalid has none, although the traversal is cut short |
| ExecuteOrder.Walker.GetExecuteOrder | express/Expr.cpp:1371-1420 | terminates with the expressions behind the outputs, each once, and all flags cleared; operands come first, and nothing is missing, exactly if every constant output has only constant outputs before it as operands; in any case the outputs are there, the constant ones first, and whatever comes after those comes after its operands |
| ExecuteOrder.Walker.Begin | express/Expr.cpp:1374-1390 | constants come at once, everything else is pending |
| ExecuteOrder.Walker.FirstUnvisited | express/Expr.cpp:1398-1408 | the first operand that is still to be visited, all before it null or visited |
| ExecuteOrder.Complete | express/Expr.cpp:1391-1415 | the condition on constants is necessary and sufficient |
| StoredGraph.ConstantsAre | express/Expr.cpp:1381-1389 | the constants among the outputs are the constant tensors and the blobs that are not trainable |
| StoredGraph.ConstantsAlone | express/Expr.cpp:1381-1389 | constants without operands meet that condition |
| StoredGraph.ConstantTooSoon | express/Expr.cpp:1381-1389 | a constant output that reads something else comes before it |
| StoredGraph.ReachedInOrder | express/Expr.cpp:1371-1420 | an order with all operands first leaves nothing out that an output reads |
| SaveLoad.Save | express/Expr.cpp:1129-1275 | the net has the operators in order with the inputs, index ranges and names of their expressions |
| SaveLoad.DefinedBeforeUse | express/Expr.cpp:1239-1248 | a saved operator uses tensors of operators before it only |
| SaveLoad.RangesTile | express/Expr.cpp:1166-1176 | every tensor index belongs to one output of one operator |
| SaveLoad.CreateOp | express/Expr.cpp:1180-1258 | the entry of one expression: operator or blob, name, input and output indices |
| SaveLoad.Names | express/Expr.cpp:1252-1275 | every tensor has a name, its own or one made from its operator's |
| SaveLoad.Load | express/Expr.cpp:1034-1107 | makes an expression and its variables for each operator in order, with operands up to the first unknown index |
| SaveLoad.RoundTrip | express/Expr.cpp:1010-1107 | loading what was saved gives the same expressions in order, with operands, output indices, constants and filled-in names; for each expression this holds if and only if it has no null operand, no unknown batch, an element type that is stored, no empty parameter and no operator that loading turns into a tensor |
| KnownNet.KnownSaved | express/Expr.cpp:1129-1275 | a graph with all kinds of tensors, made up names, a null operand and a second output, and the net that it is saved as |
| KnownNet.KnownLoaded | express/Expr.cpp:1010-1107 | and the expressions that are loaded from that |
| KnownNet.KnownImported | express/Expr.cpp:1010-1107 | what is loaded from a net without names, with an index that two operators give, one that none gives and parameters without data |
| KnownNet.DecimalIs | express/Expr.cpp:1249-1251 | the numbers in made up names are in decimal digits |
| SaveLoad.SavedLoadable | express/Expr.cpp:228-304 | what is saved from expressions that Expr::create makes can be loaded |
| SaveLoad.BackIsRenamed | express/Expr.cpp:228-304 | the condition for one expression, in both directions |
| SaveLoad.KnownIs | express/Expr.cpp:1038-1045 | saved input indices lead back to the variables of the operands |

## Left out

- Inflate.ZlibDecodeMalloc: a zero initial size is excluded, because doubling zero never ends when output is needed and allocating zero bytes may fail; failing allocations are not modelled.
- InflateStandard.InflatedIsStandard: incomplete codes, on which the standards are silent, are counted as standard, and streams with a preset dictionary as wrong.
- OpFuse.FusePass.Run: the Raster branch of the legality test and of fuseNode, the OpenCL merging of convolution and PReLU, vector widths and the per-target legality lists; legality is being element-wise.
- SourceModule.BuildKernel: kernel text, names and macros; a kernel is a list of numbered variables and inputs.
- PostDominators.LCA: nodes with equal topoIndex, for which the walk may leave the tree.
- Express.Executor.Write: the scale and zero point of quantised leaves, and pointers kept after the write.
- Express.Executor.InformDirty: operators whose shape needs the content of an operand, for which the traversal makes shapes be inferred again.
- Express.Executor.Resize: the refusal of input leaves whose shape is not known; shapes are fixed.
- Express.Executor.Read: tensors on other devices, quantised leaves and the mapping of device memory; resizing of leaves and the caches that it drops, of which only the shapes are modelled, on their own; null operands.
- Express.Executor.CreateOp: the eager, compute-once and content modes of the executor, destruction of expressions, and replacing one expression by another.
- The order in which std::set hands out caches is left open, so the results hold for every order.
- Shapes.Graph.GetInfo: operators whose shape needs the content of an operand, closed inputs, and operators that a resize has given a shape by hand.
- Shapes.Graph.SetInfoDirty: the cache and the content that are dropped with the shapes.
- SaveLoad.Save: subgraphs, quantisation, the static usage with its tensor descriptions, and content that only a device has; the packing of a net into bytes.
- SaveLoad.Load: constants of half precision, the shapes that the net keeps for tensors, and nets in which a constant or an input has not one output; the data of an empty blob are taken to be a null pointer.
- Module and session code, and all back ends.
- Gif.Decoder.Image: colours beyond the end of a table, and the limits on sizes.
- GifImage.GifFile.ImageBlock: nothing is said about indices beyond the table, whose colours are left over; the loop over blocks, the disposal of frames and delays.
- LzwSpec.DecodeFitting: a minimum code size of 0, which the standard excludes.
- Png.CreateImageRaw: the limits on sizes and failing allocations; the output is a list of samples, so the byte order of 16-bit samples is left out, and each row is filtered in one loop with a test for its first bytes.
- PngInterlace.CreateImage: chunks, palettes, transparency and the conversion to the wanted number of channels.
- Jpeg.Decoder.DecodeBlock: the tables must be those of safe codes; the function is split at the DC part, the AC symbol and the writing of a coefficient.
- Progressive JPEG scans, restart intervals, the inverse transform and colour conversion.
- The rest of stb_image, its file input and the other image formats.
