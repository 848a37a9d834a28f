# Verified models of FreeImage's stateful algorithms

FreeImage is a C++ library that loads, converts and saves images. This project models the parts of
it that work by changing state step by step, in Dafny, and proves what those parts are for.

| file | models |
|---|---|
| `CArith.dfy` | C's truncating division, 32-bit limits, small facts about quotients |
| `Scan.dfy` | the pseudo-random scan of NeuQuant's learning loop, as number theory |
| `NetLearn.dfy`, `NetIndex.dfy` | NeuQuant's learning step and colour index as functions of values, and what every step keeps |
| `NNQuantizer.dfy` | the NeuQuant quantizer: arrays trained in place, sorted, indexed and searched |
| `ColorTable.dfy`, `LFPQuantizer.dfy` | the lossless pseudo-quantizer: linear probing as a map, and the class around it |
| `BlockStore.dfy`, `CacheFile.dfy`, `CacheRun.dfy` | the page cache: files as block chains, the class with its memory list, disk list, index and free list, and whole runs of it |
| `MemoryStream.dfy` | the growable memory stream |
| `Chunks.dfy`, `PngSplice.dfy` | chunk sequences (section 3.2 of RFC 2083), and searching, removing, inserting and counting chunks |
| `Jng.dfy`, `JngMeta.dfy`, `JngParser.dfy`, `JngRoundTrip.dfy`, `JngOutcome.dfy`, `JngFile.dfy` | the JNG container: what is written, the metadata chunks, the parser turn by turn, the round trip, what the outcomes hold, and the code over memory streams |
| `Bayer.dfy`, `FloydSteinberg.dfy`, `Threshold.dfy` | ordered dithering, error diffusion, packing to one bit |

Objects that the source updates in place are classes or arrays here, and each method's contract
ties its new state to a function of the old one. The laws are then proved about those functions:

- Every index that NeuQuant writes names a palette colour at minimum distance; the scan samples
  every pixel once; through all of learning bias and frequency balance and all numbers stay in range; an image
  of one colour comes out exact.
- The lossless quantizer is exactly lossless, and fails exactly when there are too many colours.
- The page cache gives back the bytes that were stored, in every run and in both modes, in spill mode without
  deletions and with at most 65545 block numbers, whatever else is stored, read and spilled meanwhile, as long as
  the first handle is not deleted; after that it does if and only if no recycled block 0 continues a file.
- What the JNG writer emits parses back to the same header, JPEG bytes and alpha payloads. An image comes out of
  a complete chunk list, or of one whose last chunk is completed by stale bytes. On which streams the parser's loop
  does not end, and on which it reads outside its buffers, is described exactly.
- The Bayer ranks are a bijection for every order, and tiles keep their brightness; diffused errors never
  accumulate, and every pixel is what its four neighbours' errors make it.

Findings about the code:

- `mng_CopyRemoveChunks` sizes the new stream as old length plus chunk length where its comment says new
  file length (MNGHelper.cpp:440-441), so a removal appends uninitialized bytes (`CopyRemoveChunks`).
- A recycled block number 0 ends the chain it was meant to continue (`FetchGivesStored`; the run
  `CacheRuns.RecycledZeroTruncates` loses a byte).
- The comment at NNQuantizer.cpp:38-39 assumes that no image length is divisible by all four primes. For lengths
  that an `int` holds this is a theorem (`Int32LengthsAreSafe`); the clamp of `unbiasnet` never takes effect
  (`UnbiasGivesColor`).
- Until a chunk with data was read, the parser's buffer is a null pointer and zlib starts over at 0
  (crc32.c:628), so a leading chunk without data is accepted with a CRC of 0 and no other (`LeadingChunk`).
- The parser does not test its reads (MNGHelper.cpp:815-837). At the end of a file it goes on with the name and the
  CRC of the chunk before: it never returns on a signature and twelve zero bytes (`TwentyBytesHang`,
  `HangsExactly`), and can load a container whose last byte is missing (`CutContainer`).
- It does not test the lengths of metadata chunks either: a pHYs or bKGD chunk is looked for in whatever buffer the
  last chunk with data left, or behind a null pointer, and the value of a tEXt chunk up to a zero byte that need not
  be there (MNGHelper.cpp:729, 1047-1065; `FaultsExactly`, `TwentyBytesFault`).
- Beyond 65545 block numbers the slots of the spill file overlap, as their offsets are 32-bit products
  (CacheFile.cpp:99; `SpillSlotsExact`).

What comes from outside is a parameter: the CRC routine of zlib, of which only the law is used that a
CRC can be computed in two parts; the hash function's value, over which the table's proofs range; what
the JPEG and PNG codecs saved; what newly allocated buffers and unset variables hold, where it can be seen.
Images are two-dimensional arrays of pixels. Unsigned and signed 32-bit limits are written out wherever
the code depends on them. The host is little-endian with a `long` of 64 bits, as file offsets and chunk lengths
from 2^31 on are negative in a narrower one; only `PositionsFitExactly` is about a `long` of 32 bits. An
allocation of no bytes is taken to give a pointer that is not null.

## Model

| member | source | states |
|---|---|---|
| `Scan.ScanClosedForm` | Source/FreeImage/NNQuantizer.cpp:380-411 | the wrapped scan position of sample k is three times (prime times k modulo the pixel count) |
| `Scan.CoprimeScanVisitsAll` | Source/FreeImage/NNQuantizer.cpp:380-411 | a prime that does not divide the pixel count makes the scan meet every pixel, none twice |
| `Scan.ScanExact` | Source/FreeImage/NNQuantizer.cpp:380-411 | the scan meets every pixel exactly once if and only if the four candidate primes do not all divide the buffer length; otherwise it is back at the first pixel after n/503 samples |
| `Scan.Int32LengthsAreSafe` | Source/FreeImage/NNQuantizer.cpp:38-45 | no buffer length that an int holds is divisible by all four primes, so the fallback 503, which the code takes unchecked, is safe |
| `Scan.EveryAcceptedImageIsScannedOnce` | Source/FreeImage/NNQuantizer.cpp:357-413 | for every image whose byte length fits an int the scan meets each pixel exactly once |
| `NetLearn.SamplesAreDistinct` | Source/FreeImage/NNQuantizer.cpp:357-413 | with any sampling factor no pixel is sampled twice; with factor one every pixel is sampled |
| `NetLearn.EveryPixelIsLearned` | Source/FreeImage/NNQuantizer.cpp:396-411 | with sampling factor one, for every row and column some turn of the loop takes exactly that pixel, sixteenfold, as its sample |
| `NetLearn.FirstMin` | Source/FreeImage/NNQuantizer.cpp:249-270 | the winner of a contest is the first neuron with a smallest value |
| `NetLearn.PullStaysBetween` | Source/FreeImage/NNQuantizer.cpp:288-290 | a move by a factor between 0 and 1 with truncating division never leaves the segment between a component and its target |
| `NetLearn.PullExact` | Source/FreeImage/NNQuantizer.cpp:284-291 | a move by a/scale leaves (scale-a)/scale of the distance, rounded up; a full move reaches the target, and from the target there is none |
| `NetLearn.RadPowerExact` | Source/FreeImage/NNQuantizer.cpp:374-377 | the power of distance d is alpha times 1 - d^2/rad^2, cut in steps of 1/256 |
| `NetLearn.RadOfExact` | Source/FreeImage/NNQuantizer.cpp:374-375 | the radius in neurons is a 64th of the radius, cut, and a radius of one neuron counts as none |
| `NetLearn.AbsorbMoves` | Source/FreeImage/NNQuantizer.cpp:288-324 | one sample moves the first neuron with the smallest distance less bias by alpha/1024 of its way to the sample in all three components, each neighbour nearer than the radius by its power, and no other neuron |
| `NetLearn.AbsorbCounts` | Source/FreeImage/NNQuantizer.cpp:243-276 | frequencies are moving averages over 1024 contests in which a win of the nearest neuron counts 65536, to within one, and what a frequency gains 1024-fold its bias loses |
| `NetLearn.RadPowerInRange` | Source/FreeImage/NNQuantizer.cpp:374-377 | every entry of radpower is in 0..2^18, whatever alpha in 0..1024 and radius |
| `NetLearn.ContestKeepsBalance` | Source/FreeImage/NNQuantizer.cpp:271-276 | a contest keeps bias + 1024 freq of every neuron at 1024 (65536 / netsize), and freq in 0..65536 |
| `NetLearn.AbsorbKeeps` | Source/FreeImage/NNQuantizer.cpp:396-407 | contest, winner's move and neighbours' moves together keep ranges and balance |
| `NetLearn.StepKeepsTrained` | Source/FreeImage/NNQuantizer.cpp:396-422 | one turn of the learning loop keeps every range, the balance, alpha in 0..1024 and the radius within its start |
| `NetLearn.LearningKeepsTrained` | Source/FreeImage/NNQuantizer.cpp:396-423 | after any number of samples all of this holds, and sample k is taken at scan position k |
| `NetLearn.OneColorIsReached` | Source/FreeImage/NNQuantizer.cpp:396-423 | in an image of one colour some neuron stands exactly at that colour after every positive number of samples |
| `NetLearn.InitialIsTrained` | Source/FreeImage/NNQuantizer.cpp:84-93 | the initial network meets the invariants |
| `NetLearn.InitialIsEven` | Source/FreeImage/NNQuantizer.cpp:84-93 | the initial colours are grey, in even steps |
| `NetLearn.ParamsExact` | Source/FreeImage/NNQuantizer.cpp:357-371 | as many samples as the sampling factor allows, a hundred cycles if there are that many samples, and an alpha decay of 30 and a third of the factor |
| `NetLearn.UnbiasGivesColor` | Source/FreeImage/NNQuantizer.cpp:99-112 | every learned component unbiases to 0..255; the upper clamp never takes effect |
| `NetLearn.StepFitsInt32` | Source/FreeImage/NNQuantizer.cpp:232-324 | in every state of learning, whatever the radius, all products, sums and distances of contest and winner's move fit 32 bits, every distance beats the initial best, and the neighbours' moves fit at each distance below the radius |
| `Scan.PositionsWithin` | Source/FreeImage/NNQuantizer.cpp:409-411 | no position is beyond the last pixel, and a full scan takes the last pixel |
| `Scan.SweepsDecide` | Source/FreeImage/NNQuantizer.cpp:409-411 | of all positions only those at the ends of sweeps, which have a closed form, decide whether a step can leave 32 bits |
| `NetLearn.PositionsFitExactly` | Source/FreeImage/NNQuantizer.cpp:409-411 | with any sampling factor every sum pos + step fits a 32-bit long if and only if it does at the end of each sweep that the samples reach; it does if the length leaves room for a step behind the last pixel, and in a full scan only then |
| `NNQuantizers.NNQuantizer.constructor` | Source/FreeImage/NNQuantizer.cpp:49-70 | table sizes, and an initial radius of an eighth of the palette but at least one neuron |
| `NNQuantizers.NNQuantizer.InitNet` | Source/FreeImage/NNQuantizer.cpp:84-93 | the network starts on the grey diagonal with equal frequencies and no bias |
| `NNQuantizers.NNQuantizer.UnbiasNet` | Source/FreeImage/NNQuantizer.cpp:99-112 | every neuron becomes its rounded colour and notes its place before the sort; the reserve entries stay |
| `NNQuantizers.NNQuantizer.Contest` | Source/FreeImage/NNQuantizer.cpp:232-278 | in one pass over arrays updated in place: returns the first minimum of the biased distances, and updates frequencies and biases as after a hit of the first minimum of the plain distances |
| `NNQuantizers.NNQuantizer.AlterSingle` | Source/FreeImage/NNQuantizer.cpp:284-291 | the winner alone moves |
| `NNQuantizers.NNQuantizer.SetRadPower` | Source/FreeImage/NNQuantizer.cpp:374-377 | entry d holds alpha (1 - d^2/rad^2) for d below the radius |
| `NNQuantizers.NNQuantizer.AlterNeigh` | Source/FreeImage/NNQuantizer.cpp:297-324 | each neuron at distance d below the radius moves by radpower[d], all others stay, and the walk stays inside both arrays |
| `NNQuantizers.NNQuantizer.WrapPos` | Source/FreeImage/NNQuantizer.cpp:410-411 | repeated subtraction wraps the position modulo the buffer length |
| `NNQuantizers.NNQuantizer.Decay` | Source/FreeImage/NNQuantizer.cpp:413-422 | every delta samples alpha and radius shrink and radpower is rebuilt for them; otherwise nothing changes |
| `NNQuantizers.NNQuantizer.LearnTurn` | Source/FreeImage/NNQuantizer.cpp:396-422 | one turn on the arrays is one step of the learning function |
| `NNQuantizers.NNQuantizer.Learn` | Source/FreeImage/NNQuantizer.cpp:350-425 | training in place computes the learning function of the image from the initial state, components in range |
| `NetIndex.CellsInOrder` | Source/FreeImage/NNQuantizer.cpp:145-156 | index cells are positions of the network and never decrease |
| `NetIndex.CellMeaning` | Source/FreeImage/NNQuantizer.cpp:145-156 | a present green's cell is the midpoint between the starts of its run and the next, the last position for the final run; an absent green's is the first larger entry or the last position |
| `NetIndex.SortRound` | Source/FreeImage/NNQuantizer.cpp:125-153 | one round of the selection sort keeps the entries and fixes the cells up to the new green |
| `NNQuantizers.NNQuantizer.InxBuild` | Source/FreeImage/NNQuantizer.cpp:118-157 | sorts whole entries by green, a permutation of the network, and fills all 256 cells with what counting on the unsorted network gives |
| `NetIndex.StopUpward` | Source/FreeImage/NNQuantizer.cpp:174-178 | where the search upward stops, no later entry is nearer |
| `NetIndex.StopDownward` | Source/FreeImage/NNQuantizer.cpp:199-203 | where the search downward stops, no earlier entry is nearer |
| `NNQuantizers.NNQuantizer.InxSearch` | Source/FreeImage/NNQuantizer.cpp:163-226 | the pruned two-sided search names an entry at minimum distance over the whole network, wherever it starts |
| `NetIndex.NearestInPalette` | Source/FreeImage/NNQuantizer.cpp:485-502 | although the palette is written before the sort, the number found names a nearest palette colour |
| `NetIndex.OneColorIsKept` | Source/FreeImage/NNQuantizer.cpp:431-507 | an image of one colour keeps it at every pixel, if the reserve palette leaves a place; in any image a pixel whose colour is in the palette keeps it |
| `NetIndex.EffectiveSamplingExact` | Source/FreeImage/NNQuantizer.cpp:451-453 | an image with too few pixels for a hundred cycles and one more at this factor is sampled fully |
| `NNQuantizers.NNQuantizer.AddReservePalette` | Source/FreeImage/NNQuantizer.cpp:466-472 | the last entries become the reserve colours, numbered by their places; the others stay |
| `NNQuantizers.NNQuantizer.WritePalette` | Source/FreeImage/NNQuantizer.cpp:481-489 | each palette entry is its neuron's colour |
| `NNQuantizers.NNQuantizer.MapPixels` | Source/FreeImage/NNQuantizer.cpp:495-504 | each pixel gets the place of a nearest colour |
| `NNQuantizers.NNQuantizer.Quantize` | Source/FreeImage/NNQuantizer.cpp:431-507 | every index names a palette colour at minimum L1 distance from its pixel; the palette is the learned colours of the image followed by the reserve palette; pixels whose colour is in the palette, and images of one colour, come out exact |
| `ColorTable.MaskDropsFourthByte` | Source/FreeImage/LFPQuantizer.cpp:74-74 | a masked four-byte read is the pixel's 24-bit colour whatever the fourth byte is, and never the marker of an empty bucket |
| `ColorTable.ColorTellsBytes` | Source/FreeImage/LFPQuantizer.cpp:74-74 | two pixels have the same colour if and only if their three bytes are the same |
| `ColorTable.FreeSlotExists` | Source/Quantizers.h:272-284 | a table of fewer than 512 colours has an empty bucket, so both probe loops end |
| `ColorTable.FullSlotsAreColors` | Source/FreeImage/LFPQuantizer.cpp:153-168 | taken buckets are as many as the distinct colours in them |
| `ColorTable.AbsentAtFreeSlot` | Source/FreeImage/LFPQuantizer.cpp:154-166 | a probe that runs into an empty bucket proves the colour absent |
| `ColorTable.InsertKeepsProbing` | Source/FreeImage/LFPQuantizer.cpp:160-161 | storing a new colour in the first empty bucket of its probe keeps every key reachable and the table equal to the extended map |
| `ColorTable.PlaceSlot` | Source/FreeImage/LFPQuantizer.cpp:204-210 | no two buckets share a palette place, so writing one entry destroys no other |
| `LFP.LFPQuantizer.constructor` | Source/FreeImage/LFPQuantizer.cpp:28-32 | an empty table with the given limit |
| `LFP.LFPQuantizer.AtMostHalfFull` | Source/Quantizers.h:272-277 | at most 256 of the 512 buckets are ever taken |
| `LFP.LFPQuantizer.GetIndexForColor` | Source/FreeImage/LFPQuantizer.cpp:153-168 | is map lookup: the stored place, a new place, or -1 exactly when the colour is new and the palette is full |
| `LFP.LFPQuantizer.AddReserveEntry` | Source/FreeImage/LFPQuantizer.cpp:183-192 | a reserve dword is stored unless it is in the table already or is 0xFFFFFFFF |
| `LFP.LFPQuantizer.AddReservePalette` | Source/FreeImage/LFPQuantizer.cpp:176-195 | the reserve colours take the top places, the first of equal dwords wins, and every entry is charged |
| `LFP.LFPQuantizer.WritePalette` | Source/FreeImage/LFPQuantizer.cpp:204-210 | every colour stands at its place; places of no colour keep their value |
| `LFP.LFPQuantizer.MapPixel` | Source/FreeImage/LFPQuantizer.cpp:75-82 | the memo of the last colour gives what a lookup would give |
| `LFP.LFPQuantizer.MapImage` | Source/FreeImage/LFPQuantizer.cpp:61-137 | the three loops of the 24-bit case, and the one of the 32-bit case, cover every pixel, or stop at a colour without a place |
| `LFP.LFPQuantizer.Quantize` | Source/FreeImage/LFPQuantizer.cpp:38-141 | lossless: the palette entry of every pixel is its 24-bit colour; there is a result if and only if the colours not held by the reserve palette number at most the places it leaves, repeated entries counting; the reserve colours keep their order at the top of the palette |
| `BlockStore.WalkUnique` | Source/FreeImage/CacheFile.cpp:211-223 | the chain that the links lead through is unique |
| `BlockStore.CopiedPieces` | Source/FreeImage/CacheFile.cpp:211-223 | reading a chain with room for what it holds starts with what it holds |
| `BlockStore.KeptIsFile` | Source/FreeImage/CacheFile.cpp:232-263 | what a handle leads to after a write is a file: the written chain up to a continuation block with number 0, with the bytes in it |
| `BlockStore.KeptExact` | Source/FreeImage/CacheFile.cpp:232-263 | nothing of the data is lost if and only if no block that continues it has number 0; what is lost is everything behind a whole number of blocks |
| `BlockStore.ReadBackExact` | Source/FreeImage/CacheFile.cpp:206-263 | reading back what was written is exact if and only if no block that continues its data has number 0 |
| `BlockStore.ReadBackFromFreeList` | Source/FreeImage/CacheFile.cpp:116-263 | the same on the state before the call: exact if and only if no recycled number that the data takes after its first is 0 |
| `BlockStore.ZeroInUseFits` | Source/FreeImage/CacheFile.cpp:121-126 | while block 0 is in use every new file is whole |
| `BlockStore.SpillSlotsExact` | Source/FreeImage/CacheFile.cpp:99-100 | every spilled block survives the spilling of every other one, whatever the file and the two hold, if and only if at most 65545 numbers are in use, since the offset is a 32-bit product |
| `BlockStore.SpillKeeps` | Source/FreeImage/CacheFile.cpp:99-100 | below that limit a block written to its slot can be read back and all other slots keep their bytes |
| `BlockStore.OffsetsFitExactly` | Source/FreeImage/CacheFile.cpp:206-263 | the offsets that reading and writing a file count up to fit an int if and only if its size is below 2147483616 |
| `BlockStore.FilesAfterWrite` | Source/FreeImage/CacheFile.cpp:232-263 | a write leaves every stored file as it was and adds the new one |
| `BlockStore.FileReadsBack` | Source/FreeImage/CacheFile.cpp:206-229 | in a store that holds a file, the walk from its handle is its chain and copies its bytes |
| `BlockStore.RemoveFile` | Source/FreeImage/CacheFile.cpp:266-281 | taking away one file's blocks leaves every other file as it was |
| `BlockStore.TakeNumber` | Source/FreeImage/CacheFile.cpp:121-126 | taking a recycled or a new number keeps indexed and free numbers a duplicate-free partition of 0..count-1 |
| `CacheFiles.CacheFile.constructor` | Source/FreeImage/CacheFile.cpp:34-63 | an empty cache in the given mode: no blocks in either list, no files, no numbers handed out |
| `CacheFiles.CacheFile.SpillLast` | Source/FreeImage/CacheFile.cpp:96-110 | the oldest block is written to the file at its number's offset; no block's contents change |
| `CacheFiles.CacheFile.CleanupMemCache` | Source/FreeImage/CacheFile.cpp:93-113 | in spill mode one block beyond 32 leaves memory, never the locked one; contents stay |
| `CacheFiles.CacheFile.AllocateBlock` | Source/FreeImage/CacheFile.cpp:116-134 | the oldest recycled number first, then a new one; every other block keeps its contents |
| `CacheFiles.CacheFile.WhereIs` | Source/FreeImage/CacheFile.cpp:137-161 | an indexed block is in exactly one list: with data in memory, or without on disk |
| `CacheFiles.CacheFile.Reload` | Source/FreeImage/CacheFile.cpp:148-155 | a spilled block is read back from the file at its number's offset; no contents change |
| `CacheFiles.CacheFile.LockBlock` | Source/FreeImage/CacheFile.cpp:137-173 | returns the indexed block, resident, at most 32 blocks in memory, contents unchanged; null if another block is locked or the number is unknown |
| `CacheFiles.CacheFile.WriteBlock` | Source/FreeImage/CacheFile.cpp:242-257 | one turn of the write loop fills one block, and links a new one if there is more |
| `CacheFiles.CacheFile.WriteFile` | Source/FreeImage/CacheFile.cpp:232-263 | the next numbers are taken, in order; the data stands in their blocks, in both modes and however many blocks are spilled meanwhile, as long as the numbers have slots; the handle leads to what is before a continuation block 0; all other files stay |
| `CacheFiles.CacheFile.ReadFile` | Source/FreeImage/CacheFile.cpp:206-229 | copies what the links lead through and nothing else; a file's handle, with room for it, gives its bytes first, and nothing behind them if they fill its blocks; nothing stored changes |
| `CacheFiles.CacheFile.DeleteBlock` | Source/FreeImage/CacheFile.cpp:185-203 | the number leaves the index and joins the end of the free list |
| `CacheFiles.CacheFile.DeleteFile` | Source/FreeImage/CacheFile.cpp:266-281 | ends, frees exactly the chain that the handle leads to, in order, and leaves every other file's bytes; an unknown number deletes nothing |
| `CacheRuns.Run` | Source/FreeImage/CacheFile.cpp:115-281 | any sequence of writes, reads and deletions on a new cache, in either mode, in spill mode with at most 65545 numbers, gives what a map from handles to bytes gives |
| `CacheRuns.StoreStores` | Source/FreeImage/CacheFile.cpp:232-263 | whatever came before, a store of some bytes stores these bytes, under a handle that no live file has |
| `CacheRuns.FetchGivesStored` | Source/FreeImage/CacheFile.cpp:206-281 | in every such run and both modes a store gives a handle, and a later read of it, not deleted between, gives the bytes that the store was asked to store, but for whole blocks at the end, lost if and only if a recycled number 0 continued them at the store |
| `CacheRuns.FetchIsExact` | Source/FreeImage/CacheFile.cpp:206-281 | such a run that has not deleted handle 0 before a store, so each one in spill mode and each one without deletions, gives back exactly the bytes it was asked to store |
| `CacheRuns.DroppedIsGone` | Source/FreeImage/CacheFile.cpp:265-281 | a deleted handle gives nothing until a store gives it out again |
| `CacheRuns.NothingFreed` | Source/FreeImage/CacheFile.cpp:115-127 | in spill mode no number is recycled |
| `CacheRuns.RecycledZeroTruncates` | Source/FreeImage/CacheFile.cpp:115-281 | a run on a new cache that loses a byte: two one-block files deleted in the order 1, 0, then two blocks written |
| `MemoryStreams.OverwriteReadsBack` | Source/FreeImage/FreeImageIO.cpp:229-234 | the bytes written are read back at their position, every other byte is unchanged, and the length grows only as needed |
| `MemoryStreams.MemoryStream.Open` | Source/FreeImage/MemoryIO.cpp:36-65 | an empty stream that owns its buffer |
| `MemoryStreams.MemoryStream.Wrap` | Source/FreeImage/MemoryIO.cpp:49-54 | a user buffer as a stream, its whole length the file |
| `MemoryStreams.MemoryStream.Read` | Source/FreeImage/FreeImageIO.cpp:133-170 | whole items are counted; a short read still takes all that is left and moves to the end; nothing past the copied bytes of the buffer changes |
| `CArith.ProductFits` | Source/FreeImage/FreeImageIO.cpp:149-165 | the division test is the comparison of the exact product with the bytes that are left |
| `MemoryStreams.MemoryStream.Grow` | Source/FreeImage/FreeImageIO.cpp:203-227 | the doubling loop ends with the capacity above the write's end, or refuses, exactly when the end is 2^31-1; contents stay |
| `MemoryStreams.MemoryStream.WriteProc` | Source/FreeImage/FreeImageIO.cpp:172-237 | a write is accepted exactly if it ends before 2^31-1; it then overwrites or appends exactly its bytes; a refused one changes neither bytes nor cursor |
| `MemoryStreams.MemoryStream.Write` | Source/FreeImage/MemoryIO.cpp:206-223 | the same, and a wrapped user buffer is never written |
| `MemoryStreams.MemoryStream.Seek` | Source/FreeImage/FreeImageIO.cpp:254-293 | any position an int can hold, beyond the end too; otherwise the cursor stays |
| `Chunks.BE32RoundTrip` | Source/FreeImage/MNGHelper.cpp:253-258 | a number swapped out and in again is the same number |
| `Chunks.NetworkOrder` | Source/FreeImage/MNGHelper.cpp:254-258 | four bytes are a number's if and only if it is their value to the base 256, highest first |
| `Chunks.FieldsAt` | Source/FreeImage/MNGHelper.cpp:382-403 | the fields of a chunk at its position in any stream |
| `Chunks.ListOfEncoded` | Source/FreeImage/MNGHelper.cpp:298-342 | what a reader that stops at IEND sees of an encoded chunk list is that list, whatever precedes and follows |
| `Chunks.EncodedFromList` | Source/FreeImage/MNGHelper.cpp:298-342 | conversely, a list that was read is encoded at that place |
| `PngSplice.CountIsListEnd` | Source/FreeImage/MNGHelper.cpp:298-349 | counting succeeds if and only if a chunk list up to IEND stands there whose IHDR chunks have 13 bytes, and gives its end |
| `PngSplice.CountPNGChunks` | Source/FreeImage/MNGHelper.cpp:283-349 | the loop over the stream computes that count and leaves the cursor behind IEND, or reports failure and zero |
| `PngSplice.LengthOfFile` | Source/FreeImage/MNGHelper.cpp:263-270 | the length of the file; the cursor comes back |
| `PngSplice.FindInEncoded` | Source/FreeImage/MNGHelper.cpp:361-413 | in an encoded chunk list the search finds exactly the first chunk with the name; without one it goes on behind the list, whatever stands there |
| `PngSplice.FindChunk` | Source/FreeImage/MNGHelper.cpp:361-413 | the loop with its 20-byte guard is that search |
| `PngSplice.CopyInsertChunks` | Source/FreeImage/MNGHelper.cpp:468-507 | the bytes are put in at the start position, the rest stays |
| `PngSplice.CopyRemoveChunks` | Source/FreeImage/MNGHelper.cpp:423-458 | the range is cut out; the code sizes the new buffer as if the range were added, so twice its length of what the buffer held follows |
| `PngSplice.RemoveChunk` | Source/FreeImage/MNGHelper.cpp:510-527 | search and cut, in any stream where the search meets no length that wraps 32 bits |
| `PngSplice.InsertChunk` | Source/FreeImage/MNGHelper.cpp:530-547 | search and insertion, in any such stream |
| `PngSplice.RemovedStarts` | Source/FreeImage/MNGHelper.cpp:510-527 | after a removal the stream starts with the list without its first chunk of the name, or with the whole list if it has none or the rewritten stream would reach 2^31-1 bytes, whatever junk follows |
| `PngSplice.InsertedStarts` | Source/FreeImage/MNGHelper.cpp:530-547 | after an insertion the stream starts with the list with the chunk just before the first one of the name, if the rewritten stream stays below 2^31-1 bytes |
| `PngSplice.UpToIend` | Source/FreeImage/MNGHelper.cpp:298-342 | up to IEND a reader sees exactly the list that the stream starts with |
| `PngSplice.PlugPalette` | Source/FreeImage/MNGHelper.cpp:946-955 | the four calls that plug in a global palette, each on what the one before left |
| `PngSplice.PluggedUpToIend` | Source/FreeImage/MNGHelper.cpp:946-955 | up to IEND a reader then sees the list without its first PLTE, tRNS and bKGD and with the palette just before its first IDAT, whatever the buffers held, as far as each rewritten stream stays below 2^31-1 bytes |
| `PngSplice.PluggedList` | Source/FreeImage/MNGHelper.cpp:946-955 | in a stream of less than an eighth of 2^31-1 bytes there is room for all four |
| `Jng.MadeChunkIsGood` | Source/FreeImage/MNGHelper.cpp:577-602 | the writer's CRC, with and without data, covers name and data, and is the one the parser computes |
| `Jng.HeaderRoundTrip` | Source/FreeImage/MNGHelper.cpp:1209-1224 | the sixteen JHDR bytes give the header fields back |
| `Jng.Pieces` | Source/FreeImage/MNGHelper.cpp:1242-1248 | every JDAT piece has 1 to 8192 bytes |
| `Jng.PiecesJoin` | Source/FreeImage/MNGHelper.cpp:1242-1248 | the JDAT pieces joined are the JPEG bytes |
| `Jng.NamedUpTo` | Source/FreeImage/MNGHelper.cpp:1270-1285 | the payloads collected up to one more found chunk are those before and its own |
| `Jng.EmitExact` | Source/FreeImage/FreeImageIO.cpp:186-201 | chunks written to a memory stream stand there complete if and only if they end before 2^31-1 |
| `Jng.JngStreamExact` | Source/FreeImage/MNGHelper.cpp:1203-1301 | the container is complete if and only if it is shorter than 2^31-1 bytes |
| `JngRoundTrip.ParseRun` | Source/FreeImage/MNGHelper.cpp:986-1004 | a run of JDAT or IDAT chunks with the writer's CRCs is accepted chunk by chunk and appends exactly the joined payloads |
| `JngRoundTrip.RoundTrip` | Source/FreeImage/MNGHelper.cpp:810-1041 | for every header, JPEG bytes and list of IDAT payloads, parsing the writer's chunks accepts every CRC and gives header, JPEG bytes and alpha stream back, with default metadata, whatever follows and whatever the variables held; without JPEG bytes there is no image, with an unknown alpha compression no alpha |
| `JngRoundTrip.ParsedImage` | Source/FreeImage/MNGHelper.cpp:810-1041 | for every stream: an image's JPEG bytes are the joined JDAT payloads of the whole chunks taken, whose CRCs passed, and its metadata is what their pHYs, bKGD and tEXt chunks left; these chunks are a complete list up to IEND, or no such list stands there and stale bytes completed a cut-off chunk to an IEND |
| `JngRoundTrip.ImageCrcs` | Source/FreeImage/MNGHelper.cpp:838-844 | of an image parsed from the start: leading chunks without data have CRC 0, all others the CRC of name and data; so all are right if and only if 0 is right for the leading ones |
| `JngRoundTrip.LeadingChunk` | Source/FreeImage/MNGHelper.cpp:838-844 | a container behind an empty chunk that neither ends nor collects anything is refused unless that chunk's CRC is 0, the right CRC included; with 0 it is loaded, but for pHYs, bKGD and tEXt, where the code reads outside its buffers |
| `JngRoundTrip.TwentyBytesFault` | Source/FreeImage/MNGHelper.cpp:1047-1069 | a signature and an empty pHYs, bKGD or tEXt chunk with CRC 0 make the code read outside its buffers, whatever follows |
| `JngRoundTrip.CutContainer` | Source/FreeImage/MNGHelper.cpp:810-844 | a container, with or without alpha payloads, that lost its last byte still gives its image if and only if its last data chunk's CRC begins with the byte that IEND's CRC ends with |
| `JngParser.CutIend` | Source/FreeImage/MNGHelper.cpp:810-844 | the same for any stream that ends inside the CRC of IEND |
| `JngParser.TurnWhole` | Source/FreeImage/MNGHelper.cpp:810-1078 | where a whole chunk stands, a turn takes it |
| `JngParser.ParseIsRun` | Source/FreeImage/MNGHelper.cpp:810-1078 | the parse is the outcome of some number of turns, or no number of turns ends the loop |
| `JngParser.HangsExactly` | Source/FreeImage/MNGHelper.cpp:810-1078 | the loop does not end if and only if no whole chunk ends it and the bytes left, completed by stale ones, pass the CRC check with a name that ends nothing, whose CRC alone is the stored bytes read in either order, and that does not make the code read outside its buffers |
| `JngParser.FaultsExactly` | Source/FreeImage/MNGHelper.cpp:1047-1069 | for every stream: the code reads outside its buffers if and only if a whole chunk that it takes is a pHYs with fewer than 8 bytes in the chunk buffer, a bKGD with fewer than 6 or a tEXt without a zero byte, or what stale bytes make of the bytes left is one |
| `JngParser.CompleteListEnds` | Source/FreeImage/MNGHelper.cpp:810-1078 | on every stream that holds a list up to IEND the loop ends, unless one of the list's chunks makes the code read outside its buffers |
| `JngOutcome.WholeChunksDecide` | Source/FreeImage/MNGHelper.cpp:810-1078 | on every stream of which the loop takes whole chunks only, the last one decides: an error for a JHDR of other than 16 bytes, an image for IEND if there was a JDAT, a PNG for IHDR if a list with 13-byte IHDRs stands there, or a search that wraps if there was a palette too |
| `JngOutcome.PngFromStream` | Source/FreeImage/MNGHelper.cpp:910-962 | for every stream that comes to a PNG: the loader is given a signature and, up to IEND, the stream's chunks from the first IHDR on; if a PLTE came before, without their first PLTE, tRNS and bKGD and with the last such PLTE just before their first IDAT, as far as the sizes allow |
| `JngOutcome.MetaFromStream` | Source/FreeImage/MNGHelper.cpp:1047-1065 | for every stream that comes to an image: which bytes of it become the two resolutions and the background, from the last pHYs and the last bKGD chunk taken |
| `JngOutcome.MetaDefaults` | Source/FreeImage/MNGHelper.cpp:791-795 | without such chunks resolution, background and texts are the defaults |
| `JngOutcome.LastMeta` | Source/FreeImage/MNGHelper.cpp:1047-1069 | the last chunk of a name decides its field, from its own data or, if it has none, from that of the last chunk that has some |
| `JngOutcome.TextFromData` | Source/FreeImage/MNGHelper.cpp:1067-1069 | the text of the last tEXt chunk stands under its keyword |
| `JngOutcome.CutDataIsRefused` | Source/FreeImage/MNGHelper.cpp:823-834 | a chunk whose data goes beyond the end of the file is an error |
| `JngOutcome.WrongCrcIsRefused` | Source/FreeImage/MNGHelper.cpp:835-844 | a whole chunk with data is refused if and only if its CRC is not that of its name and data |
| `JngParser.TwentyBytesHang` | Source/FreeImage/MNGHelper.cpp:810-1078 | on a signature and twelve zero bytes no number of turns ends it |
| `JngFile.WriteChunk` | Source/FreeImage/MNGHelper.cpp:577-602 | four writes at the end of the stream, each of which the stream may refuse |
| `JngFile.WritePNGStream` | Source/FreeImage/MNGHelper.cpp:616-658 | the stream is a signature and the three chunks of a greyscale PNG around the payload |
| `JngFile.WriteJpeg` | Source/FreeImage/MNGHelper.cpp:1236-1249 | the loop appends one JDAT chunk for each piece, in order |
| `JngFile.NextIdat` | Source/FreeImage/MNGHelper.cpp:1270-1285 | from behind any chunk the search finds the next IDAT and never stops early, as at least 24 bytes follow |
| `JngFile.WriteAlpha` | Source/FreeImage/MNGHelper.cpp:1264-1286 | the repeated search yields every IDAT payload once, in order, and stops |
| `JngFile.WriteJNG` | Source/FreeImage/MNGHelper.cpp:1146-1307 | exactly the depths 8, 24 and 32 are written; the bytes are what the stream accepted of the signature and the chunk list of the bitmap, and start with the signature and a JHDR that tells size and type: 14 with alpha, 8 for grey, 10 for colour |
| `JngFile.WrapPng` | Source/FreeImage/MNGHelper.cpp:910-962 | an embedded PNG is its chunks up to IEND behind a signature, with a global palette plugged in, or nothing if they are incomplete |
| `JngFile.FinishJng` | Source/FreeImage/MNGHelper.cpp:1006-1041 | an image if a JPEG was collected, with an alpha stream if payload bytes were |
| `JngFile.TakeMeta` | Source/FreeImage/MNGHelper.cpp:1047-1069 | resolution and background come from fixed places of the chunk buffer, which may hold an earlier chunk's data; all reads are in bounds unless the parse faults |
| `JngMeta.ReadText` | Source/FreeImage/MNGHelper.cpp:705-736 | one pass over the data in a buffer of its length finds keyword and value, in bounds for all data with a zero byte; zero bytes before the keyword are skipped |
| `JngMeta.TextComesBack` | Source/FreeImage/MNGHelper.cpp:705-736 | a keyword and a value joined by a zero byte come back if and only if neither holds a zero byte |
| `JngMeta.TextIgnores` | Source/FreeImage/MNGHelper.cpp:717-729 | zero bytes before a keyword and all behind the end of its value are ignored; what has no zero byte but leading ones is a value without a keyword |
| `JngFile.ReadTurn` | Source/FreeImage/MNGHelper.cpp:811-837 | the reads of one turn, short ones leaving the rest of name and CRC as they were |
| `JngFile.OneTurn` | Source/FreeImage/MNGHelper.cpp:810-1078 | one turn of the loop on streams and variables, the chunk buffer among them, is one turn of the pure parser |
| `JngFile.ReadChunks` | Source/FreeImage/MNGHelper.cpp:749-1117 | on every stream on which the loop ends, no chunk search wraps and nothing is read outside the buffers, the loop computes the parse and leaves the stream's bytes alone |
| `JngFile.SavedImageComesBack` | Source/FreeImage/MNGHelper.cpp:1146-1307 | a saved bitmap parses to an image of its size, colour type 14, 8 or 10, sample depth and compression 8, alpha depth 8 or 0, exactly the JPEG bytes, and for 32 bits an alpha stream of depth 8 around all IDAT payloads of the PNG joined; its metadata comes back as the default |
| `JngFile.AlphaIsPng` | Source/FreeImage/MNGHelper.cpp:616-658 | that stream is a signature and three chunks with right CRCs: an IHDR with these dimensions, depth and type grey, one IDAT with the payload given, and IEND |
| `Bayer.CellOfRank` | Source/FreeImage/Halftoning.cpp:138-160 | every cell of the 2^n by 2^n square is the cell of its rank, for every n |
| `Bayer.RankOfCell` | Source/FreeImage/Halftoning.cpp:138-160 | every number below 4^n is the rank of its cell, so ranks and cells correspond one to one |
| `Bayer.TileRank` | Source/FreeImage/Halftoning.cpp:138-160 | of the rank of an image's pixel in its tile the base-4 digits, highest first, are twice whether row and column differ in a bit, plus the column's bit, lowest bits first |
| `Bayer.RankUnique` | Source/FreeImage/Halftoning.cpp:138-160 | exactly one number has these digits |
| `Bayer.DitherValue` | Source/FreeImage/Halftoning.cpp:138-160 | the bit loop computes the rank |
| `Bayer.EntryFor` | Source/FreeImage/Halftoning.cpp:190-190 | the matrix is read, in bounds, at the row and the column of the pixel in its tile |
| `Bayer.BuildMatrix` | Source/FreeImage/Halftoning.cpp:177-182 | every entry is the level of its cell's rank |
| `Bayer.OrderFitsExactly` | Source/FreeImage/Halftoning.cpp:174-179 | the matrix size l*l, and with it every index and rank, fits an int if and only if the order is at most 15 |
| `Bayer.OrderedDispersedDot` | Source/FreeImage/Halftoning.cpp:164-201 | every pixel is white exactly if its grey's share of the tile exceeds the middle of its rank, the rank given by the bits of row and column |
| `Bayer.TileCount` | Source/FreeImage/Halftoning.cpp:185-196 | a tile of constant grey, wherever it stands, turns white at exactly as many cells as there are ranks whose level is below the grey |
| `Bayer.TileBrightness` | Source/FreeImage/Halftoning.cpp:177-196 | that count is the grey's share of the tile rounded to the nearest whole number: none at 0, all at 255 |
| `FloydSteinberg.ThresholdOf` | Source/FreeImage/Halftoning.cpp:40-40 | every random threshold is in [-65, 191] |
| `FloydSteinberg.ThresholdIs` | Source/FreeImage/Halftoning.cpp:40-40 | a seed is a step of the generator modulo 2^32 as a signed number, and a threshold is 63 and its upper twenty bits modulo 129 with its sign |
| `FloydSteinberg.ChainKeepsBrightness` | Source/FreeImage/Halftoning.cpp:62-97 | along a border, for any thresholds, the carried error is input minus output so far, and stays in [-319, 191] |
| `FloydSteinberg.FirstRowBrightness` | Source/FreeImage/Halftoning.cpp:86-97 | the first row's output differs from its input by at most 319 grey levels, however long it is |
| `FloydSteinberg.InitErr` | Source/FreeImage/Halftoning.cpp:41-41 | a white border pixel passes on -192 to -64, a black one 63 to 191, and twice the error is the grey plus 127 less twice the output, to within one |
| `FloydSteinberg.PixelStaysTame` | Source/FreeImage/Halftoning.cpp:107-115 | four errors in [-192, 191] give an error in [-192, 191], with truncating division by 16 |
| `FloydSteinberg.ErrorsNeverAccumulate` | Source/FreeImage/Halftoning.cpp:99-123 | in an image of any size every pixel becomes 0 or 255 and every stored error stays in [-192, 191] |
| `FloydSteinberg.ImageIsDiffused` | Source/FreeImage/Halftoning.cpp:52-129 | inside, a sixteenth of four errors with the weights 1, 5, 3 and 7 by place, cut toward zero, is added to the pixel, it is white exactly above 127, and what is left is passed on; a border pixel is white exactly if the input up to it exceeds the output before it by more than its threshold |
| `FloydSteinberg.BorderColumn` | Source/FreeImage/Halftoning.cpp:62-85 | one border pass writes its column as the chain of its thresholds demands, and nothing else |
| `FloydSteinberg.TopBorder` | Source/FreeImage/Halftoning.cpp:86-97 | the first row and the first error row |
| `FloydSteinberg.InteriorRow` | Source/FreeImage/Halftoning.cpp:100-123 | one row of the diffusion on error rows updated in place |
| `FloydSteinberg.FloydSteinberg` | Source/FreeImage/Halftoning.cpp:38-129 | the whole image, with swapped error rows, is the recursive definition, and is diffused: some errors and borders make every pixel what its neighbours and threshold demand |
| `Threshold.SetBits` | Source/FreeImage/Halftoning.cpp:463-463 | setting a pixel's bit touches that pixel only |
| `Threshold.ClearBits` | Source/FreeImage/Halftoning.cpp:460-460 | clearing a pixel's bit touches that pixel only; the bits of 0xFF7F above the byte do not matter |
| `Threshold.PackRow` | Source/FreeImage/Halftoning.cpp:457-465 | unpacking the packed row tells for each pixel whether it reached the threshold; bits behind the last pixel stay |

## Left out

- JngFile.ReadChunks: streams on which its loop does not end (HangsExactly), on which a metadata chunk makes it read outside its buffers (FaultsExactly), or on which a search while a palette is plugged in meets a length that wraps; the fields of MHDR, which decide nothing. The model keeps the interlace byte of JHDR, which the code skips.
- JngFile.WrapPng: searches that meet a length that wraps 32 bits.
- PngSplice.FindChunk: positions that wrap 32 bits, where the code reads outside the chunks or goes round; a length that large can only come from a malformed stream or from the junk behind a removed chunk.
- PngSplice.RemoveChunk: searches that wrap, as for FindChunk.
- PngSplice.InsertChunk: searches that wrap, as for FindChunk.
- MemoryStreams.MemoryStream.Wrap: user buffers above 2^31-1 bytes, whose length becomes a negative `int`.
- CacheFiles.CacheFile.DeleteFile: spill mode, where `deleteBlock` leaves the block in the memory list (CacheFile.cpp:185-203), and a later eviction points the index at it again (CacheFile.cpp:109-110); numbers of blocks inside a chain, which are nobody's handle.
- CacheFiles.CacheFile.DeleteBlock: spill mode, and numbers that are not indexed, which `deleteFile` never passes on.
- CacheFiles.CacheFile.WriteFile: in spill mode, more than 65545 numbers in use, where slots overlap (SpillSlotsExact); sizes from 2147483616 on, where `s + BLOCK_SIZE` leaves an `int` (OffsetsFitExactly).
- CacheRuns.Run: in spill mode, more than 65545 numbers in use, as for WriteFile, and deletions, as for DeleteFile; such an operation is then not carried out.
- CacheFiles.CacheFile.ReadFile: walks longer than the caller's size, where the code would copy a negative number of bytes; unknown numbers, where it would read through a null pointer; sizes from 2147483616 on (OffsetsFitExactly).
- NNQuantizers.NNQuantizer.Quantize: images above 65535 in a dimension, whose output loops count in 16 bits, and byte lengths beyond an `int`.
- LFP.LFPQuantizer.AddReservePalette: reserve palettes larger than the palette; the caller excludes them (Conversion.cpp:382-385).
- Bayer.BuildMatrix: orders above 15, whose matrix size leaves an `int` (OrderFitsExactly); the entries are computed in `double`; over powers of two these quotients are exact, so integers stand for them.
- Allocation failure, null handles, real files and their errors, and the order in which C++ frees memory.
- List iterators in the page cache are represented by the blocks they point at.
- The JPEG and PNG codecs, zlib's CRC itself, metadata but for what the JNG parser collects, ICC profiles and thumbnails.
- Wu's quantizer, floating-point conversions and the other file formats; the clustered-dot halftones and the line converters, which would add only easy members.
