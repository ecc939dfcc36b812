# Verified models of the hooking, signing and memory-search code

This project models five parts of the repository in Dafny and proves what they are for.

1. **The ARM64 relocator** (`Arm64*.dfy`, `MachineWords.dfy`). It moves a block of A64
   instructions by rewriting everything that depends on the program counter. The model has
   the word-level encoders and decoders, the assembler with its back-patched literal pool, a
   machine that executes the instructions concerned (other instructions are arbitrary
   functions of the registers they do not touch), and a simulation proof over every block
   and every pair of corresponding states. Calls are trace events; link registers are
   related through the map from original to relocated instructions. `Arm64Printing` says what
   the words of the architecture decode to, and where they reach.
2. **The code signer** (`MachO`, `LoadCommands`, `Tables`, `SuperBlob`, `CodeDirectory`,
   `HashStorage`, `Ldid`, `Signing`, `Entitlements`, `FatLayout`, `FatFile`, `LdidWriter`,
   `ImageReader`, `SignatureReader`). The
   layout and the bytes written by `Allocate`, `Sign` and `Unsign` for little-endian images, with
   the two hash functions uninterpreted. The loops that append to the stream and fill the
   hash array in place are methods proved against the byte-level specification, about which
   the theorems are stated. The two readers take images and signatures apart by the places
   and numbers of the formats, independently of how they are written.
3. **The memory scan engine** (`Scanning`, `NearbySearch`, `MemoryEngine`, `GroupSearch`).
   First scan, refinement, nearby search, group search and paging, for the integer types.
4. **The export trie and LEB128** (`ExportTrie`, `Leb128`): a byte-level walk against an
   abstract trie; numbers as in section 7.6 of DWARF Version 5.
5. **Stateful hooking support**: the rebinding list (`Fishhook`), the chunk allocators
   (`NearArena`), the Thumb-2 branch printer and literal pool (`ThumbBranch`,
   `ThumbAssembler`; sections A8.8.18, A8.8.25 and A8.8.64 of DDI 0406C), and the reversible mixer
   (`Lookup2`).

`Arithmetic.dfy`, `Bitwise.dfy`, `Bytes.dfy`, `Options.dfy` and `Reachability.dfy` hold what the
models share. `hide` statements
in proofs only keep definitions out of the solver's sight.

## Where the code does not do what it looks like

- A relocated `ldr Wt, label` becomes a 64-bit load, because the assembler's `ldr` always
  emits the X form (`assembler-arm64.h` lines 478-480), and so does a 32-bit or 64-bit vector
  load. `Arm64Limits.LiteralKeptExactlyWhenWide` gives the exact condition over all words; the
  simulation asks for 64-bit literal loads.
- `b.cond` with cond 14 or 15 is "inverted" into the other always-true condition.
  `Arm64Limits.ConditionKeptExactlyBelow14`, and `AlwaysBranchLost` for one word.
- The last page is hashed from the source file, not from what is emitted. Signing is a
  fixpoint exactly when the two hash the same, and what else is read from the source does too
  (`Signing.SigningTwice`); `Signing.OnePageNotAFixpoint` is a file for which it is not.
- Stripping does not always undo signing; `Signing.StrippingUndoesSigning` says exactly when,
  and `Signing.StrippingKeepsPadding` names a file.
- The slice planner and the slice writer round differently, and the first two slices of a fat
  file can overlap when the first is not aligned to 16 bytes (`FatLayout.FatSlicesApart`,
  `FatFile.UnalignedSlicesCollide`).
- Registering a rebinding again can make saved pointers lead round in a circle, as it does after
  another one of the same symbol when both ask for the old pointer (`Fishhook.AgainAfterAnother`).
  `Fishhook.AgainCircles` says exactly when, and `Fishhook.CallCircles` does for any call.
- A region scan stops at the first match outside the range, even one below it
  (`MemoryEngine.PrefixIsFilter`, `MatchBelowHidesMatch`), and a refinement keeps regions outside
  the range without counting their results (`JJMemoryEngine.ScanAgain`,
  `SkippedRegionUncounted`).
- `read_sleb128` shifts by 70 bits for numbers below -2^62 (`Leb128.SlebUndefined`).
- A new page of the plain arena is used without looking at the size (`NearArena.NewPageHolds`).
- For a chunk of a page or more the near arena takes every page that the search finds, one a
  turn, and uses none of them; it stops when the search finds no more (`NearArena.NewPageUsable`,
  `NearMemoryArena.AllocateChunk`).

## What the theorems ask of their inputs

- **Relocation** (`Arm64Simulation.Valid`): both halves of a literal lie outside the displaced
  bytes; literal loads are 64-bit integer loads and cond is below 14 (`Faithful`); the relocated
  stream has fewer than 2^18 words. Of the original's run (`BlindRun`): it never reads X17, nor,
  after a call it makes, X30 or the addresses given as dead, such as those below the stack
  pointer, where called functions may keep their return address. Data memory is apart from the
  instructions: copied instructions and called functions read none of the displaced bytes as
  data. A branch back into the displaced bytes leaves the block in both runs, as the original
  bytes are still what is modelled there.
- **Signing** (`Ldid.CanSign`): a well-formed little-endian image whose rewritten headers fit
  before its end, with image and signature below 4 GiB; reads past the end of the mapped file
  give zero. The requirements blob is given and is at least as long as its length field says.
  `SigningTwice` asks nothing more; its sufficient condition `SigningIsAFixpoint` also asks
  that no executable segment is called `__LINKEDIT` and that the embedded Info.plist lies
  between the headers and the end. For a fat file, slices that do not collide.
- **Nearby search** (`NearbySearch.Searchable`): ascending slides on multiples of the value
  length, inside a region below 4 GiB.
- **Group search** (`GroupSearch.Regular`): items of one length, a total range of 0 or at least
  their sum; addresses do not wrap.
- **Export trie** (`ExportTrie.Encodes`): non-empty edges with distinct first characters; a size
  below 4 GiB, as its 32-bit field says; the trie does not wrap round the address space.
- **Rebinding**: page protection changes succeed. What slots hold asks nothing else. What saved
  pointers lead to (`ChainEnds`, `ChainAcyclic`) asks for `Fishhook.Distinct`: no two rebindings
  share a replacement or a cell, and no replacement is an original pointer. When they lead round
  in a circle (`CallCircles`) asks nothing.
- **Near allocation**: a range above one page, at least two sorted regions that do not wrap, and
  granted pages that overlap no page of the arena.

## Model

| member | source | states |
|---|---|---|
| Arm64Simulation.RelocationPreservesMeaning | pluginDemo/h5frida15.1.24/Dobby-fixed/source/InstructionRelocation/arm64/ARM64InstructionRelocation.cc:124-316 | For every block the model admits and every start whose run reads nothing dirty, the original and the relocated code leave at the same address with the same flags, calls (up to the address map), and registers and memory, but for X17 and, after a call, X30 and dead addresses; final jump included |
| Arm64Simulation.BlindEverywhere | pluginDemo/h5frida15.1.24/Dobby-fixed/source/InstructionRelocation/arm64/ARM64InstructionRelocation.cc:124-316 | A condition on the block alone that makes every run of it qualify |
| Arm64Simulation.SavedLinkAllowed | pluginDemo/h5frida15.1.24/Dobby-fixed/source/InstructionRelocation/arm64/ARM64InstructionRelocation.cc:177-191 | A called function that keeps its return address in memory qualifies when it keeps it at a dead address |
| Arm64Simulation.SimulateOne | pluginDemo/h5frida15.1.24/Dobby-fixed/source/InstructionRelocation/arm64/ARM64InstructionRelocation.cc:139-276 | One original instruction is matched by a number of steps of its translation, from any pair of corresponding machine states |
| Arm64Simulation.SimulateGuarded | pluginDemo/h5frida15.1.24/Dobby-fixed/source/InstructionRelocation/arm64/ARM64InstructionRelocation.cc:192-270 | tbz/tbnz, cbz/cbnz and b.cond: the rewritten word tests the negation, skips the inserted jump exactly when the original falls through, and the jump reaches the original target |
| Arm64Simulation.SimulateAddress | pluginDemo/h5frida15.1.24/Dobby-fixed/source/InstructionRelocation/arm64/ARM64InstructionRelocation.cc:157-175 | adr and adrp: the emitted constants leave the architectural address in the destination |
| Arm64Simulation.SimulateLiteral | pluginDemo/h5frida15.1.24/Dobby-fixed/source/InstructionRelocation/arm64/ARM64InstructionRelocation.cc:139-156 | A 64-bit literal load reads the same eight bytes after relocation; neither half may lie in the displaced bytes |
| Arm64Simulation.LiteralRuns | pluginDemo/h5frida15.1.24/Dobby-fixed/source/InstructionRelocation/arm64/ARM64InstructionRelocation.cc:139-156 | Whatever width was asked for, the five emitted words load eight bytes from the literal's address, through X17 |
| Arm64Simulation.SimulateBranch | pluginDemo/h5frida15.1.24/Dobby-fixed/source/InstructionRelocation/arm64/ARM64InstructionRelocation.cc:177-191 | b: the pool load and indirect branch reach the original target |
| Arm64Simulation.SimulateCall | pluginDemo/h5frida15.1.24/Dobby-fixed/source/InstructionRelocation/arm64/ARM64InstructionRelocation.cc:177-191 | bl: the same function is called, the two return addresses correspond under the address map, and afterwards memory agrees outside the dead addresses |
| Arm64Simulation.MovRuns | pluginDemo/h5frida15.1.24/Dobby-fixed/source/core/modules/assembler/assembler-arm64.h:647-658 | After the movz/movk sequence the register holds exactly the 64-bit value, and nothing else changed |
| Arm64Simulation.FinalJumpRuns | pluginDemo/h5frida15.1.24/Dobby-fixed/source/core/modules/codegen/codegen-arm64.cc:10-19 | The last two instructions of the stream jump to the first instruction that was not displaced |
| Arm64Machine.InvertedCondition | pluginDemo/h5frida15.1.24/Dobby-fixed/source/InstructionRelocation/arm64/ARM64InstructionRelocation.cc:247-249 | Flipping the low bit negates the condition for every flag setting exactly when cond is below 14 |
| Arm64Machine.RunBlockIsARun | pluginDemo/h5frida15.1.24/Dobby-fixed/source/InstructionRelocation/arm64/ARM64InstructionRelocation.cc:124-316 | Running the original block instruction by instruction is an ordinary run of the machine |
| Arm64Limits.LiteralKeptExactlyWhenWide | pluginDemo/h5frida15.1.24/Dobby-fixed/source/core/modules/assembler/assembler-arm64.h:478-480 | Running the emitted words does what executing the literal load does, in every machine and at every address, if and only if the load is a 64-bit integer load or an integer load into the zero register; all words that do not abort are covered, vector loads too |
| Arm64Limits.ConditionKeptExactlyBelow14 | pluginDemo/h5frida15.1.24/Dobby-fixed/source/InstructionRelocation/arm64/ARM64InstructionRelocation.cc:242-266 | For every b.cond, executing the rewritten word skips the inserted jump exactly when the original falls through, in every machine, if and only if cond is below 14 |
| Arm64Limits.AlwaysBranchLost | pluginDemo/h5frida15.1.24/Dobby-fixed/source/InstructionRelocation/arm64/ARM64InstructionRelocation.cc:245-253 | The word 0x5400000E always branches, and the word it becomes always skips the jump to its target |
| Arm64Encoding.Imm14IsArchitectural | pluginDemo/h5frida15.1.24/Dobby-fixed/source/InstructionRelocation/arm64/ARM64InstructionRelocation.cc:57-65 | For every word the decoder returns the signed, scaled 14-bit offset of the architecture |
| Arm64Encoding.Imm19IsArchitectural | pluginDemo/h5frida15.1.24/Dobby-fixed/source/InstructionRelocation/arm64/ARM64InstructionRelocation.cc:67-75 | The same for the 19-bit offset |
| Arm64Encoding.Imm26IsArchitectural | pluginDemo/h5frida15.1.24/Dobby-fixed/source/InstructionRelocation/arm64/ARM64InstructionRelocation.cc:77-85 | For every word the decoder is four times the 26-bit field, sign-extended; that the field is the instruction's is stated by Arm64Printing.BranchReaches |
| Arm64Encoding.ImmHiLoIsArchitectural | pluginDemo/h5frida15.1.24/Dobby-fixed/source/InstructionRelocation/arm64/ARM64InstructionRelocation.cc:87-102 | The same for the split 21-bit immediate of adr |
| Arm64Printing.BranchReaches | pluginDemo/h5frida15.1.24/Dobby-fixed/source/InstructionRelocation/arm64/ARM64InstructionRelocation.cc:77-85 | For every displacement that b and bl can encode, forward or backward, the printed word is decoded as that instruction by the relocator and by the machine, and what goes into the pool is the address plus the displacement, modulo 2^64 |
| Arm64Printing.BReads | pluginDemo/h5frida15.1.24/Dobby-fixed/source/InstructionRelocation/arm64/ARM64InstructionRelocation.cc:177-191 | The word 0x14000000 or 0x94000000 with any 26-bit field decodes to b or bl with that field, and the relocator tells the two apart |
| Arm64Printing.CompareReaches | pluginDemo/h5frida15.1.24/Dobby-fixed/source/InstructionRelocation/arm64/ARM64InstructionRelocation.cc:67-75 | The same for cbz and cbnz of either width and any register |
| Arm64Printing.CbzReads | pluginDemo/h5frida15.1.24/Dobby-fixed/source/InstructionRelocation/arm64/ARM64InstructionRelocation.cc:208-240 | Every cbz and cbnz word decodes to its test, register, width and field |
| Arm64Printing.TestReaches | pluginDemo/h5frida15.1.24/Dobby-fixed/source/InstructionRelocation/arm64/ARM64InstructionRelocation.cc:57-65 | The same for tbz and tbnz of any bit |
| Arm64Printing.TbzReads | pluginDemo/h5frida15.1.24/Dobby-fixed/source/InstructionRelocation/arm64/ARM64InstructionRelocation.cc:192-206 | Every tbz and tbnz word decodes to its test, register, bit number and field |
| Arm64Printing.ConditionReaches | pluginDemo/h5frida15.1.24/Dobby-fixed/source/InstructionRelocation/arm64/ARM64InstructionRelocation.cc:67-75 | The same for b.cond with any condition |
| Arm64Printing.LiteralReaches | pluginDemo/h5frida15.1.24/Dobby-fixed/source/InstructionRelocation/arm64/ARM64InstructionRelocation.cc:67-75 | The same for literal loads: the address that is loaded from is the instruction's plus the displacement |
| Arm64Printing.AddressReaches | pluginDemo/h5frida15.1.24/Dobby-fixed/source/InstructionRelocation/arm64/ARM64InstructionRelocation.cc:87-102 | The same for adr, and for adrp in pages of 4096 bytes from the instruction's page |
| Arm64Printing.MovReads | pluginDemo/h5frida15.1.24/Dobby-fixed/source/core/modules/assembler/assembler-arm64.h:647-658 | The printed movz and movk words decode to that move of that half into that register |
| Arm64Printing.LdrXReads | pluginDemo/h5frida15.1.24/Dobby-fixed/source/core/modules/assembler/assembler-arm64.h:478-500 | The printed 64-bit load decodes to a load of that register from that base and offset; with the stack pointer as base it is copied as it is |
| Arm64Printing.BrReads | pluginDemo/h5frida15.1.24/Dobby-fixed/source/core/modules/codegen/codegen-arm64.cc:10-19 | The printed br and blr words decode to that jump or call through that register |
| Arm64Encoding.InvertedTestBranch | pluginDemo/h5frida15.1.24/Dobby-fixed/source/InstructionRelocation/arm64/ARM64InstructionRelocation.cc:197-206 | The rewritten tbz/tbnz decodes to the opposite test of the same bit of the same register, with the given skip |
| Arm64Encoding.InvertedCompareBranch | pluginDemo/h5frida15.1.24/Dobby-fixed/source/InstructionRelocation/arm64/ARM64InstructionRelocation.cc:220-228 | The rewritten cbz/cbnz decodes to the opposite test of the same register and width, with the given skip |
| Arm64Encoding.InvertedConditionalBranch | pluginDemo/h5frida15.1.24/Dobby-fixed/source/InstructionRelocation/arm64/ARM64InstructionRelocation.cc:245-253 | The rewritten b.cond decodes to the condition with its low bit flipped, with the given skip |
| Arm64Encoding.LinkedLiteral | pluginDemo/h5frida15.1.24/Dobby-fixed/source/core/modules/assembler/assembler-arm64.h:72-95 | A back-patched word decodes to a load of X17 from exactly the linked distance |
| Arm64Assembler.TurboAssembler.Ldr | pluginDemo/h5frida15.1.24/Dobby-fixed/source/core/modules/assembler/assembler-arm64.h:636-645 | Emits an unlinked load and records it with its label; everything emitted before is unchanged |
| Arm64Assembler.TurboAssembler.PseudoBind | pluginDemo/h5frida15.1.24/Dobby-fixed/source/core/modules/assembler/assembler-arm64.h:672-679 | Binding a label patches exactly its recorded loads, to the place where it is bound |
| Arm64Assembler.TurboAssembler.RelocBind | pluginDemo/h5frida15.1.24/Dobby-fixed/source/core/modules/assembler/assembler-arm64.h:681-689 | After binding, the buffer is the two-pass assembly of what was emitted, with the pool of label values behind it |
| Arm64Assembler.TurboAssembler.LiteralLdrBranch | pluginDemo/h5frida15.1.24/Dobby-fixed/source/core/modules/codegen/codegen-arm64.cc:10-19 | Emits a jump to an absolute address through a private literal |
| Arm64Assembler.BindingPatchesOne | pluginDemo/h5frida15.1.24/Dobby-fixed/source/core/modules/assembler/assembler-arm64.h:72-95 | Linking one recorded load turns its placeholder into the word that the two-pass reading has there, and changes no other word |
| Arm64Assembler.BoundIsAssembled | pluginDemo/h5frida15.1.24/Dobby-fixed/source/core/modules/assembler/assembler-arm64.h:681-689 | Once all labels are bound, no placeholder is left: the buffer is the second pass over the items |
| Arm64Relocation.RelocateOne | pluginDemo/h5frida15.1.24/Dobby-fixed/source/InstructionRelocation/arm64/ARM64InstructionRelocation.cc:139-276 | The assembler calls for one instruction append exactly its fragment and at most one label |
| Arm64Relocation.GenRelocateCodeAndBranch | pluginDemo/h5frida15.1.24/Dobby-fixed/source/InstructionRelocation/arm64/ARM64InstructionRelocation.cc:124-316 | The loop, the final jump and the binding produce exactly the relocated stream, and fail exactly when some instruction is not relocatable |
| Arm64Simulation.StoredIsLoaded | pluginDemo/h5frida15.1.24/Dobby-fixed/source/InstructionRelocation/arm64/ARM64InstructionRelocation.cc:308-315 | Any block and its stream can be in memory at any addresses, so the simulation's hypotheses ask only for properties of the block |
| Signing.PlainImageSigns | ldid-master/ldid.cpp:2052-2418 | The hypotheses are met: a 32-bit executable without commands, larger than a page and under 64 KiB, can be signed, and signing it again changes nothing, whatever the hash functions |
| Signing.SigningTwice | ldid-master/ldid.cpp:2052-2418 | For every thin file that can be signed, signing the signed file with the same inputs reproduces it byte for byte if and only if the last page, the embedded Info.plist and the executable range that the first signing took from the source hash as, or are, what it emitted in their place |
| Signing.SigningTwiceFromInput | ldid-master/ldid.cpp:2052-2418 | When the Info.plist's section ends inside the rounded image, the exact condition reads the input alone |
| Signing.SigningIsAFixpoint | ldid-master/ldid.cpp:1449-1684 | It does when the rewritten headers end before the last page, the source is zero between the end of the image and the rounded limit, no executable segment is called __LINKEDIT and the Info.plist lies in the copied part |
| Signing.OnePageNotAFixpoint | ldid-master/ldid.cpp:2335-2336 | A failing input: an image of one page, with a hash that keeps the first twenty bytes, changes when it is signed again, because the only page was hashed with the old load commands |
| Signing.ThinSigningTwice | ldid-master/ldid.cpp:1475-1488 | For a file that is not fat the alignment follows from the processor, which signing keeps, so the fixpoint law holds of files alone |
| Signing.LastPageIsOutput | ldid-master/ldid.cpp:2335-2336 | The bytes hashed into the last slot are the emitted bytes if and only if the source agrees with the rewritten headers there and is zero up to the limit |
| Signing.StrippingUndoesSigning | ldid-master/ldid.cpp:2421-2427 | Stripping a signed thin file gives what stripping the original gives, if and only if the end is found again (a string table, or a size that is a multiple of 16) and the 16 bytes after the commands were free or already a signature command |
| Signing.PlainStripping | ldid-master/ldid.cpp:1514-1516 | On plain images: stripping gives the same as before signing if and only if the length is a multiple of 16 |
| Signing.StrippingKeepsPadding | ldid-master/ldid.cpp:1514-1516 | A failing input, 4125 bytes long, whatever the hash functions |
| SignatureReader.DirectoryDescribesOutput | ldid-master/ldid.cpp:2294-2312 | A reader that starts from the signed file's bytes, follows its last load command and the index, and reads every directory by the places of the format finds: magic, length, version and flags as asked; hashOffset, identOffset and the NUL-terminated identifier where they say; as many special slots as the highest claimed one; code slots for 4096-byte pages up to the rounded end of the image; hash size and type, platform, page size; and the extent of the executable segments |
| SignatureReader.CodeSlotsDescribeOutput | ldid-master/ldid.cpp:2329-2337 | Code slot i, found at the hashOffset read plus i times the hashSize read, holds the hash of page i of the signed file, in every directory; the last holds the hash of the source bytes in its place |
| SignatureReader.SpecialSlotsHold | ldid-master/ldid.cpp:2200-2327 | Special slot n, for every n up to the number read, stands n hashes below the hashOffset read and holds the hash of the Info.plist, what the caller posted, or the hash of the requirements or of the entitlements blob; slots nobody claims hold zeros |
| SignatureReader.BlobsRead | ldid-master/ldid.cpp:2202-2267 | A reader of the index finds the requirements under slot 2 and the entitlements, with magic and length before them, under slot 5 |
| SignatureReader.SignatureFills | ldid-master/ldid.cpp:1678-1684 | The signature ends the file: its length field leaves fewer than 16 bytes for each algorithm, and they are zeros |
| SignatureReader.BodyBytes | ldid-master/ldid.cpp:1632-1676 | Signed or stripped, before the signature stand the old header with new command sizes, the kept commands, zeros where the old ones were longer, the image as it was, and zeros up to the limit; the last command locates the signature |
| SignatureReader.StrippedBytes | ldid-master/ldid.cpp:2421-2427 | A stripped file ends where the image ends and keeps its commands, in order and fitted to that end, but for signatures |
| SignatureReader.ThinLinkedit | ldid-master/ldid.cpp:1475-1488 | In a thin signed file __LINKEDIT takes whole pages in memory: 4096 bytes for x86 and PowerPC, 16384 for ARM |
| ImageReader.NewCommandsAre | ldid-master/ldid.cpp:1564-1630 | The commands written are the old ones in their order, without signature commands; only __LINKEDIT changes: its file size ends at the slice end, its memory size is that rounded up to the alignment; behind them stands one that locates the signature |
| ImageReader.ExecRangeIs | ldid-master/ldid.cpp:1571-1618 | The executable range is from the lowest start to the highest end of the executable segments, and empty without one |
| ImageReader.InfoSpanIs | ldid-master/ldid.cpp:1429-1464 | The embedded Info.plist is the last section called __info_plist of the last __TEXT command that has one |
| ImageReader.EndOfIs | ldid-master/ldid.cpp:1490-1510 | The image ends at an old signature's offset, or at the end of a string table that stops up to 16 bytes before it; any other string table is refused |
| Signing.TableWritten | ldid-master/ldid.cpp:1678-1683 | What follows the body is the serialised table, then zeros up to the planned allocation |
| Signing.PageIsOutput | ldid-master/ldid.cpp:1672-1676 | A page that is not the last reads the same from the stitched header buffer or the source as in the output |
| Signing.EqualSignatures | ldid-master/ldid.cpp:2294-2342 | Equal signatures hold equal hashes of every page and of the Info.plist, and the same executable range |
| Signing.SecondLayout | ldid-master/ldid.cpp:1449-1517 | The layout planned for a signed file is the one it was signed with, except that without a string table the rounded end is taken for the end |
| CodeDirectory.EstimateSuffices | ldid-master/ldid.cpp:2103-2200 | The signature written for the rounded size never exceeds the allocation estimated from the unrounded size |
| CodeDirectory.PassesMax | ldid-master/ldid.cpp:2269-2273 | With up to two algorithms both closures compute the same number of special slots |
| CodeDirectory.SameBlockCount | ldid-master/ldid.cpp:2106-2106 | Rounding a size up to 16 never changes its number of 4096-byte pages |
| CodeDirectory.SpecialSlotAt | ldid-master/ldid.cpp:2306-2327 | In a finished directory special slot k lies k hashes below hashOffset; SignatureReader.SpecialSlotsHold reads that field back |
| CodeDirectory.HashAt | ldid-master/ldid.cpp:2276-2341 | Cell j of the hash array lies where hashOffset says, counted from slot 0; SignatureReader.CodeSlotsDescribeOutput reads that field back |
| HashStorage.Fill | ldid-master/ldid.cpp:2316-2337 | The array filled in place by blobs, then posted hashes, then pages is the specified cell array; a write to slot 0 is overwritten by page 0 |
| HashStorage.Assemble | ldid-master/ldid.cpp:2316-2337 | An array whose cells are right is the whole hash array |
| HashStorage.BlobStored | ldid-master/ldid.cpp:2321-2324 | Storing one blob's hash keeps all other special cells |
| SuperBlob.SuperBlobLocates | ldid-master/ldid.cpp:1707-1732 | The length field is the number of bytes written, the count the number of blobs, and each index entry locates exactly its blob |
| SuperBlob.SuperBlobRoundTrip | ldid-master/ldid.cpp:1707-1732 | Reading a written table back gives the table |
| Tables.FindInsert | ldid-master/ldid.cpp:1691-1705 | Inserting into the ordered table is map update |
| Bytes.FieldBytes | ldid-master/ldid.cpp:732-743 | Bits 8k to 8k + 7 of a 32-bit field are byte k of its little-endian form and byte 3 - k of its big-endian form |
| Entitlements.Analyze | ldid-master/ldid.cpp:1413-1426 | The loop over the images of a file computes the specified result: the first entitlements found, which all others must repeat; assertion failures included |
| Entitlements.AnalyzeImage | ldid-master/ldid.cpp:1395-1411 | The loops over commands and index entries of one image compute the specified result |
| Entitlements.EntitlementsRecovered | ldid-master/ldid.cpp:1395-1426 | Analyze on a freshly signed image returns the entitlements passed to Sign, also after other images that gave the same |
| Entitlements.FatEntitlementsRecovered | ldid-master/ldid.cpp:1413-1426 | And so it does on all signed slices of a fat file |
| LoadCommands.NewCommandsTwice | ldid-master/ldid.cpp:1571-1630 | Rewriting rewritten commands for new sizes gives what the new sizes alone give; signing twice and stripping are both instances |
| LoadCommands.NewCommandsLookups | ldid-master/ldid.cpp:1429-1464 | Rewriting keeps the symbol table, the Info.plist location and the executable range, and the new signature command is the one found |
| LoadCommands.LinkeditEndsAtSliceEnd | ldid-master/ldid.cpp:1588-1616 | After rewriting, the file range of __LINKEDIT ends exactly at the slice end |
| LoadCommands.RewriteTwice | ldid-master/ldid.cpp:1571-1618 | A second rewriting of one command replaces the first |
| MachO.ParseConcat | ldid-master/ldid.cpp:898-908 | Any file holding well-formed commands back to back parses to exactly those commands |
| MachO.MachOIs | ldid-master/ldid.cpp:825-908 | The files that are processed, by the places of the format: one of two magic numbers, one of four file types, and commands that are as many and as long as the header says |
| Ldid.OutputIsMachO | ldid-master/ldid.cpp:1632-1663 | What the signer writes parses again: same magic, processor and file type, and exactly the kept commands |
| LdidWriter.CollectCommands | ldid-master/ldid.cpp:1564-1630 | The loop yields the kept, rewritten commands and the range of executable segments |
| LdidWriter.PutBody | ldid-master/ldid.cpp:1632-1676 | Header, commands, padding, copied image and rounding are the specified body; the overlap buffer is the rewritten head filled to a page boundary |
| LdidWriter.PutSuperBlob | ldid-master/ldid.cpp:1707-1732 | The three loops write the specified table and return its length |
| LdidWriter.Save | ldid-master/ldid.cpp:2200-2415 | The signing closure writes the specified signature and returns its length; what a reader finds in it is stated by SignatureReader.DirectoryDescribesOutput |
| LdidWriter.SignImage | ldid-master/ldid.cpp:1559-1684 | One slice is written as specified; the size assertion cannot fail |
| LdidWriter.SignThinFile | ldid-master/ldid.cpp:1475-1488 | A file that is not fat is signed with the alignment of its processor |
| LdidWriter.UnsignImage | ldid-master/ldid.cpp:2421-2427 | Stripping writes the specified body |
| LdidWriter.PlanSlices | ldid-master/ldid.cpp:1512-1520 | The planning loop computes the specified slice offsets |
| LdidWriter.SignSlices | ldid-master/ldid.cpp:1559-1684 | With slices apart every padding length is non-negative and each signed slice lands at its offset |
| LdidWriter.PutFatHeader | ldid-master/ldid.cpp:1525-1557 | The magic and the count are written, then the table if every place and size fits 32 bits, and nothing more if not |
| LdidWriter.SignFat | ldid-master/ldid.cpp:1449-1684 | Planning, header and slices of a fat file whose slices are apart give the specified bytes; refused exactly when a place or a size takes more than 32 bits |
| FatLayout.FatSlicesApart | ldid-master/ldid.cpp:1512-1520 | Fat slices never overlap, except the first two, and those if and only if a signed first slice starts off a 16-byte boundary, its last block fits beside that skew, and the second slice adds no alignment |
| FatLayout.WideAlignmentsApart | ldid-master/ldid.cpp:1512-1520 | With every slice alignment at least 16 bytes the writer never passes the next slice offset |
| FatLayout.OffsetsAligned | ldid-master/ldid.cpp:1512-1512 | Every planned offset is a multiple of its slice's alignment |
| FatFile.UnalignedSlicesCollide | ldid-master/ldid.cpp:1469-1473 | A failing input: three copies of a plain executable in entries that ask for no alignment; the end of the first signed slice is written where the second is planned |
| FatFile.HeaderRoundTrip | ldid-master/ldid.cpp:1525-1557 | The magic, the count and every entry read back as they were written |
| FatFile.FatReadBack | ldid-master/ldid.cpp:1525-1684 | In the written fat file, by the places of the format: the magic, the count, and for each slice an entry with its processor type and subtype, its offset, its length and its alignment; the bytes there are the signed slice |
| FatLayout.SliceAt | ldid-master/ldid.cpp:1559-1684 | Slices that are apart are found at their offsets in the output |
| FatLayout.SignLayoutPlanned | ldid-master/ldid.cpp:2188-2189 | Signing layouts satisfy what the fat planner relies on: a limit rounded to 16 and an allocation that is a multiple of 16 |
| NearbySearch.NearRegion | MemScan.h:599-712 | The output slides of one region are exactly the aligned matches inside the union of the windows, plus the old slides strictly within range of such a match; each stored type is the new type of a match or the old slide's type |
| NearbySearch.NewMatches | MemScan.h:622-663 | Scanning only what earlier windows did not cover finds exactly the matches of the unclipped windows |
| NearbySearch.ResultIs | MemScan.h:588-724 | What is found: hits on multiples of the value length from range below an old slide up to, but not at, range above it, and old slides strictly within range of such a hit |
| NearbySearch.ProvenanceIs | MemScan.h:667-720 | The type stored with a result is the new one where there is a hit, or the old slide's own, or the usual one when none was stored |
| NearbySearch.WindowSize | MemScan.h:622-638 | The first commented assertion: every window size is between 0 and twice the range |
| NearbySearch.FirstAndLastSuffice | MemScan.h:667-686 | The second commented assertion: the two intervals overlap, so being near any match is being near the first or the last |
| NearbySearch.FullWindow | MemScan.h:667-686 | One window adds its matches and the close old slides from lastold on, and nothing was lost before lastold |
| NearbySearch.ScanWindow | MemScan.h:640-663 | The inner loop collects exactly the aligned matches of a window, with the first and the last |
| NearbySearch.AddOld | MemScan.h:667-686 | The loop over old slides adds exactly the close ones, with their old types |
| MemoryEngine.JJMemoryEngine.JJNearBySearch | MemScan.h:588-724 | Regions with results are replaced in order, the others dropped, and the count is the total number of slides |
| MemoryEngine.RoundedIsMultiple | MemScan.h:588-606 | The range that is searched is a multiple of the value length |
| Scanning.ScanData | MemScan.h:191-302 | Returns the first match at a multiple of the value length from the start, or nothing if there is none |
| Scanning.ValueIs | MemScan.h:191-302 | For every type and every value in its C range: that value stands at p exactly when the bytes there are its two's complement, lowest byte first; and no other values are read |
| Scanning.HitIs | MemScan.h:226-298 | A hit is a place where the bytes are the form of a value of the type that lies in the interval |
| MemoryEngine.CollectRegion | MemScan.h:383-413 | One region yields its aligned matches in order, up to the first one outside the range and up to the limit |
| MemoryEngine.PrefixIsFilter | MemScan.h:404-404 | Stopping at the first match outside the range is a filter if and only if no match lies below the range, or none lies in it |
| MemoryEngine.MatchBelowHidesMatch | MemScan.h:383-413 | A failing input: two bytes that match, a range that holds the second, and no result |
| MemoryEngine.JJMemoryEngine.ScanRegion | MemScan.h:372-424 | The stored addresses grow by the region's results, never beyond the limit, and the count stays the total |
| MemoryEngine.JJMemoryEngine.FirstScan | MemScan.h:427-491 | The stored addresses are those of the regions in order, with the limit shared |
| MemoryEngine.FirstScanIsAFilter | MemScan.h:427-491 | With no region starting below the range, the results are the first 100000 of a list that holds exactly the addresses in the range, at a multiple of the value length from their region's start, where Scanning.HitIs finds a hit; with regions in address order they ascend |
| MemoryEngine.JJMemoryEngine.ScanAgain | MemScan.h:493-550 | The new list is the refined one, which MemoryEngine.RefinementIsAFilter describes; the count misses exactly the slides of the regions that were not looked at |
| MemoryEngine.SkippedRegionUncounted | MemScan.h:493-550 | A failing input: one stored result outside the range is kept and not counted |
| MemoryEngine.JJMemoryEngine.JJScanMemory | MemScan.h:574-586 | The first call scans all regions, every later one refines what is stored; the type searched for is remembered |
| MemoryEngine.RefinementIsAFilter | MemScan.h:493-550 | For any range: an address is in the refined list if and only if it is stored, its region can be loaded, it lies in the range and its value is a hit, or its region lies wholly outside the range; those that stay keep their order, duplicates included. With a range that reaches every region only hits stay and all are counted; a result in the range and inside its region is always looked at |
| MemoryEngine.JJMemoryEngine.GetResults | MemScan.h:822-845 | Returns the requested stretch of the list of all addresses: result i is address skip + i, up to the count or the end |
| MemoryEngine.PagesConcatenate | MemScan.h:822-845 | Consecutive pages are the list again |
| GroupSearch.AnchorIsOnlyAnOptimisation | MemScan.h:1003-1132 | For items of equal length and out of reach of the caps, every anchor reports the same bases in the same order: all aligned addresses where the whole group stands |
| GroupSearch.Run | MemScan.h:1033-1132 | The loop over anchors keeps exactly the bases where the group stands inside the range |
| GroupSearch.FindValueInRange | MemScan.h:924-937 | The first ten thousand addresses that hold the item, in steps of its length |
| GroupSearch.BasesAre | MemScan.h:1048-1080 | An address is reported if and only if it lies a number of steps from the start, before the end, and the whole group stands there |
| GroupSearch.BasesAscend | MemScan.h:1048-1080 | The reported addresses ascend |
| GroupSearch.GroupIsLaid | MemScan.h:1048-1080 | A group stands at a base exactly when the bytes of its items, laid end to end, can be read there, inside the range |
| GroupSearch.FoundAre | MemScan.h:924-937 | The anchors are exactly the addresses on the item's steps where its bytes can be read |
| ExportTrie.LookupIsExact | pluginDemo/h5frida15.1.24/Dobby-fixed/builtin-plugin/SymbolResolver/macho/dobby_symbol_resolver.cc:98-184 | A symbol in the abstract map is found, with its terminal payload, if and only if its path has at most 126 edges |
| ExportTrie.LookupFindsNothingElse | pluginDemo/h5frida15.1.24/Dobby-fixed/builtin-plugin/SymbolResolver/macho/dobby_symbol_resolver.cc:98-184 | A symbol that is not in the abstract map is not found, and nothing outside the trie is read |
| ExportTrie.WalkSound | pluginDemo/h5frida15.1.24/Dobby-fixed/builtin-plugin/SymbolResolver/macho/dobby_symbol_resolver.cc:98-184 | Whatever the walk returns is the payload of a node that spells the symbol |
| ExportTrie.WalkComplete | pluginDemo/h5frida15.1.24/Dobby-fixed/builtin-plugin/SymbolResolver/macho/dobby_symbol_resolver.cc:98-184 | From any node on the way, the rest of a path is followed to its end or to the depth limit |
| ExportTrie.NotVisited | pluginDemo/h5frida15.1.24/Dobby-fixed/builtin-plugin/SymbolResolver/macho/dobby_symbol_resolver.cc:168-174 | On a well-formed trie the cycle test never fires |
| ExportTrie.EncodesUnique | pluginDemo/h5frida15.1.24/Dobby-fixed/builtin-plugin/SymbolResolver/macho/dobby_symbol_resolver.cc:105-165 | The bytes at an offset encode at most one node |
| ExportTrie.WalkExportedTrie | pluginDemo/h5frida15.1.24/Dobby-fixed/builtin-plugin/SymbolResolver/macho/dobby_symbol_resolver.cc:98-184 | The loops compute the specified walk and end on any bytes, a terminal size that wraps the pointer included |
| ExportTrie.ScanChildren | pluginDemo/h5frida15.1.24/Dobby-fixed/builtin-plugin/SymbolResolver/macho/dobby_symbol_resolver.cc:123-163 | The loop over the children picks the first edge that is a prefix of the symbol |
| Leb128.UlebRoundTrip | pluginDemo/h5frida15.1.24/Dobby-fixed/builtin-plugin/SymbolResolver/macho/dobby_symbol_resolver.cc:51-72 | read_uleb128 inverts the encoding of every 64-bit value |
| Leb128.SlebRoundTrip | pluginDemo/h5frida15.1.24/Dobby-fixed/builtin-plugin/SymbolResolver/macho/dobby_symbol_resolver.cc:74-94 | read_sleb128 inverts the encoding of every 64-bit value from -2^62 up |
| Leb128.SlebUndefined | pluginDemo/h5frida15.1.24/Dobby-fixed/builtin-plugin/SymbolResolver/macho/dobby_symbol_resolver.cc:88-90 | Below -2^62 the sign extension shifts by more than 63 bits and the result is undefined |
| Leb128.ReadUleb128 | pluginDemo/h5frida15.1.24/Dobby-fixed/builtin-plugin/SymbolResolver/macho/dobby_symbol_resolver.cc:51-72 | The loop, with its bitwise or, computes the sum of the groups, or reports a read past the buffer |
| Leb128.ReadSleb128 | pluginDemo/h5frida15.1.24/Dobby-fixed/builtin-plugin/SymbolResolver/macho/dobby_symbol_resolver.cc:74-94 | The same for signed numbers, sign extension included |
| Leb128.GroupAdds | pluginDemo/h5frida15.1.24/Dobby-fixed/builtin-plugin/SymbolResolver/macho/dobby_symbol_resolver.cc:64-64 | A group has no bit in common with those before it, so or-ing it in adds it; the sum stays below 2^64 |
| Bitwise.OrBit | pluginDemo/h5frida15.1.24/Dobby-fixed/builtin-plugin/SymbolResolver/macho/dobby_symbol_resolver.cc:64-64 | Bit i of an inclusive or is set when bit i of either is |
| Fishhook.Rebinder.RebindSymbols | pluginDemo/h5frida15.1.24/fishhook.c:248-264 | Whatever is registered, every slot then holds the replacement of the newest matching call's first match, or its original; the cells are the old ones with what the slots held before written over them; and saved pointers lead round in a circle exactly when the slots and cells before the call say so. Making the newest call again writes no slot and no cell. Saved pointers stay sound while rebindings are distinct. A failed allocation changes nothing |
| Fishhook.Rebinder.ImageAdded | pluginDemo/h5frida15.1.24/fishhook.c:229-232 | After an image is loaded the same holds of old and new slots, and of the circles its slots close |
| Fishhook.Rebinder.PerformRebinding | pluginDemo/h5frida15.1.24/fishhook.c:114-165 | The slot loop brings every slot up to date whatever the rebindings are, leaves in the cells what the slots held before, leaves everything alone when the slots are up to date already, and keeps saved pointers sound when they were |
| Fishhook.Rebinder.FindMatch | pluginDemo/h5frida15.1.24/fishhook.c:131-161 | The two inner loops find the first match of the newest call that has one |
| Fishhook.ExpectedIs | pluginDemo/h5frida15.1.24/fishhook.c:131-161 | A slot should hold the replacement of the rebinding that is the first of the newest call to name its symbol behind the leading character, for symbols of two or more; or, when none does, what it held when it was loaded |
| Fishhook.RebindKeeps | pluginDemo/h5frida15.1.24/fishhook.c:135-158 | Rebinding one slot keeps every saved pointer older than its owner |
| Fishhook.BeforeTurn | pluginDemo/h5frida15.1.24/fishhook.c:123-164 | Before its turn a slot holds what it should hold, or something strictly older than its match |
| Fishhook.Prepended | pluginDemo/h5frida15.1.24/fishhook.c:65-82 | Prepending a call with new replacements and cells keeps all saved pointers sound |
| Fishhook.ChainEnds | pluginDemo/h5frida15.1.24/fishhook.c:138-139 | Following saved pointers ends at an original, or at a rebinding that asked for none |
| Fishhook.ChainAcyclic | pluginDemo/h5frida15.1.24/fishhook.c:138-139 | Each step goes to a strictly older rebinding; no pointer repeats |
| Fishhook.SoundHasNoCircle | pluginDemo/h5frida15.1.24/fishhook.c:138-139 | In a sound state no saved pointer leads back to where it started |
| Fishhook.CallCircles | pluginDemo/h5frida15.1.24/fishhook.c:131-158 | For any call from any state: afterwards there is a circle if and only if there is one over the cells that are not written, or the pointers about to be saved lead, over those cells, from one written rebinding to the next and back |
| Fishhook.CellCircles | pluginDemo/h5frida15.1.24/fishhook.c:138-139 | Writing one cell closes a circle if and only if one is there without it, or the saved pointer leads to a replacement that the cell belongs to |
| Fishhook.AgainCircles | pluginDemo/h5frida15.1.24/fishhook.c:131-158 | Registering a rebinding again, between calls in a sound state: only its own cell is written, and there is a circle afterwards if and only if the pointer about to be saved leads to the replacement |
| Fishhook.AgainAtSlot | pluginDemo/h5frida15.1.24/fishhook.c:135-158 | The same for the turn of one slot |
| Reachability.CircleIsRing | pluginDemo/h5frida15.1.24/fishhook.c:138-139 | Edges added to a graph close a circle if and only if some of them stand in a ring with old paths between them |
| Fishhook.AgainAfterAnother | pluginDemo/h5frida15.1.24/fishhook.c:138-139 | A failing input: a rebinding, another one of the same symbol, and the first again, both asking for the old pointer, leave two cells that hold each other's replacement, while the slot is right |
| Fishhook.SameTwice | pluginDemo/h5frida15.1.24/fishhook.c:131-158 | The same rebinding in two calls is up to date and not distinct |
| NearArena.SearchNearBlankPage | pluginDemo/h5frida15.1.24/Dobby-fixed/source/MemoryAllocator/NearMemoryArena.cc:67-144 | A page that is returned was granted, was among the candidates and lies strictly within the range of the position. 0 means that every candidate was refused, and with them, stated without the search's own arithmetic, the first page boundary in the gap behind each region within range, the first one before the first such region when more than a page is free there, and the first one in range when it lies below all regions or they end above the range; within range means at least a page from its lower end and two pages from its upper end |
| NearArena.WindowIs | pluginDemo/h5frida15.1.24/Dobby-fixed/source/MemoryAllocator/NearMemoryArena.cc:46-73 | The window begins at the first page boundary above the lowest address in range, and ends one page below the last boundary that is not above the highest, wrap-around of the addresses included |
| NearArena.AskedIsCandidate | pluginDemo/h5frida15.1.24/Dobby-fixed/source/MemoryAllocator/NearMemoryArena.cc:67-144 | Those boundaries are candidates of the search |
| NearArena.NearMemoryArena.AllocateChunk | pluginDemo/h5frida15.1.24/Dobby-fixed/source/MemoryAllocator/NearMemoryArena.cc:210-249 | For chunks of any size the retries end, each but the last having added a granted page near the position. A chunk is the next piece of the first usable page, or the first piece of the one page added; without one, no page is usable and the system refuses every candidate. Chunks below a page ask for at most one page; pages stay valid and apart |
| NearArena.NewPageUsable | pluginDemo/h5frida15.1.24/Dobby-fixed/source/MemoryAllocator/NearMemoryArena.cc:218-226 | A page granted by the search passes the test of the next turn if and only if the chunk is smaller than a page |
| NearArena.UsableIs | pluginDemo/h5frida15.1.24/Dobby-fixed/source/MemoryAllocator/NearMemoryArena.cc:218-226 | A page is usable exactly when it has the permission, its next piece starts less than range away from the position, up or down with wrap-around, and more room is left than asked for |
| NearArena.HandedNear | pluginDemo/h5frida15.1.24/Dobby-fixed/source/MemoryAllocator/NearMemoryArena.cc:191-249 | Every chunk that comes from a page starts less than range away from the position, and has the length asked for |
| NearArena.ChunksDisjoint | pluginDemo/h5frida15.1.24/Dobby-fixed/source/MemoryAllocator/NearMemoryArena.cc:191-208 | Over any run all chunks lie inside their pages and no two overlap |
| NearArena.MemoryArena.AllocateChunk | pluginDemo/h5frida15.1.24/Dobby-fixed/source/MemoryAllocator/MemoryArena.cc:11-57 | First page with room, else a new page; pages stay valid when the size is at most a page |
| NearArena.NewPageHolds | pluginDemo/h5frida15.1.24/Dobby-fixed/source/MemoryAllocator/MemoryArena.cc:29-52 | The chunk of a new page stays inside it if and only if it is no larger than the page |
| ThumbBranch.DecodePrinted | pluginDemo/h5frida15.1.24/Dobby-fixed/source/InstructionRelocation/arm/ARMInstructionRelocation.h:222-246 | Decoding the two halfwords that were printed gives the offset back if and only if it is even and in [-2^24, 2^24) |
| ThumbBranch.PrintedKind | pluginDemo/h5frida15.1.24/Dobby-fixed/source/InstructionRelocation/arm/ARMInstructionRelocation.h:240-245 | The halfwords are recognised as B.W or BL, as asked |
| ThumbBranch.PrintDecoded | pluginDemo/h5frida15.1.24/Dobby-fixed/source/InstructionRelocation/arm/ARMInstructionRelocation.cc:406-444 | Printing the offset decoded from any B.W or BL gives the same halfwords |
| ThumbAssembler.ThumbTurboAssembler.RelocBind | pluginDemo/h5frida15.1.24/Dobby-fixed/source/InstructionRelocation/arm/ARMInstructionRelocation.h:327-336 | Succeeds if and only if every load is within the 12-bit reach; then every load reads its own label's data word |
| ThumbAssembler.LinkedTarget | pluginDemo/h5frida15.1.24/Dobby-fixed/source/InstructionRelocation/arm/ARMInstructionRelocation.h:36-47 | A patched load reads from the label's place, and keeps its register |
| ThumbAssembler.LinkedLoad | pluginDemo/h5frida15.1.24/Dobby-fixed/source/InstructionRelocation/arm/ARMInstructionRelocation.h:36-47 | An emitted load is, once linked, the literal load of section A8.8.64 of DDI 0406C with its add bit set, of the register asked for, from the label's place |
| ThumbAssembler.BindOne | pluginDemo/h5frida15.1.24/Dobby-fixed/source/InstructionRelocation/arm/ARMInstructionRelocation.h:312-336 | Placing one more label keeps all earlier loads and words |
| Lookup2.UnmixMix | ldid-master/lookup2.c:44-55 | The mixer can be undone |
| Lookup2.MixUnmix | ldid-master/lookup2.c:44-55 | Every triple of words is reached: together, mix is a bijection |
| Lookup2.ShiftedBits | ldid-master/lookup2.c:44-55 | The right shift drops k bits, and the left shift in words of n bits moves the others up by k and leaves zeros |
| Bitwise.XorBit | ldid-master/lookup2.c:44-55 | Bit i of an exclusive or is set when the two differ there |
| Lookup2.RunMix | ldid-master/lookup2.c:44-55 | From the three words that the nine lines leave, the inverse gives back the words they started with |
| Lookup2.SubAdds | ldid-master/lookup2.c:44-55 | The difference of two words is the word that gives the first again when the second is added, modulo the word size |
| Lookup2.Mix2IsMix | ldid-master/lookup2.c:58-69 | mix2 on wider words holding narrow values is exactly the narrow mix |

## Left out

- GenRelocateCodeAndBranchStatic and GenerateTrampolineCode: the same translation with other
  anchors; the lemmas on rewritten branches take the number of skipped words as a parameter.
- The x86 and x64 relocators, and ARM (A32) and Thumb-1 instruction semantics.
- Vector literal loads in the simulation: `Faithful` excludes them, since none is kept; literal
  words that make the relocator abort.
- Byte-swapped and big-endian images, PKCS#7, property lists (with merging of entitlements) and
  bundle signing: not in the modelled build.
- Building default requirements from the identifier: the requirements blob is an input.
- The hash returned by Sign, progress callbacks, and file and memory mapping.
- Parsing the input's fat header: signing a fat file starts from its slices and the alignments of
  their entries. Alignments of 2^31 and more, which the source shifts out of an int.
- Stripping a fat file: the same planner and writer with no room for signatures.
- Floating-point matching, timeouts, sampled match counting and automatic anchor choice: the
  anchor is an input.
- JJWriteMemory, JJWriteAll, getResultsAndTypes and the listing of regions by the kernel.
- Repeated nearby searches: their input may be unsorted.
- ScanAgain on slides that the new type reads past the end of the region: taken as no match.
- rebind_symbols_image and the walk over load commands that finds the pointer sections.
- search_near_blank_memory_chunk: its result is an input; whether a granted page overlaps an
  existing mapping is not shown.
- lookup2's hash loop around the mixer.
