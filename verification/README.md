# Verified models of the fuzzer's target tools

This project models the parts of the repository whose results everything else
relies on, and proves what they promise for all inputs, all runs and all
interleavings.

- **Device trees** (`Fdt*.dfy`). libfdt keeps a tree in one byte buffer: header,
  reservation map, tag stream, string table (Devicetree Specification, sections
  5.2 to 5.5, version 17). `FdtFormat` says when bytes encode a list of tokens,
  `FdtTree` when tokens are the flattening of a tree with NOPs anywhere, and a
  place in the tree has an offset in the buffer. The class `Blob` holds the array
  and the header fields, with a ghost tree tied to the bytes. Each C function modelled
  is a method over it, proved to do to the tree what its name says: walks and lookups
  (`FdtCore`, `FdtRo`, `FdtWalk`, `FdtPhandle`, `FdtPath`), the sequential writer
  (`FdtSw`) and its reservation map (`FdtReserve`), in-place edits (`FdtRw`, `FdtWip`,
  `FdtPack`), overlays
  (`FdtRenumber`, `FdtReferences`, `FdtOverlay`, `FdtApply`), the full check (`FdtCheck`), and
  the writer's round trip (`FdtRoundTrip`).
- **Target memory** (`MemIf`, `Dtm`, `ElfLoad`). Byte requests become aligned
  chunks; chunks become accesses through a debug module (RISC-V External Debug
  Support 0.13.2, sections 3.6 and 3.7), whose current hart decodes and runs the program
  buffer; the two ELF loaders agree.
- **Concurrency** (`Context`, `MulticoreManager`). The coroutine hand-off and the
  number lock are steps of N threads in any order; the coverage maps are merged
  under their semaphore.
- **Compact components.** The cache simulator (`CacheSim`), the relabelling that
  keeps generated programs free of loops (`Labels`, `Mutator`, `RvMutator`,
  `DataSeeds`), the memory map of low segments (`RegionMerge`), and high products
  and saturation (`Arith`, with the wrapping arithmetic of section 7.1 of the
  RISC-V Unprivileged ISA, 20191213).

Code that works on a buffer or an object is a class or a method over an array;
what it must compute is a function or relation on values, about which the lemmas
speak. Random draws, the polling time of the debug module, the order of a
directory listing and the interleaving of threads are arbitrary choices.

Results about inputs on which the code does not do what one might expect, each
with such an input and the exact condition:

- `fdt_next_tag` returns the offset it was given on a property of length
  0xfffffff4, because the sum at `fdt.c:161` has 32 bits, and walks over it do not
  end: `FdtFormat.StuckInput`; it advances exactly otherwise
  (`FdtFormat.TagAtAdvances`), and on everything the library writes
  (`FdtCheck.NoWrap`).
- `fdt_nop_property` leaves the property to be found if the node has a second one
  of the same name: `FdtWip.BlankedButFound`, and exactly then
  (`FdtWip.BlankedPropertyGone`).
- `fdt_property` does not refuse a name that is longer than all that is left of the
  buffer, strings included, because the sum at `fdt_sw.c:251` has 32 bits, and copies
  it to in front of the buffer: `FdtSw.LongNameTaken` and `FdtSw.LongName`; it refuses
  exactly what does not fit otherwise (`FdtSw.RefusedExactly`), and a run of calls
  whose names fit the buffers is not concerned (`FdtRoundTrip.RoundTrip`).
- `fdt_finish` succeeds on trees that `fdt_check_full` refuses:
  `FdtCheck.UnclosedRefused`; it accepts them exactly if the node calls balance
  (`FdtCheck.FinishedEncodes`).
- `elf_to_memory_dict` stores a zero word for a segment that has no bytes in the file,
  at `elf_utils.py:250-258`: `ElfLoad.EmptySegmentStored`, exactly if its address is not
  a multiple of 8.
- A context's function that returns while it has control stops all contexts for
  good: `Context.ReturnedAlone`, `Context.ReturnedForGood`.
- `delete_nop` keeps a lone nop that was read from a file, whose text is padded:
  `RvMutator.NopReadBack`; it keeps every word that was read
  (`RvMutator.ReadNopStays`).

Machine integers are unbounded numbers where no sum can leave their range; where
one can, as in `arith.h`, at `fdt.c:161` and at `fdt_sw.c:251`, the wrap is written out.

## Model

| member | source | states |
|---|---|---|
| FdtFormat.TokensUnique | difuzz-rtl/Fuzzer/ISASim/riscv-isa-sim/fdt/fdt.c:131-178 | the bytes of a structure block determine its tokens: names, values, order and number |
| FdtFormat.TagAtToken | difuzz-rtl/Fuzzer/ISASim/riscv-isa-sim/fdt/fdt.c:131-178 | on an encoded token the next tag is that token's tag and the next offset is its end |
| FdtFormat.TagAtAdvances | difuzz-rtl/Fuzzer/ISASim/riscv-isa-sim/fdt/fdt.c:131-178 | an accepted tag lies before its successor, on a word boundary, for any bytes, exactly unless it is a property of length 0xfffffff4, whose 32-bit end is its own start |
| FdtFormat.StuckInput | difuzz-rtl/Fuzzer/ISASim/riscv-isa-sim/fdt/fdt.c:153-177 | eight bytes on which the next tag is FDT_PROP at the same offset, so that a walk never ends |
| FdtCore.NextTag | difuzz-rtl/Fuzzer/ISASim/riscv-isa-sim/fdt/fdt.c:131-178 | on any bytes, 32-bit property ends included, the tag and next offset that the byte-level definition gives |
| FdtTree.EncGet | difuzz-rtl/Fuzzer/ISASim/riscv-isa-sim/fdt/fdt.c:131-178 | what is stored at the offset of a place is the subtree there followed by the rest of the stream |
| FdtTree.TreeUnique | difuzz-rtl/Fuzzer/ISASim/riscv-isa-sim/fdt/fdt.c:131-178 | a structure block and string table hold at most one tree |
| FdtCore.NextNode | difuzz-rtl/Fuzzer/ISASim/riscv-isa-sim/fdt/fdt.c:202-240 | one step of the walk: past NOPs and properties to the next node with its depth, below depth 0 at an END_NODE, or NOTFOUND at the end, as the remaining tokens say; what all steps together visit is FdtWalk.VisitsTree |
| FdtCore.FirstSubnode | difuzz-rtl/Fuzzer/ISASim/riscv-isa-sim/fdt/fdt.c:242-251 | the offset of the first child of a node, or NOTFOUND exactly if there is none |
| FdtCore.NextSubnode | difuzz-rtl/Fuzzer/ISASim/riscv-isa-sim/fdt/fdt.c:253-268 | the offset of the next sibling of a node, or NOTFOUND exactly if there is none |
| FdtCore.FindString | difuzz-rtl/Fuzzer/ISASim/riscv-isa-sim/fdt/fdt.c:270-280 | an index at which the table holds the string with its NUL; -1 only if there is no such index |
| FdtWalk.VisitsTree | difuzz-rtl/Fuzzer/ISASim/riscv-isa-sim/fdt/fdt.c:202-240 | the walk by fdt_next_node is the preorder of the tree, with true offsets and depths |
| FdtWalk.AllNodes | difuzz-rtl/Fuzzer/ISASim/riscv-isa-sim/fdt/fdt.c:202-240 | the usual loop over fdt_next_node lists every node of the tree once, in preorder, with its depth |
| FdtWalk.KidsInOrder | difuzz-rtl/Fuzzer/ISASim/riscv-isa-sim/fdt/fdt.c:242-268 | first_subnode and next_subnode together list exactly the children, in order |
| FdtWalk.SuperFinds | difuzz-rtl/Fuzzer/ISASim/riscv-isa-sim/fdt/fdt_ro.c:573-607 | arriving at a node by the walk, the recorded supernode offsets are those of its ancestors and the depth is its depth |
| FdtWalk.SupernodeAtDepth | difuzz-rtl/Fuzzer/ISASim/riscv-isa-sim/fdt/fdt_ro.c:573-607 | the ancestor of each depth up to the node's own, which is also returned; NOTFOUND for negative or greater depths |
| FdtWalk.NodeDepth | difuzz-rtl/Fuzzer/ISASim/riscv-isa-sim/fdt/fdt_ro.c:609-618 | the number of ancestors |
| FdtWalk.ParentOffset | difuzz-rtl/Fuzzer/ISASim/riscv-isa-sim/fdt/fdt_ro.c:620-628 | the offset of the node around a node; NOTFOUND for the root |
| FdtWalk.AboveIsParent | difuzz-rtl/Fuzzer/ISASim/riscv-isa-sim/fdt/fdt_ro.c:620-628 | the place that parent_offset returns is the one whose items contain the node |
| FdtRo.NodenameEq | difuzz-rtl/Fuzzer/ISASim/riscv-isa-sim/fdt/fdt_ro.c:13-32 | a name matches itself, and also up to its unit address if the wanted name has none |
| FdtRo.GetString | difuzz-rtl/Fuzzer/ISASim/riscv-isa-sim/fdt/fdt_ro.c:34-87 | the length of the string at an offset, which counts back from the end while a tree is written; BADOFFSET outside the table, except that while the table is still empty every negative offset into the buffer is taken; TRUNCATED without a NUL, BADSTATE before any node |
| FdtRo.NextProp | difuzz-rtl/Fuzzer/ISASim/riscv-isa-sim/fdt/fdt_ro.c:187-209 | the first property at or after an offset, past NOPs; NOTFOUND if a node or the end of one comes first, BADSTRUCTURE at the end of the whole |
| FdtRo.SubnodeOffset | difuzz-rtl/Fuzzer/ISASim/riscv-isa-sim/fdt/fdt_ro.c:211-228 | the first child whose name matches, or NOTFOUND exactly if none does |
| FdtRo.NameLength | difuzz-rtl/Fuzzer/ISASim/riscv-isa-sim/fdt/fdt_ro.c:286-322 | at any offset of any bytes: the length of the name of the node there, or BADOFFSET exactly if no BEGIN_NODE tag starts there |
| FdtRo.GetName | difuzz-rtl/Fuzzer/ISASim/riscv-isa-sim/fdt/fdt_ro.c:286-322 | where a token is stored, the length and place of its name; BADOFFSET for other tokens |
| FdtRo.FirstPropertyOffset | difuzz-rtl/Fuzzer/ISASim/riscv-isa-sim/fdt/fdt_ro.c:324-332 | the first property of a node |
| FdtRo.NextPropertyOffset | difuzz-rtl/Fuzzer/ISASim/riscv-isa-sim/fdt/fdt_ro.c:334-340 | the property after a property |
| FdtRo.GetPropertyByOffset | difuzz-rtl/Fuzzer/ISASim/riscv-isa-sim/fdt/fdt_ro.c:342-361 | the value's bytes and a name offset that stands for the property's name |
| FdtRo.GetProperty | difuzz-rtl/Fuzzer/ISASim/riscv-isa-sim/fdt/fdt_ro.c:379-433 | in a finished or unfinished tree, the first property of a name in a node with its length, or NOTFOUND exactly if there is none |
| FdtRo.GetpropByOffset | difuzz-rtl/Fuzzer/ISASim/riscv-isa-sim/fdt/fdt_ro.c:453-479 | in a finished or unfinished tree, name and value of the property token at an offset, or BADOFFSET for other tokens |
| FdtPhandle.GetPhandle | difuzz-rtl/Fuzzer/ISASim/riscv-isa-sim/fdt/fdt_ro.c:487-502 | the value of the phandle property if it is one cell, else of linux,phandle if that is, else 0 |
| FdtPhandle.PhandleMeans | difuzz-rtl/Fuzzer/ISASim/riscv-isa-sim/fdt/fdt_ro.c:487-502 | a node with only linux,phandle has that phandle; a phandle property of one cell goes first |
| FdtPhandle.FindMaxPhandle | difuzz-rtl/Fuzzer/ISASim/riscv-isa-sim/fdt/fdt_ro.c:103-129 | the maximum over all nodes of the tree |
| FdtPhandle.MaxPhandleBounds | difuzz-rtl/Fuzzer/ISASim/riscv-isa-sim/fdt/fdt_ro.c:103-129 | no node of the tree has a larger usable phandle |
| FdtPhandle.MaxPhandleTaken | difuzz-rtl/Fuzzer/ISASim/riscv-isa-sim/fdt/fdt_ro.c:103-129 | unless it is 0, some node has that phandle |
| FdtPhandle.NodeOffsetByPhandle | difuzz-rtl/Fuzzer/ISASim/riscv-isa-sim/fdt/fdt_ro.c:657-680 | the first node in preorder with the phandle, NOTFOUND if none has it, BADPHANDLE for 0 and -1 |
| FdtPhandle.FirstWithExactly | difuzz-rtl/Fuzzer/ISASim/riscv-isa-sim/fdt/fdt_ro.c:657-680 | the place found is a node that has the phandle, and no node before it in preorder has |
| FdtPhandle.NoneWith | difuzz-rtl/Fuzzer/ISASim/riscv-isa-sim/fdt/fdt_ro.c:657-680 | NOTFOUND means that no node of the tree has the phandle |
| FdtPath.GetPath | difuzz-rtl/Fuzzer/ISASim/riscv-isa-sim/fdt/fdt_ro.c:521-571 | writes the node's full path and a NUL, or returns NOSPACE exactly if path and NUL do not fit the buffer |
| FdtPath.WalkFinds | difuzz-rtl/Fuzzer/ISASim/riscv-isa-sim/fdt/fdt_ro.c:521-571 | at any node, the buffer holds the longest run of names from the root that fits |
| FdtPath.DropName | difuzz-rtl/Fuzzer/ISASim/riscv-isa-sim/fdt/fdt_ro.c:534-539 | rewinding to the previous slash drops exactly the last name held |
| FdtPath.PathOffset | difuzz-rtl/Fuzzer/ISASim/riscv-isa-sim/fdt/fdt_ro.c:236-284 | descends name by name through matching children, slashes of any number between; NOTFOUND if a step has no match |
| FdtPath.PartsOfSlashed | difuzz-rtl/Fuzzer/ISASim/riscv-isa-sim/fdt/fdt_ro.c:236-284 | splitting a printed path at its slashes gives the names it was made of |
| FdtPath.PathRoundTrip | difuzz-rtl/Fuzzer/ISASim/riscv-isa-sim/fdt/fdt_ro.c:236-284 | with unambiguous names, resolving the printed path of a node yields that node |
| FdtPath.PathThereAndBack | difuzz-rtl/Fuzzer/ISASim/riscv-isa-sim/fdt/fdt_ro.c:521-571 | fdt_path_offset of what fdt_get_path wrote is the node's offset, for every node of a tree with unambiguous names |
| FdtCheck.CheckHeader | difuzz-rtl/Fuzzer/ISASim/riscv-isa-sim/fdt/fdt.c:73-112 | accepts exactly the headers whose magic, version range, sizes and block bounds are right |
| FdtReserve.NumMemRsv | difuzz-rtl/Fuzzer/ISASim/riscv-isa-sim/fdt/fdt_ro.c:175-185 | the number of entries before the first of size zero; TRUNCATED exactly if there is no such entry |
| FdtReserve.GetMemRsv | difuzz-rtl/Fuzzer/ISASim/riscv-isa-sim/fdt/fdt_ro.c:149-173 | address and size, each from eight big-endian bytes, of the entry with the number; BADOFFSET exactly outside the blob |
| FdtReserve.SameFront | difuzz-rtl/Fuzzer/ISASim/riscv-isa-sim/fdt/fdt_ro.c:149-185 | two buffers with the same bytes in front of the structure block have the same number of entries, and the same ones |
| FdtCheck.CheckTags | difuzz-rtl/Fuzzer/ISASim/riscv-isa-sim/fdt/fdt_ro.c:857-898 | the tag loop accepts a block exactly if it encodes a balanced token list that ends in END; it is left undecided only if the walk meets a property whose length wraps |
| FdtCheck.CheckFull | difuzz-rtl/Fuzzer/ISASim/riscv-isa-sim/fdt/fdt_ro.c:837-898 | accepts exactly the blobs whose header holds, whose reservation map ends, and whose block encodes a balanced tree |
| FdtCheck.NoWrap | difuzz-rtl/Fuzzer/ISASim/riscv-isa-sim/fdt/fdt.c:131-178 | on encoded tokens no length wraps, so walks over them end |
| FdtCheck.BalancedHasTree | difuzz-rtl/Fuzzer/ISASim/riscv-isa-sim/fdt/fdt_ro.c:837-898 | a token list that passes the depth check is the flattening of a tree |
| FdtCheck.TreeIsBalanced | difuzz-rtl/Fuzzer/ISASim/riscv-isa-sim/fdt/fdt_ro.c:837-898 | the flattening of every tree passes the depth check |
| FdtSw.Create | difuzz-rtl/Fuzzer/ISASim/riscv-isa-sim/fdt/fdt_sw.c:105-137 | the header, the empty map and no tokens; NOSPACE and BADFLAGS exactly when the buffer is too short or a flag unknown, with nothing changed |
| FdtReserve.Word64 | difuzz-rtl/Fuzzer/ISASim/riscv-isa-sim/fdt/fdt_sw.c:191-192 | eight bytes whose first word is the high half of the number and whose second is the low half |
| FdtReserve.EntryAdded | difuzz-rtl/Fuzzer/ISASim/riscv-isa-sim/fdt/fdt_sw.c:180-198 | the stored entry reads back as the address and the size given, and the earlier entries read as before |
| FdtSw.AddReservemapEntry | difuzz-rtl/Fuzzer/ISASim/riscv-isa-sim/fdt/fdt_sw.c:180-198 | the map lists one more entry, the address and size given, behind the others; NOSPACE exactly if it does not fit, and no byte changes on an error |
| FdtSw.FinishReservemap | difuzz-rtl/Fuzzer/ISASim/riscv-isa-sim/fdt/fdt_sw.c:200-209 | the terminating entry behind those given, and the state in which nodes may be written |
| FdtSw.GrabSpace | difuzz-rtl/Fuzzer/ISASim/riscv-isa-sim/fdt/fdt_sw.c:90-103 | room for a token exactly if structure and strings still do not meet |
| FdtSw.BeginNode | difuzz-rtl/Fuzzer/ISASim/riscv-isa-sim/fdt/fdt_sw.c:211-226 | one more BEGIN token with its name, or NOSPACE exactly if it does not fit and the tokens as they were |
| FdtSw.EndNode_ | difuzz-rtl/Fuzzer/ISASim/riscv-isa-sim/fdt/fdt_sw.c:228-240 | one more END_NODE token, or NOSPACE exactly if it does not fit and the tokens as they were |
| FdtSw.AddString | difuzz-rtl/Fuzzer/ISASim/riscv-isa-sim/fdt/fdt_sw.c:242-258 | the string below the others, at an offset counted from the end, every earlier offset keeping its meaning; 0 exactly if it does not fit; a copy that starts in front of the buffer exactly if string and table outgrow the whole buffer |
| FdtSw.RefusedExactly | difuzz-rtl/Fuzzer/ISASim/riscv-isa-sim/fdt/fdt_sw.c:242-258 | the 32-bit test refuses exactly the strings that do not fit, if and only if string and table together are no longer than the buffer |
| FdtSw.LongNameTaken | difuzz-rtl/Fuzzer/ISASim/riscv-isa-sim/fdt/fdt_sw.c:249-252 | in a buffer of 128 bytes a name of 200 bytes does not fit and is not refused |
| FdtSw.LongName | difuzz-rtl/Fuzzer/ISASim/riscv-isa-sim/fdt/fdt_sw.c:285-312 | the calls that lead there: create, finish_reservemap, begin_node, property |
| FdtSw.TableGrowsDown | difuzz-rtl/Fuzzer/ISASim/riscv-isa-sim/fdt/fdt_sw.c:242-258 | a string put in front changes what no offset from the end stands for |
| FdtSw.NameOffset | difuzz-rtl/Fuzzer/ISASim/riscv-isa-sim/fdt/fdt_sw.c:268-283 | with or without de-duplication, the offset stands for the name, and whether a string was added is known; nothing is known exactly after a new name that outgrows the buffer |
| FdtSw.Property | difuzz-rtl/Fuzzer/ISASim/riscv-isa-sim/fdt/fdt_sw.c:285-327 | one more property token; on NOSPACE the tokens and the string table are as they were, the added name rolled back; nothing is known exactly after a new name that outgrows the buffer |
| FdtSw.Resize | difuzz-rtl/Fuzzer/ISASim/riscv-isa-sim/fdt/fdt_sw.c:144-178 | to another buffer or in place, larger or smaller: map, tokens and strings are kept, or NOSPACE exactly if they do not fit |
| FdtSw.PatchOffsets | difuzz-rtl/Fuzzer/ISASim/riscv-isa-sim/fdt/fdt_sw.c:353-367 | every name offset counted from the end becomes the same name's offset from the start; no other byte changes |
| FdtSw.Finish | difuzz-rtl/Fuzzer/ISASim/riscv-isa-sim/fdt/fdt_sw.c:329-376 | the tokens and END as a finished blob with relocated strings; NOSPACE leaves the unfinished tree as it was |
| FdtCheck.FinishedEncodes | difuzz-rtl/Fuzzer/ISASim/riscv-isa-sim/fdt/fdt_sw.c:329-376 | what is finished passes the tag checks exactly if the begin and end calls balanced |
| FdtCheck.UnclosedRefused | difuzz-rtl/Fuzzer/ISASim/riscv-isa-sim/fdt/fdt_sw.c:329-376 | a single begin call, finished, is refused by the tag checks |
| FdtReserve.MapEnds | difuzz-rtl/Fuzzer/ISASim/riscv-isa-sim/fdt/fdt_sw.c:200-209 | a reader finds the end of the finished map where finish_reservemap put it, or at an entry of size zero before it |
| FdtReserve.ReadMap | difuzz-rtl/Fuzzer/ISASim/riscv-isa-sim/fdt/fdt_ro.c:149-185 | reading a finished map gives the entries written, in order, up to the first of size zero |
| FdtRoundTrip.RunCall | difuzz-rtl/Fuzzer/ISASim/riscv-isa-sim/fdt/fdt_sw.c:90-375 | each call, resize included, adds exactly its token, and a failed call adds none; only a property whose new name outgrows the buffer, and each such, ends what is known |
| FdtRoundTrip.WriteBlob | difuzz-rtl/Fuzzer/ISASim/riscv-isa-sim/fdt/fdt_sw.c:90-375 | over every sequence of calls that succeeds, changes of buffer included, the finished map lists exactly the entries given, in order, the block encodes exactly the tokens that the calls said, and it is accepted exactly if they balance; no run is lost unless a name outgrows the buffer of that time |
| FdtRoundTrip.ReadBack | difuzz-rtl/Fuzzer/ISASim/riscv-isa-sim/fdt/fdt.c:131-178 | walking a finished tree through the reading interface gives back its tokens, names and values |
| FdtRoundTrip.RoundTrip | difuzz-rtl/Fuzzer/ISASim/riscv-isa-sim/fdt/fdt_sw.c:90-375 | create, any calls, finish, check_full and read back: the reservations and the tree that are read are those that were said, and the check always decides; no run is lost unless a name outgrows the buffer of that time |
| FdtRoundTrip.CallsSayTree | difuzz-rtl/Fuzzer/ISASim/riscv-isa-sim/fdt/fdt_sw.c:211-327 | the calls made for a tree say that tree |
| FdtRoundTrip.TreeReadBack | difuzz-rtl/Fuzzer/ISASim/riscv-isa-sim/fdt/fdt_sw.c:90-375 | the tree read back is the tree written, and its calls balance |
| FdtRw.Splice | difuzz-rtl/Fuzzer/ISASim/riscv-isa-sim/fdt/fdt_rw.c:52-65 | the memmove: bytes in front and behind are kept, NOSPACE exactly if the data does not fit |
| FdtRw.SpliceStruct | difuzz-rtl/Fuzzer/ISASim/riscv-isa-sim/fdt/fdt_rw.c:80-92 | the header follows the splice, and neither the content of the string table nor any byte in front of the structure block changes |
| FdtRw.FindAddString | difuzz-rtl/Fuzzer/ISASim/riscv-isa-sim/fdt/fdt_rw.c:115-139 | an offset that stands for the string, every earlier offset keeping its meaning |
| FdtRw.DelLastString | difuzz-rtl/Fuzzer/ISASim/riscv-isa-sim/fdt/fdt_rw.c:95-100 | undoing the insertion restores the string table |
| FdtRw.ResizeValue | difuzz-rtl/Fuzzer/ISASim/riscv-isa-sim/fdt/fdt_rw.c:170-186 | one property gets a value of the new length that keeps the common front |
| FdtRw.AddProperty | difuzz-rtl/Fuzzer/ISASim/riscv-isa-sim/fdt/fdt_rw.c:188-218 | a new first property of the node, or NOSPACE with tree and strings as before |
| FdtRw.Setprop | difuzz-rtl/Fuzzer/ISASim/riscv-isa-sim/fdt/fdt_rw.c:243-274 | the tree changes by exactly the named property; NOSPACE only if token and name do not both fit, with tree, string table and size as before; the reservation map and all in front of the structure block stay |
| FdtRw.Appendprop | difuzz-rtl/Fuzzer/ISASim/riscv-isa-sim/fdt/fdt_rw.c:276-301 | the tree changes by exactly the extended property; NOSPACE only if token and name do not both fit, with tree, string table and size as before; the reservation map stays |
| FdtRw.Delprop | difuzz-rtl/Fuzzer/ISASim/riscv-isa-sim/fdt/fdt_rw.c:303-316 | the tree loses exactly the first property of that name; NOTFOUND if there is none; the reservation map stays |
| FdtRw.SetName | difuzz-rtl/Fuzzer/ISASim/riscv-isa-sim/fdt/fdt_rw.c:220-241 | the node gets the name and keeps its contents; NOSPACE exactly if it does not fit; the reservation map stays |
| FdtRw.AddSubnode | difuzz-rtl/Fuzzer/ISASim/riscv-isa-sim/fdt/fdt_rw.c:318-357 | an empty node in front of the other children, EXISTS exactly if a child matches, NOSPACE exactly if it does not fit; the reservation map stays |
| FdtRw.DelNode | difuzz-rtl/Fuzzer/ISASim/riscv-isa-sim/fdt/fdt_rw.c:364-376 | the tree loses exactly that node; the reservation map stays |
| FdtEdits.SetPropMeans | difuzz-rtl/Fuzzer/ISASim/riscv-isa-sim/fdt/fdt_rw.c:261-274 | a lookup gives the new value; other properties and all children are as before |
| FdtEdits.AppendPropMeans | difuzz-rtl/Fuzzer/ISASim/riscv-isa-sim/fdt/fdt_rw.c:276-301 | a lookup gives the old value and the appended bytes; others are as before |
| FdtEdits.DelPropMeans | difuzz-rtl/Fuzzer/ISASim/riscv-isa-sim/fdt/fdt_rw.c:303-316 | a lookup gives the next property of the name, if any; others are as before |
| FdtEdits.AddKidMeans | difuzz-rtl/Fuzzer/ISASim/riscv-isa-sim/fdt/fdt_rw.c:318-357 | the new child is found, in front of the others; no property changes |
| FdtEdits.EditLeavesOthers | difuzz-rtl/Fuzzer/ISASim/riscv-isa-sim/fdt/fdt_rw.c:80-92 | an edit inside one node leaves every node and property elsewhere with its name and value |
| FdtEdits.RemovalLeavesOthers | difuzz-rtl/Fuzzer/ISASim/riscv-isa-sim/fdt/fdt_rw.c:303-376 | removing an item leaves everything outside and before it |
| FdtEdits.RemovalMovesUp | difuzz-rtl/Fuzzer/ISASim/riscv-isa-sim/fdt/fdt_rw.c:303-376 | what followed a removed item is what is there now |
| FdtPack.PackBlocks | difuzz-rtl/Fuzzer/ISASim/riscv-isa-sim/fdt/fdt_rw.c:378-398 | three memmoves over one buffer: map, structure and strings land next to each other with their bytes |
| FdtPack.Pack | difuzz-rtl/Fuzzer/ISASim/riscv-isa-sim/fdt/fdt_rw.c:464-476 | the same tree and names in no more bytes than before; of the reservation map exactly the entries up to the first of size zero |
| FdtWip.NodeEndOffset | difuzz-rtl/Fuzzer/ISASim/riscv-isa-sim/fdt/fdt_wip.c:73-81 | the byte after the END_NODE that closes a node |
| FdtWip.NopRegion | difuzz-rtl/Fuzzer/ISASim/riscv-isa-sim/fdt/fdt_wip.c:51-57 | every word of the region is NOP and no other byte changes |
| FdtWip.NopNode | difuzz-rtl/Fuzzer/ISASim/riscv-isa-sim/fdt/fdt_wip.c:83-94 | the tree with the node blanked; nothing on BADOFFSET; the reservation map stays |
| FdtWip.NopProperty | difuzz-rtl/Fuzzer/ISASim/riscv-isa-sim/fdt/fdt_wip.c:59-71 | the tree with the first property of the name blanked; NOTFOUND exactly if there is none; the reservation map stays |
| FdtWip.SetpropInplacePartial | difuzz-rtl/Fuzzer/ISASim/riscv-isa-sim/fdt/fdt_wip.c:13-31 | part of a value is overwritten; NOSPACE exactly if it would reach past the value; the reservation map stays |
| FdtWip.BlankingMovesNothing | difuzz-rtl/Fuzzer/ISASim/riscv-isa-sim/fdt/fdt_wip.c:51-94 | a token is at an offset after blanking exactly if it was there before and not inside the blanked item |
| FdtWip.BlankingRemoves | difuzz-rtl/Fuzzer/ISASim/riscv-isa-sim/fdt/fdt_wip.c:51-94 | without NOPs, the blanked tree is the tree without that item |
| FdtWip.BlankedPropertyGone | difuzz-rtl/Fuzzer/ISASim/riscv-isa-sim/fdt/fdt_wip.c:59-71 | after blanking, the property is NOTFOUND exactly if there was no second one of its name; others are found as before |
| FdtWip.BlankedButFound | difuzz-rtl/Fuzzer/ISASim/riscv-isa-sim/fdt/fdt_wip.c:59-71 | with two properties of one name, blanking leaves the second to be found |
| FdtOverlay.ApplyNode | difuzz-rtl/Fuzzer/ISASim/riscv-isa-sim/fdt/fdt_overlay.c:556-601 | it fails only for want of space, and then not all that the overlay may add fits; on success the target's contents are their recursive merge with the overlay node's; the target keeps its offset through all splices below it, and nothing outside it changes even on error, the reservation map included |
| FdtOverlay.ApplyProperties | difuzz-rtl/Fuzzer/ISASim/riscv-isa-sim/fdt/fdt_overlay.c:563-579 | the property loop sets each overlay property in turn |
| FdtOverlay.ApplyChildren | difuzz-rtl/Fuzzer/ISASim/riscv-isa-sim/fdt/fdt_overlay.c:581-598 | the child loop merges each overlay child into its match or a new child |
| FdtOverlay.FindOrAdd | difuzz-rtl/Fuzzer/ISASim/riscv-isa-sim/fdt/fdt_overlay.c:585-592 | the new child, or the one that exists already |
| FdtOverlay.MergeMeans | difuzz-rtl/Fuzzer/ISASim/riscv-isa-sim/fdt/fdt_overlay.c:556-601 | in a merge overlay values win, each overlay child is merged into the base child its name matches or is new, and all other properties and children stay |
| FdtOverlay.MergedChildren | difuzz-rtl/Fuzzer/ISASim/riscv-isa-sim/fdt/fdt_overlay.c:581-598 | a lookup of an overlay child's name finds the base child merged with it |
| FdtOverlay.OtherChildren | difuzz-rtl/Fuzzer/ISASim/riscv-isa-sim/fdt/fdt_overlay.c:581-598 | a base child that no overlay child matches stays as it was |
| FdtRenumber.PhandleAddOffset | difuzz-rtl/Fuzzer/ISASim/riscv-isa-sim/fdt/fdt_overlay.c:116-139 | a phandle cell grows by delta; NOTFOUND exactly if there is none, BADPHANDLE exactly for a wrong size, NOPHANDLES exactly for a sum of 0xffffffff or more |
| FdtRenumber.AddPhandleExactly | difuzz-rtl/Fuzzer/ISASim/riscv-isa-sim/fdt/fdt_overlay.c:116-139 | a raised phandle is the old one plus delta in its own property, and no child changes; the error codes by their own conditions |
| FdtRenumber.AdjustNodePhandles | difuzz-rtl/Fuzzer/ISASim/riscv-isa-sim/fdt/fdt_overlay.c:156-177 | succeeds exactly if at every node of the subtree each of phandle and linux,phandle is absent or one cell whose sum with delta is less than 0xffffffff, and then raises each |
| FdtRenumber.RaisedNodeExactly | difuzz-rtl/Fuzzer/ISASim/riscv-isa-sim/fdt/fdt_overlay.c:156-177 | the renumbering of a subtree is defined exactly if each phandle property at each place in it can be raised |
| FdtRenumber.FixOne | difuzz-rtl/Fuzzer/ISASim/riscv-isa-sim/fdt/fdt_overlay.c:229-283 | succeeds exactly if the list is whole cells, the property exists and every listed cell lies in its value, and then adds delta to each, modulo 2^32 |
| FdtRenumber.CellsFitExactly | difuzz-rtl/Fuzzer/ISASim/riscv-isa-sim/fdt/fdt_overlay.c:254-281 | a list of cells of any length is taken exactly if each lies inside the value |
| FdtRenumber.ListThereExactly | difuzz-rtl/Fuzzer/ISASim/riscv-isa-sim/fdt/fdt_overlay.c:229-283 | a fixup property is taken exactly if it is whole cells, the property it names exists and the cells lie in it |
| FdtRenumber.UpdateReferences | difuzz-rtl/Fuzzer/ISASim/riscv-isa-sim/fdt/fdt_overlay.c:220-305 | succeeds exactly if every fixup finds its property, cells and child, and then the subtree is the fixed one, while the fixups themselves stay readable where they are |
| FdtReferences.UpdateLocalReferences | difuzz-rtl/Fuzzer/ISASim/riscv-isa-sim/fdt/fdt_overlay.c:324-342 | succeeds exactly if every property, cell and child that the fixups name is there, with no change if there are no local fixups |
| FdtReferences.FixupsExactly | difuzz-rtl/Fuzzer/ISASim/riscv-isa-sim/fdt/fdt_overlay.c:220-305 | fixups are taken exactly if every place in them finds its property with its cells, or its child, at the same names in the tree |
| FdtReferences.RenumberOverlay | difuzz-rtl/Fuzzer/ISASim/riscv-isa-sim/fdt/fdt_overlay.c:829-847 | the first three steps of applying an overlay succeed exactly if every phandle can be raised and all that the fixups name is there, and then yield the renumbered tree |
| FdtReferences.RenumberedExactly | difuzz-rtl/Fuzzer/ISASim/riscv-isa-sim/fdt/fdt_overlay.c:829-847 | the renumbering is defined exactly if all phandles can be raised and all that the fixups name is there |
| FdtReferences.RenumberedApart | difuzz-rtl/Fuzzer/ISASim/riscv-isa-sim/fdt/fdt_overlay.c:116-199 | after renumbering every overlay phandle exceeds every base phandle, and equal phandles are equal exactly as before |
| FdtReferences.CellsRaised | difuzz-rtl/Fuzzer/ISASim/riscv-isa-sim/fdt/fdt_overlay.c:220-305 | each listed cell is raised once, whatever else the list names |
| FdtReferences.OtherBytes | difuzz-rtl/Fuzzer/ISASim/riscv-isa-sim/fdt/fdt_overlay.c:220-305 | bytes outside the listed cells keep their values |
| FdtReferences.ReferencesSurvive | difuzz-rtl/Fuzzer/ISASim/riscv-isa-sim/fdt/fdt_overlay.c:116-342 | a reference that designated an overlay node before renumbering designates the same node after it |
| FdtPhandle.GetProp | difuzz-rtl/Fuzzer/ISASim/riscv-isa-sim/fdt/fdt_ro.c:435-485 | the value of the first property of a name in a node, or none exactly if there is none |
| FdtApply.GetTarget | difuzz-rtl/Fuzzer/ISASim/riscv-isa-sim/fdt/fdt_overlay.c:28-98 | if the target cell is neither 0 nor -1, the first node in preorder whose phandle it is, and NOTFOUND exactly if no node has it; if it is 0 or absent, the node at the path, or NOTFOUND or BADOVERLAY; BADPHANDLE exactly for a malformed cell |
| FdtApply.TargetOfExactly | difuzz-rtl/Fuzzer/ISASim/riscv-isa-sim/fdt/fdt_overlay.c:28-98 | the place is what the fragment's target cell or path means in the base tree, and an error says why there is none |
| FdtApply.OneTarget | difuzz-rtl/Fuzzer/ISASim/riscv-isa-sim/fdt/fdt_overlay.c:28-98 | a fragment means at most one place |
| FdtApply.MergeOverlay | difuzz-rtl/Fuzzer/ISASim/riscv-isa-sim/fdt/fdt_overlay.c:618-648 | a run over the fragments in order: each step merges one into the node that its target means in the tree of that moment; on an error it is that of the first fragment without a target, or not all that the fragments may add fits; the reservation map stays |
| FdtApply.AppliedIsRun | difuzz-rtl/Fuzzer/ISASim/riscv-isa-sim/fdt/fdt_overlay.c:618-648 | each fragment is merged into the place that its target means in the tree of its turn |
| FdtApply.PhandleMerged | difuzz-rtl/Fuzzer/ISASim/riscv-isa-sim/fdt/fdt_overlay.c:618-648 | if the targets lie apart, the node whose phandle a fragment's target cell was ends with its contents merged with that fragment's |
| FdtApply.TargetsMerged | difuzz-rtl/Fuzzer/ISASim/riscv-isa-sim/fdt/fdt_overlay.c:618-648 | if the targets lie apart, each ends with its old contents merged with what its fragment brings |
| FdtApply.UntouchedStays | difuzz-rtl/Fuzzer/ISASim/riscv-isa-sim/fdt/fdt_overlay.c:618-648 | everything that is not inside a target keeps its place, name and value |
| FdtApply.ApplyOverlay | difuzz-rtl/Fuzzer/ISASim/riscv-isa-sim/fdt/fdt_overlay.c:829-881 | on success the base tree has the renumbered overlay merged into it, fragment by fragment at the node that each target means, and the reservation map stays; on an error its magic is erased, and the overlay's in any case |
| MemIf.MemIf.Write | difuzz-rtl/Fuzzer/ISASim/riscv-isa-sim/fesvr/memif.cc:43-84 | exactly the bytes from addr on change, to the given ones, through aligned chunk requests within the maximum |
| MemIf.MemIf.Read | difuzz-rtl/Fuzzer/ISASim/riscv-isa-sim/fesvr/memif.cc:9-41 | exactly the bytes at addr are returned and no memory changes |
| MemIf.MemIf.WriteHead | difuzz-rtl/Fuzzer/ISASim/riscv-isa-sim/fesvr/memif.cc:46-59 | the read-modify-write of the chunk in which an unaligned request starts changes only its part |
| MemIf.MemIf.WriteTail | difuzz-rtl/Fuzzer/ISASim/riscv-isa-sim/fesvr/memif.cc:61-71 | the read-modify-write of the last partial chunk changes only its part |
| MemIf.MemIf.WriteMiddle | difuzz-rtl/Fuzzer/ISASim/riscv-isa-sim/fesvr/memif.cc:73-83 | whole chunks, by clear_chunk if all bytes are zero, write exactly the bytes |
| MemIf.Chunked.ClearChunk | difuzz-rtl/Fuzzer/ISASim/riscv-isa-sim/fesvr/htif.cc:199-206 | zeros over exactly the range, in chunks within the maximum |
| MemIf.ReadModifyWrite | difuzz-rtl/Fuzzer/ISASim/riscv-isa-sim/fesvr/memif.cc:46-59 | a chunk read, changed in part and written back changes that part of memory |
| ElfLoad.LoadElf | difuzz-rtl/Fuzzer/ISASim/riscv-isa-sim/fesvr/elfloader.cc:47-56 | memory after the loop is the old one with each segment's file bytes and zero fill written in order |
| ElfLoad.LoadedElsewhere | difuzz-rtl/Fuzzer/ISASim/riscv-isa-sim/fesvr/elfloader.cc:47-56 | bytes outside all segments keep their old values |
| ElfLoad.ElfToMemoryDict | elf_utils.py:226-291 | the keys are exactly the words that some segment's bytes or zero fill touch, and that of a segment without bytes at an unaligned address; every word shows the image of all segments in it, zeros elsewhere, and every segment in the file is covered |
| ElfLoad.MergeWord | elf_utils.py:267-281 | in a word that is there already only the new segment's bytes change |
| ElfLoad.ZeroFill | elf_utils.py:283-291 | the new keys are exactly the words that the zero-fill range touches, with zero where nobody stored; others stay |
| ElfLoad.DataWordTouched | elf_utils.py:239-281 | the words stored for a segment that has bytes in the file are those with one of its bytes in them |
| ElfLoad.ZeroFillWordTouched | elf_utils.py:283-291 | the words of a zero fill are those with one of its bytes in them |
| ElfLoad.EmptySegmentStored | elf_utils.py:247-265 | a segment without bytes in the file has a word stored exactly if its address is not a multiple of 8 |
| ElfLoad.LoadBoth | elf_utils.py:226-291 | for disjoint segments, in any order and even sharing words, both loaders give the same byte at every segment address, and it is the segment's; memory elsewhere stays, and no other word gets into the dictionary |
| Dtm.EncodedRight | difuzz-rtl/Fuzzer/ISASim/riscv-isa-sim/fesvr/dtm.cc:24-38 | the hart decodes the driver's load, store and add words to the intended registers and immediates |
| Dtm.Dtm.Halt | difuzz-rtl/Fuzzer/ISASim/riscv-isa-sim/fesvr/dtm.cc:103-123 | the current hart is selected and ends halted, whichever was selected before; neither its registers nor any other hart changes |
| Dtm.Dtm.Resume | difuzz-rtl/Fuzzer/ISASim/riscv-isa-sim/fesvr/dtm.cc:125-145 | the current hart ends running; neither its registers nor any other hart changes |
| Dtm.Dtm.SaveReg | difuzz-rtl/Fuzzer/ISASim/riscv-isa-sim/fesvr/dtm.cc:147-158 | the register's value, of either width, the register unchanged |
| Dtm.Dtm.RestoreReg | difuzz-rtl/Fuzzer/ISASim/riscv-isa-sim/fesvr/dtm.cc:160-175 | the register gets the value and no other changes |
| Dtm.Dtm.RunAbstractCommand | difuzz-rtl/Fuzzer/ISASim/riscv-isa-sim/fesvr/dtm.cc:177-212 | program and data are written, the command runs once, and data comes back for a read transfer |
| Dtm.Dtm.ReadChunk | difuzz-rtl/Fuzzer/ISASim/riscv-isa-sim/fesvr/dtm.cc:219-270 | exactly the requested bytes; memory, all registers of the current hart and all other harts end as they were, autoexec off, the hart resumed |
| Dtm.Dtm.WriteChunk | difuzz-rtl/Fuzzer/ISASim/riscv-isa-sim/fesvr/dtm.cc:272-343 | exactly the given bytes change, for one word or many by autoexec; all registers of the current hart and all other harts end as they were, autoexec off, the hart resumed |
| Dtm.ExecLoad | difuzz-rtl/Fuzzer/ISASim/riscv-isa-sim/fesvr/dtm.cc:231-248 | one run of the load program loads the word at S0 and moves S0 on |
| Dtm.ExecStore | difuzz-rtl/Fuzzer/ISASim/riscv-isa-sim/fesvr/dtm.cc:284-286 | one run of the store program stores S1 at S0 and moves S0 on |
| Dtm.ReadStep | difuzz-rtl/Fuzzer/ISASim/riscv-isa-sim/fesvr/dtm.cc:251-263 | each command fetches the word loaded before and loads the next, except the last |
| Dtm.AutoStep | difuzz-rtl/Fuzzer/ISASim/riscv-isa-sim/fesvr/dtm.cc:318-335 | with autoexec, writing the data words alone stores one more word |
| Context.StepKeeps | difuzz-rtl/Fuzzer/ISASim/riscv-isa-sim/fesvr/context.cc:62-115 | every atomic step of every thread keeps the invariant (one context in control or being handed it, flags, mutexes and pending signals as they must be), and only user code changes where control will end |
| Context.RunInv | difuzz-rtl/Fuzzer/ISASim/riscv-isa-sim/fesvr/context.cc:32-115 | the invariant holds in every state of every interleaving |
| Context.OneAtATime | difuzz-rtl/Fuzzer/ISASim/riscv-isa-sim/fesvr/context.cc:32-115 | no two contexts are ever in user code at once |
| Context.ArrivesOnlyThere | difuzz-rtl/Fuzzer/ISASim/riscv-isa-sim/fesvr/context.cc:62-115 | between two steps of user code, spurious wake-ups included, no context is in user code but the one that control was going to |
| Context.Progress | difuzz-rtl/Fuzzer/ISASim/riscv-isa-sim/fesvr/context.cc:99-112 | whenever control is in flight some thread can step: no wake-up is lost, even between looking at the flag and going to sleep |
| Context.InnerDecreases | difuzz-rtl/Fuzzer/ISASim/riscv-isa-sim/fesvr/context.cc:99-112 | every step of a hand-off brings it nearer to its end, spurious wake-ups aside |
| Context.HandOffCompletes | difuzz-rtl/Fuzzer/ISASim/riscv-isa-sim/fesvr/context.cc:62-112 | a run of such steps is bounded, and when it cannot go on the context that control was going to is in user code or has returned |
| Context.SwitchArrives | difuzz-rtl/Fuzzer/ISASim/riscv-isa-sim/fesvr/context.cc:99-112 | a switch_to left to run its course ends with the context it names in user code |
| Context.InitArrives | difuzz-rtl/Fuzzer/ISASim/riscv-isa-sim/fesvr/context.cc:62-74 | an init left to run its course ends with the context that called it in user code |
| Context.ReturnedForGood | difuzz-rtl/Fuzzer/ISASim/riscv-isa-sim/fesvr/context.cc:32-41 | if a context's function returns in a run, no context is in user code at any later state of it |
| Context.ReturnedAlone | difuzz-rtl/Fuzzer/ISASim/riscv-isa-sim/fesvr/context.cc:32-41 | the shortest run in which that happens |
| MulticoreManager.IdsConsecutive | difuzz-rtl/Fuzzer/src/multicore_manager.py:148-164 | in every interleaving of processes pairing read_num with write_num the numbers handed out are distinct and consecutive |
| MulticoreManager.OneHolder | difuzz-rtl/Fuzzer/src/multicore_manager.py:148-164 | two processes are never both between the two calls |
| MulticoreManager.Coverage.StoreCovmap | difuzz-rtl/Fuzzer/src/multicore_manager.py:182-216 | the shared maps stay the bitwise or of all stored ones, the logged sum is their bit count, and the log never falls |
| MulticoreManager.OrStays | difuzz-rtl/Fuzzer/src/multicore_manager.py:182-216 | merging one more directory into an or of directories gives the or of all |
| MulticoreManager.TotalReordered | difuzz-rtl/Fuzzer/src/multicore_manager.py:182-216 | the logged sum does not depend on the order of the directory listing |
| CacheSim.Cache.CheckTag | difuzz-rtl/Fuzzer/ISASim/riscv-isa-sim/riscv/cachesim.cc:103-113 | a way that holds the line of the address, or none exactly if no way of the cache holds it |
| CacheSim.Cache.Victimize | difuzz-rtl/Fuzzer/ISASim/riscv-isa-sim/riscv/cachesim.cc:115-122 | the way that the shift register picks in the line's own set takes the line; the tag that was there |
| CacheSim.Cache.Access | difuzz-rtl/Fuzzer/ISASim/riscv-isa-sim/riscv/cachesim.cc:124-161 | the tags change at one place of the line's set only; counters follow, a writeback exactly if a dirty line was replaced; the next cache is sent the victim's address as a write and then the missing line's as a read, which it holds afterwards, and nothing on a hit |
| CacheSim.Cache.Trace | difuzz-rtl/Fuzzer/ISASim/riscv-isa-sim/riscv/cachesim.cc:124-161 | over every access sequence each counter grows by what it is named for: loads and stores, the bytes they move, the loads and the stores that miss, the dirty lines replaced; writebacks plus lines now dirty are clean-to-dirty transitions plus lines dirty before, and the next cache sees one read per miss and one write per writeback, at their addresses |
| CacheSim.Cache.SetMissHandler | difuzz-rtl/Fuzzer/ISASim/riscv-isa-sim/riscv/cachesim.h:31 | a cache that shares nothing with this one becomes the next |
| CacheSim.TurnHolds | difuzz-rtl/Fuzzer/ISASim/riscv-isa-sim/riscv/cachesim.cc:124-161 | after an access the line is held; no other comes, and at most the line at the place it took leaves, from the same set, on a miss only |
| CacheSim.TurnDirties | difuzz-rtl/Fuzzer/ISASim/riscv-isa-sim/riscv/cachesim.cc:124-161 | after an access a line is dirty exactly if it is the stored one, or was dirty and is still held |
| CacheSim.TurnKeeps | difuzz-rtl/Fuzzer/ISASim/riscv-isa-sim/riscv/cachesim.cc:124-161 | every valid line stays in its own set and none is held twice |
| CacheSim.TurnCounts | difuzz-rtl/Fuzzer/ISASim/riscv-isa-sim/riscv/cachesim.cc:124-161 | lines dirty afterwards and written back are those dirty before and newly dirtied |
| CacheSim.Conservation | difuzz-rtl/Fuzzer/ISASim/riscv-isa-sim/riscv/cachesim.cc:124-161 | over every access sequence writebacks are clean-to-dirty transitions minus the growth in dirty lines |
| CacheSim.SentCounts | difuzz-rtl/Fuzzer/ISASim/riscv-isa-sim/riscv/cachesim.cc:124-161 | what is sent on has one read for each miss and one write for each writeback |
| CacheSim.TagsReplaced | difuzz-rtl/Fuzzer/ISASim/riscv-isa-sim/riscv/cachesim.cc:115-122 | a replaced tag keeps every valid line in its own set and held once |
| CacheSim.FaCache.Access | difuzz-rtl/Fuzzer/ISASim/riscv-isa-sim/riscv/cachesim.cc:124-185 | the fully associative variant: the exact new tags but for which line leaves a full cache, the counters, and the requests sent on, a writeback exactly if the line that left was dirty |
| CacheSim.FaKeeps | difuzz-rtl/Fuzzer/ISASim/riscv-isa-sim/riscv/cachesim.cc:168-185 | the line is held, others keep their flags, at most one leaves and only when all ways are taken |
| CacheSim.FaConservation | difuzz-rtl/Fuzzer/ISASim/riscv-isa-sim/riscv/cachesim.cc:124-185 | over every access sequence writebacks are clean-to-dirty transitions minus the growth in dirty lines |
| Arith.Mulhu | difuzz-rtl/Fuzzer/ISASim/riscv-isa-sim/riscv/arith.h:10-29 | the high word of the product for all operands; no intermediate sum loses a carry |
| Arith.Mulh | difuzz-rtl/Fuzzer/ISASim/riscv-isa-sim/riscv/arith.h:31-36 | the floor of the signed product over 2^64, for all operands |
| Arith.Mulhsu | difuzz-rtl/Fuzzer/ISASim/riscv-isa-sim/riscv/arith.h:38-43 | the same for a signed and an unsigned operand |
| Arith.SatAdd | difuzz-rtl/Fuzzer/ISASim/riscv-isa-sim/riscv/arith.h:46-65 | the sum clamped to n bits and the flag set exactly when clamped, at every width n |
| Arith.SatSub | difuzz-rtl/Fuzzer/ISASim/riscv-isa-sim/riscv/arith.h:67-86 | the difference clamped to n bits and the flag set exactly when clamped, at every width n |
| Arith.SatAddU | difuzz-rtl/Fuzzer/ISASim/riscv-isa-sim/riscv/arith.h:88-98 | the unsigned sum clamped, and the flag exactly when clamped |
| Arith.SatSubU | difuzz-rtl/Fuzzer/ISASim/riscv-isa-sim/riscv/arith.h:100-110 | the unsigned difference clamped to 0, and the flag exactly when clamped |
| Arith.BitsTop | difuzz-rtl/Fuzzer/ISASim/riscv-isa-sim/riscv/arith.h:46-86 | the sign bit of a bitwise combination is the combination of the sign bits |
| RegionMerge.SpikeMemoryMap | elf_utils.py:1216-1302 | no map exactly if there are no segments or no low regions; else one that is sorted, page-aligned and pairwise disjoint, covers exactly what the rounded inputs cover, and joins neighbouring addresses exactly as they do |
| RegionMerge.MergeInto | elf_utils.py:1239-1261 | the regions that overlap the new one give way to one region; the others stay in order |
| RegionMerge.Remove | elf_utils.py:1256-1258 | deleting the listed indices from the back removes exactly the overlapping regions |
| RegionMerge.MergeApart | elf_utils.py:1239-1261 | disjoint regions stay disjoint |
| RegionMerge.MergeCovers | elf_utils.py:1239-1261 | exactly the addresses of the regions and the new one are covered, joined alike |
| RegionMerge.RoundedPages | elf_utils.py:1223-1230 | rounding covers the segment and adds less than a page at each end |
| RegionMerge.MapShape | elf_utils.py:1221-1297 | sorted, disjoint, and aligned and non-empty if the inputs are |
| RegionMerge.MapMeans | elf_utils.py:1221-1297 | union and grouping are those of the inputs |
| RegionMerge.MapUnique | elf_utils.py:1221-1297 | sorted disjoint non-empty regions are determined by what they cover and join |
| RegionMerge.OrderIndependent | elf_utils.py:1221-1297 | the order of non-empty inputs does not change the map |
| RegionMerge.MapComponents | elf_utils.py:1221-1297 | two non-empty inputs lie in the same region exactly if a chain of overlapping inputs links them |
| RegionMerge.InsideOne | elf_utils.py:1221-1297 | every non-empty input lies in exactly one region |
| Mutator.Word.ResetLabel | difuzz-rtl/Fuzzer/src/word.py:59-68 | the label, also as shown, is the new one; the old one is returned exactly for written words |
| Mutator.Word.RepopLabel | difuzz-rtl/Fuzzer/src/word.py:70-87 | each named label becomes its mapped one, or any later one if it is gone; other lines stay |
| Mutator.Word.Populate | difuzz-rtl/Fuzzer/src/word.py:40-57 | every place for the symbol is filled and the label shown |
| Mutator.ResetLabels | difuzz-rtl/Fuzzer/src/mutator.py:323-337 | every word is labelled by its position and every named label follows its word |
| Mutator.MutateWords | difuzz-rtl/Fuzzer/src/mutator.py:339-354 | the result is the seed with words dropped, kept or followed by a new one, cut to the limit and relabelled |
| Mutator.Generator.GetSymbol | difuzz-rtl/Fuzzer/src/inst_generator.py:131-153 | a control transfer gets a label after its own within the part; other words any label of the part or a data symbol |
| Mutator.Generator.GetWord | difuzz-rtl/Fuzzer/src/inst_generator.py:158-190 | an unwritten word with the part's next label, which jumps only if it is a control transfer |
| Mutator.Generator.PopulateAll | difuzz-rtl/Fuzzer/src/inst_generator.py:192-216 | written words stay, the others get their symbol |
| Labels.RelabelForward | difuzz-rtl/Fuzzer/src/mutator.py:323-337 | relabelling words that are in the order of their labels and jump past them makes every jump go forward to an existing label |
| Labels.LabelMapFinds | difuzz-rtl/Fuzzer/src/mutator.py:326-330 | the label map holds exactly the labels of written words, at their positions |
| Labels.LabelFollows | difuzz-rtl/Fuzzer/src/mutator.py:323-337 | a jump that named a word names the same word at its new place; one whose word is gone names a later place of the part |
| Labels.MutateOrdered | difuzz-rtl/Fuzzer/src/mutator.py:339-354 | mutation keeps written words in the order of their labels |
| Labels.MutateGoes | difuzz-rtl/Fuzzer/src/mutator.py:339-354 | each word of the seed is dropped, kept, or kept with the new word right behind it, in order, and nothing else is there |
| Labels.SpliceOrdered | difuzz-rtl/Fuzzer/src/mutator.py:382-402 | the front of one sound part and the rest of another are in the order of their labels |
| Labels.WithoutNopsOrdered | difuzz-rtl/Fuzzer/src/mutator.py:279-308 | so is a part without its nops |
| Labels.NopsGo | difuzz-rtl/Fuzzer/src/mutator.py:291-294 | what is left is exactly the words that are not a lone nop, in order |
| Labels.MaskForward | difuzz-rtl/Fuzzer/src/mutator.py:235-277 | masking words by nops keeps labels and jumps sound |
| Labels.WriteForward | difuzz-rtl/Fuzzer/src/inst_generator.py:192-216 | writing the remaining words keeps every jump forward |
| Labels.LabelsResolve | difuzz-rtl/Fuzzer/src/mutator.py:68-90 | every label that a word names is shown at exactly one place of the part |
| Labels.PathEnds | difuzz-rtl/Fuzzer/src/inst_generator.py:131-153 | a path without traps visits later and later words and leaves the part at its end |
| Labels.DerivedSound | difuzz-rtl/Fuzzer/src/mutator.py:235-417 | generation, mutation, merging, nop deletion and masking of sound inputs give sound inputs |
| Labels.RunsEnd | difuzz-rtl/Fuzzer/src/mutator.py:235-417 | over every run, in every input of the corpus, every trap-free path through a part takes at most as many steps as it has words |
| RvMutator.RvMutator.Get | difuzz-rtl/Fuzzer/src/mutator.py:356-436 | what each phase makes, from copies that leave the corpus untouched, with its data seed moved to the back; nothing exactly if an input is to be drawn from an empty corpus |
| RvMutator.MadeDerived | difuzz-rtl/Fuzzer/src/mutator.py:356-417 | what get makes is a step of those runs |
| RvMutator.RvMutator.AddCorpus | difuzz-rtl/Fuzzer/src/mutator.py:450-455 | the newest input goes in, the oldest out when there are too many, and the corpus stays sound |
| RvMutator.RvMutator.UpdatePhase | difuzz-rtl/Fuzzer/src/mutator.py:438-448 | inputs are only generated until a tenth of the corpus size is reached, or when there is no guidance |
| RvMutator.DeleteNop | difuzz-rtl/Fuzzer/src/mutator.py:279-308 | copies without lone nops, relabelled, are sound again; words read from a file are padded text and stay |
| RvMutator.MakeNop | difuzz-rtl/Fuzzer/src/mutator.py:235-277 | masked words of one part become nops with the same label; the other parts are the same objects |
| RvMutator.ReadBackSound | difuzz-rtl/Fuzzer/src/mutator.py:146-158 | a part that is saved and read back has its labels and lines, and is sound if it was |
| RvMutator.ReadNopStays | difuzz-rtl/Fuzzer/src/mutator.py:146-158 | no word that was read from a file is deleted as a nop |
| RvMutator.NopReadBack | difuzz-rtl/Fuzzer/src/mutator.py:291-300 | a lone nop is deleted, but not once it was saved and read back |
| RvMutator.TuplesToWords | difuzz-rtl/Fuzzer/src/mutator.py:146-158 | each label and its lines become one written word |
| RvMutator.RvMutator.AddData | difuzz-rtl/Fuzzer/src/mutator.py:114-126 | the next number, or the seed unused for longest once all are taken, with its data, at the back |
| RvMutator.RvMutator.UpdateDataSeeds | difuzz-rtl/Fuzzer/src/mutator.py:128-135 | the asserted count is one for every seed in use, and the seed moves to the back |
| DataSeeds.UseKeeps | difuzz-rtl/Fuzzer/src/mutator.py:128-135 | moving a used seed to the back keeps each seed once, in the order of last use |
| DataSeeds.AddKeeps | difuzz-rtl/Fuzzer/src/mutator.py:114-126 | so does adding the next number |
| DataSeeds.CountedOnce | difuzz-rtl/Fuzzer/src/mutator.py:128-131 | every seed of the queue is in it once |
| DataSeeds.FrontIsOldest | difuzz-rtl/Fuzzer/src/mutator.py:115-116 | the seed at the front has been unused for longer than any other |

## Left out

- Blobs of versions below 17, aliases, string-list helpers and `fdt_strerror`: more branches of the same kind.
- Names and property values whose tokens have 2^31 bytes and more in trees being written or edited, and fixup offsets within four of 2^32.
- FdtSw.Property: what the copy of a name that outgrows the buffer overwrites, and what calls after it do.
- Offsets that are not the start of a token are modelled for `fdt_next_tag` and the walks over raw tags only; edits and lookups take the offset of a place in the tree.
- `fdt_resize` between two different buffers that overlap in part; the same buffer and separate ones are modelled.
- The errors of `fdt_rw_probe_` and `fdt_ro_probe_` for malformed headers: methods take a blob whose header is in order; `FdtCheck.CheckHeader` says when it is.
- `fdt_open_into`, `fdt_move`, `fdt_add_mem_rsv` and `fdt_del_mem_rsv`.
- FdtApply.ApplyOverlay: overlays with a `__fixups__` or `__symbols__` node are excluded; what those strings say is not modelled.
- FdtApply.GetTarget: a `target-path` is a string with its NUL that starts with a slash.
- FdtReferences.RenumberOverlay: fixups that stand for the `__local_fixups__` node itself are excluded, because the walk would change the list it reads.
- FdtReferences.ReferencesSurvive: fixups are taken to list each cell once, under names that no sibling could be confused with.
- FdtCheck.CheckTags: from a property whose length wraps on, the walk is not followed; on length 0xfffffff4 the code goes round for ever.
- FdtPath.PathOffset: paths that start with a slash; a path through an alias is not resolved.
- FdtPath.GetPath: node names contain no slash, which the rewinding loop relies on.
- FdtWalk.AllNodes: the root is the first item of the structure block.
- FdtRenumber.FixOne: the source copies a listed cell before the write that checks its range; a cell outside the value is not read here, only refused.
- FdtRw.Appendprop: the extended value, rounded up to a word, stays below 2^31 bytes.
- Mutator.Word.RepopLabel: lines are records with the label they name, not text; splitting and padding of the text is not modelled.
- RvMutator.RvMutator.Get: the interrupt list of an input and that of `make_nop` are not modelled.
- RvMutator.TuplesToWords: the lines of a `.si` file are given already split into labels and instructions.
- Dtm.Dtm.Halt: the current hart is a field that names an existing hart; `select_hart` and `enumerate_harts` are not modelled, and a request left pending for another hart waits until that is selected.
- FdtReserve.GetMemRsv: numbers of entries whose byte offset does not fit a C int.
- Dtm.Dtm.ReadChunk: no command errors beyond those the model's module reports, and a module that answers every poll after finitely many.
- Dtm.Dtm.WriteChunk: as for reading; `clear_chunk`, control registers and `get_xlen` of the driver are not modelled.
- MemIf.MemIf.Write: an alignment is any positive number that divides the maximum chunk; masks with `align - 1` are written as remainders.
- CacheSim.FaCache.Access: any line may leave a full cache, and requests to a next cache are returned, not made.
- CacheSim.Cache.Access: the miss log on standard error.
- Context.StepKeeps: user code does not switch to a context whose function has returned; memory is sequentially consistent; the branch of the code that uses `ucontext` instead of threads is not modelled.
- MulticoreManager.Coverage.StoreCovmap: files are maps from names to bit lists, all processes having the same files of the same sizes.
- RegionMerge.SpikeMemoryMap: the text of `readelf` is given already as segments, and a missing symbol as address 0.
- ElfLoad.LoadElf: the header and section parsing, big-endian files and the symbol map.
- Subprocesses, files, sockets, the simulators and the generation of assembly text.
