# Boot selection, logo rendering and Bluetooth framing: a verified model

This project models three parts of the board repository and proves what they are for.

**Crash-safe boot selection.** A board keeps a short list of deployments (boot records) in two redundant
environment copies on its block device. The loader reads both copies, picks the newest, spends an attempt by
writing the *other* copy, reads it back, and only then launches; a confirmed deployment that fails is retired
the same way. `Decimal`, `Records` and `Environment` model the text format, the parser, the printer and the
layout of one copy. `Disk` models the medium as 512-byte sectors of which any subset can arrive when a write is
torn. `Loader` is the program itself: one buffer overwritten in place, a device with or without a volatile write
cache, the boot as a method. `BootProtocol` is one boot as a function of the medium and of everything the
hardware decides (failed reads, sectors that arrive or settle, failed flushes, failed launches, power cuts at
any stage); `Loader.FileBoot` is proved to compute it. `BootRuns` proves the results about runs: any number of
boots, each with its own faults, and `BootChains` those about runs in which boots also fall back to the older copy.
Both boards are instances of `Disk.Board`: they differ in the block addresses and in whether the device has a
cache that must be flushed. The checksum is an arbitrary function.

**Bluetooth framing.** `H4` is the packet decoder and its stream buffer. `Framing` is the drain loop that three
places run over that buffer, as a function of the bytes. `Bridge` and `Vendor` are the imperative loops of the
bridge and of the vendor library, proved against it. `HostSocket` is the transition system of the port readers
that share one socket under a mutex, with the method that takes its steps.

**Logo rendering.** `PngFilter` undoes the PNG row filters in place (section 6 of RFC 2083). `Sums` and
`Resample` are the exact area average. `Colours`, `MedianCut` and `Quantise` are the median-cut quantiser.

The C and Python code that overwrites buffers, counters and lists in loops is modelled by methods with loops;
each method is specified by a function or predicate, and the results are lemmas about those. The assumptions
are the stated preconditions; three deserve a word:

- Sectors are atomic. The checksum does not cover the flag byte, so a tear inside a sector is outside the claim.
- `Sound` asks that the newest copy decodes and that both copies are zero past their first sector; whatever decodes
  is short, so only a spare copy that does not decode is restricted. Every boot keeps it, whatever fails and
  whichever copy the boot acts on (`BootKeepsSound`). Without it only the checksum protects (`MixtureRefused`).
- A boot falls back (`FallsBack`) when it cannot read the newest copy, finds the older one valid and decodable, and
  acts on it. Results that hold with fallbacks: crash atomicity and `BootKeepsSound` on every sound medium;
  `AnyRunIsRegister` and `AnyRunAges` on every medium whose newest copy came from the older one, or whose older one
  cannot be used (`Chained`), as on every installed medium and on every medium once the loader has written to it.
  That is exactly when a fallback that stores something stores what was stored already (`FallbackKeepsIff`). Results that need runs without a fallback: `LaunchBound` and `ResetsBounded`
  (`LaunchBoundIff` has the exact condition for both, `AnyRunLaunches` and `AnyRunResets` what they become: one more
  per fallback), `LaunchedIsNewest` and `FallbackNeverReturns` (`FallbackReturnsIff`). `RunIsRegister` and `RunAges`
  are the versions for every sound medium. All other failures of the reads are covered everywhere.

## Main results

1. `Records.Render` and `Records.Parse`: printing and parsing are inverse on exactly the well-formed lists.
2. `Environment.EnvValue` and `Environment.StoredEntry`: one copy holds an entry exactly in one layout, and what is
   stored is read back.
3. `BootProtocol.TornWriteAtomic`, `BootProtocol.PersistAtomic` and `BootProtocol.BootKeepsSound`: from whichever
   copy a boot acts, and whichever sectors of its write arrive, the two copies hold the old records or the new ones.
4. `BootProtocol.BootRefines` and `BootChains.AnyRunIsRegister`: boots over two torn-prone copies are steps of one
   register, under any failures.
5. `BootProtocol.OneSafeWrite`: on any medium and hardware, at most one write per boot, and an entry with
   attempts is launched only after the readback matched.
6. `BootRuns.LaunchBound`, `BootRuns.LaunchBoundIff` and `BootChains.AnyRunLaunches`: an entry is launched at most as
   often as it has attempts, with the exact condition, and in general at most once more per fallback.
7. `BootRuns.FallbackNeverReturns`, `BootRuns.ResetsBounded` and `BootRuns.FailingRunExhausts`: the choice of entries
   goes one way and failing boots end.
8. `Loader.Loader.FileBoot`: the program over its one buffer computes that boot.
9. `H4.DecodeEncode`, `H4.DecodedPacket` and `H4.Verdicts`: the decoder recognises exactly the packets.
10. `Framing.ChunkingIndependent` and `Framing.DrainConserves`: how a stream is cut into reads does not matter.
11. `Bridge.Bridge.KernelLoop` and `Vendor.HostPath`: from the kernel to the device ports, across partial writes.
12. `HostSocket.Reachable`, `HostSocket.HostLink.SendToHost` and `HostSocket.ControllerToKernel`: from the device
    ports to the kernel, in every interleaving of the readers, with the exact condition under which nothing is refused.
13. `PngFilter.UnfilterInverts` and `PngFilter.ReadRows`: the row filters are undone in place.
14. `Resample.ImageConserved` and `Resample.ResampleImage`: the area average loses nothing before rounding.
15. `MedianCut.CutBoxes` and `Quantise.QuantiseRows`: exactly as many boxes as asked for, partitioning the colours.
16. `Quantise.QuantiseDetermined`: the picture does not depend on the order in which the colours are listed.

What these results are stated with is itself tied down to characters, bytes, sizes and colour components:
`Records.ParsedMeans` (the text), `Environment.DecodedBytes` (a
copy), `BootProtocol.SlotSeenMeans` (checksum and flags), `BootProtocol.PersistOutcome` and
`BootProtocol.BootOutcome` (when a boot persists, launches, resets), `H4.DecodeMeans`, `Framing.JudgeMeans` and
`Bridge.ValidHostMeans` (frame types and sizes), `Vendor.OnPortMeans` (ports), `PngFilter.RowEquations` and
`PngFilter.RowsOfImage` (filters and rows), the last two clauses of `Resample.ResampleImage` (red, green, blue),
and `Colours.SortedMeans`, `Colours.WidestMeans` and `Quantise.RemappedMeans` (order, split and mean of colours).

## Model

| member | source | states |
|---|---|---|
| Decimal.Accumulate | common/uboot/mica-records.h:61-69 | the digit loop returns the number the whole digit run denotes, and rejects exactly the runs that denote more than 2^53-1, for runs of any length |
| Decimal.Overflow | common/uboot/mica-records.h:66-67 | once a prefix of the run passes the limit the whole run does, so rejecting early is right |
| Decimal.ValueOfConcat | common/uboot/mica-records.h:61-69 | positional notation in base ten: the value of two runs behind one another |
| Decimal.DigitsOfValue | common/uboot/mica-records.h:61-69 | a digit string without a leading zero is the printed numeral of its value |
| Records.ParseName | common/uboot/mica-records.h:24-39 | accepts exactly 64 lowercase hexadecimal digits closed by a comma and returns them |
| Records.ParseRecord | common/uboot/mica-records.h:54-78 | accepts exactly where the entry columns are right; the characters consumed spell the well-formed record returned, names, generation and attempts each in its column |
| Records.EntryAtRecord | common/uboot/mica-records.h:59-78 | the columns are right wherever the text goes on with a well-formed entry, so ParseRecord refuses nothing it should accept |
| Records.RecordTextPrefixFree | common/uboot/mica-records.h:59-78 | entries are self-delimiting: no text starts with a well-formed entry and with any different entry |
| Records.TextInjective | common/uboot/mica-records.h:92-116 | the text of a well-formed list is the text of no other list that can be printed, well-formed or not |
| Records.TextWidth | common/uboot/mica-records.h:9-11 | a well-formed text has 4 to 300 bytes, so it fits the value limit and the first sector |
| Records.ParseEntries | common/uboot/mica-records.h:53-89 | the entry loop accepts exactly the texts of well-formed lists and returns the list |
| Records.Parse | common/uboot/mica-records.h:41-90 | for any memory with a terminator in reach the result is the list whose text is the C string, or a refusal if there is none |
| Records.ParsedText | common/uboot/mica-records.h:24-116 | parsing the text of a well-formed list gives that list back |
| Records.Parsed | common/uboot/mica-records.h:41-90 | whatever text is accepted is, byte for byte, the text of the returned list |
| Records.ParsedMeans | common/uboot/mica-records.h:41-90 | character by character: a text denotes a list if and only if it is v1, a bar, then one entry or two with a semicolon between them, each two names of 64 lowercase hexadecimal digits, a generation up to 2^53-1 without a leading zero, and "-" or a digit up to 3, with commas between, the second entry older and of another id |
| Records.Print | common/uboot/mica-records.h:99-114 | the print loop writes the text of the list and fails only for lists that are not well-formed |
| Records.Render | common/uboot/mica-records.h:92-116 | printing succeeds exactly on well-formed lists (one or two entries, hexadecimal ids, descending generations, distinct ids, tries -1 to 3) and writes their text |
| Records.FindNext | common/uboot/mica-records.h:149-157 | the search returns the selected entry |
| Records.Next | common/uboot/mica-records.h:149-157 | the selected entry is the first with tries other than 0; -1 means every entry is at 0 |
| Records.NextIsNewest | common/uboot/mica-records.h:79-83 | the selected entry has the greatest generation among the entries with tries other than 0 |
| Environment.EnvValue | common/uboot/mica-records.h:126-140 | answers exactly when the copy is the key, a value of at most 512 bytes and zeros to the end, and then with that value |
| Environment.EntryByTerminator | common/uboot/mica-records.h:132-138 | behind the key the first NUL decides: it must come in time and be followed by zeros only |
| Environment.EnvStore | common/uboot/mica-records.h:143-147 | writes the key and the value in place and nothing else |
| Environment.StoredEntry | common/uboot/mica-records.h:118-147 | every NUL-free text of at most 512 bytes stored into a zeroed copy is read back |
| Environment.EntryDetermines | common/uboot/mica-records.h:118-140 | a copy that holds an entry is that entry's layout from byte 5 on, byte for byte |
| Environment.DecodedBytes | common/uboot/mica-records.h:118-140 | a copy decodes to a list if and only if bytes 5 to 17 spell the key, the text of the list follows, and every byte behind it is zero |
| Environment.Decode | boards/cx3576/loader/mica-file-boot.c:34-39 | a copy decodes to the records its entry denotes, or not at all |
| Environment.ImageReads | boards/cx3576/loader/mica-file-boot.c:69-72 | the prepared copy is valid, carries the flag, decodes to the records and is zero past its first sector |
| Environment.DecodedIsTidy | common/uboot/mica-records.h:134-138 | any copy that decodes is zero past its first 512 bytes |
| Environment.NextFlagWins | common/uboot/mica-records.h:166 | for all 256 flags, wraparound included, and for either slot, the copy with the next flag is selected |
| Disk.TornCopy | boards/cx3576/loader/mica-file-boot.c:73 | between two copies that are zero past their first sector, any subset of arriving sectors leaves exactly the old or exactly the new copy |
| Disk.BoardBlocks | boards/s905x5m/loader/mica-file-boot.c:28 | on either board, the block and the offset of every byte of both copies, and whether there is a cache |
| Disk.LandedSectors | boards/cx3576/loader/mica-file-boot.c:73 | a partly written region holds, sector by sector, the 512 bytes of the new copy or what it held |
| BootProtocol.SeesNewestIff | boards/cx3576/loader/mica-file-boot.c:46-55 | a boot selects the newest copy if and only if reading that copy succeeds |
| BootProtocol.SlotSeenMeans | boards/cx3576/loader/mica-file-boot.c:29-55 | for every outcome of the reads: a boot selects only a copy that was read and whose first four bytes, least significant first, are the checksum of the bytes from the sixth on; none only if there is none; of two the one with the greater flag, 0 following 255 |
| BootProtocol.SoundBySpare | boards/cx3576/loader/mica-file-boot.c:41-56 | only the spare copy has to be zero past its first sector for the state in which writes are atomic |
| BootProtocol.TornWriteAtomic | boards/cx3576/loader/mica-file-boot.c:58-81 | crash atomicity, for a write from either valid copy, so also over the newest one: whichever sectors arrive, the medium then holds exactly the old or the new records, decided by the first sector alone, and the next write is atomic again |
| BootProtocol.MixtureRefused | boards/cx3576/loader/mica-file-boot.c:29-32 | for any medium, a mixture whose stored checksum is not that of its bytes leaves the stored records as they were |
| BootProtocol.ReadbackNeedsSector | boards/cx3576/loader/mica-file-boot.c:77-79 | from the newest copy the readback cannot match unless the first sector arrived |
| BootProtocol.PersistAtomic | boards/cx3576/loader/mica-file-boot.c:58-81 | from either valid copy, persisting moves the stored records to the new ones or not at all, and success means it did, durably |
| BootProtocol.PersistOutcome | boards/cx3576/loader/mica-file-boot.c:58-81 | a persist succeeds if and only if the write, the flush where there is a cache, and the readback succeed and the readback is the copy written; exactly when power ends it; and what is durable in each case |
| BootProtocol.ReadbackMeansStored | boards/cx3576/loader/mica-file-boot.c:77-79 | whenever the readback matches the new records are stored, even if no sector arrived because they already were |
| BootProtocol.OneSafeWrite | boards/s905x5m/loader/mica-file-boot.c:152-181 | whatever the medium holds and the hardware does: at most one write per boot, to the slot not selected, and an entry with attempts is launched only after write and matching readback, in this order |
| BootProtocol.BootOutcome | boards/cx3576/loader/mica-file-boot.c:149-182 | every ending of a boot as an exact condition; a launch happens if and only if an image was loaded and, for an entry with attempts, its counter was persisted before |
| BootProtocol.OnlySpareWritten | boards/s905x5m/loader/mica-file-boot.c:60-83 | no block outside the region of the copy not selected ever changes |
| BootProtocol.AttemptRefines | boards/cx3576/loader/mica-file-boot.c:156-160 | when the selected entry has attempts, a launch implies the decrement is stored |
| BootProtocol.ConfirmedRefines | boards/cx3576/loader/mica-file-boot.c:173-177 | when the selected entry is confirmed, reaching the reset implies it is retired |
| BootProtocol.BootWrites | boards/cx3576/loader/mica-file-boot.c:149-181 | a boot leaves the medium alone or as one persist leaves it, which starts from the valid copy selected and spends its next entry |
| BootProtocol.BootKeepsSound | boards/cx3576/loader/mica-file-boot.c:41-81 | every boot, fallback or not, with any torn write or power cut, leaves a medium the next boot can read and write atomically |
| BootProtocol.BootRefines | boards/cx3576/loader/mica-file-boot.c:149-181 | unless it falls back to an older copy, one boot over the two copies is one step of a single register of records; boots in which both reads fail are steps that change nothing |
| BootRuns.RunKeepsSound | boards/cx3576/loader/mica-file-boot.c:149-181 | so does every run |
| BootRuns.RunIsRegister | boards/cx3576/loader/mica-file-boot.c:149-181 | from any sound medium, after any run without a fallback, whatever else fails, the store holds the initial records with some number of selected entries spent, at most one per boot |
| BootRuns.RunAges | boards/cx3576/loader/mica-file-boot.c:156-176 | from any sound medium, over any run without a fallback, ids, kernels, generations, count and order never change; counters only fall and zero stays zero |
| BootRuns.InstalledIsSound | boards/cx3576/loader/mica-file-boot.c:41-56 | every well-formed list can be installed: one prepared copy and a zeroed spare satisfy the precondition of the results about runs |
| BootRuns.LaunchBound | boards/cx3576/loader/mica-file-boot.c:149-172 | over any run with power cuts, failed reads, writes and readbacks in which no boot falls back, launches of an entry plus its stored attempts never exceed its initial attempts |
| BootRuns.LaunchBoundIff | boards/cx3576/loader/mica-file-boot.c:46-55 | the condition of the launch and reset bounds is exact: after a healthy failing boot of an entry with any number of attempts, and for all outcomes of the next boot's reads, each bound holds if and only if that boot does not fall back |
| BootRuns.FallbackRepeats | boards/cx3576/loader/mica-file-boot.c:46-81 | a boot that falls back launches the entry again and stores what was already stored |
| BootRuns.LaunchedIsNewest | common/uboot/mica-records.h:149-157 | every launched entry has the greatest generation among the stored entries with tries other than 0 |
| BootRuns.FallbackNeverReturns | boards/cx3576/loader/mica-file-boot.c:152-177 | over any run no boot launches an entry newer than one launched in an earlier boot |
| BootRuns.ResetsBounded | boards/cx3576/loader/mica-file-boot.c:152-181 | every boot that reaches the reset lowers the weight (1 for a confirmed entry, k for k attempts) and none raises it |
| BootRuns.FailingRunExhausts | boards/cx3576/loader/mica-file-boot.c:152-181 | on working hardware where every launch fails, exactly as many boots as the weight reset, and the next one reports that all deployments are exhausted |
| BootRuns.HealthyLaunches | boards/cx3576/loader/mica-file-boot.c:156-172 | on working hardware the selected entry is launched exactly once, and a confirmed one that takes over is not touched |
| BootRuns.StaleReadRelaunches | boards/cx3576/loader/mica-file-boot.c:49-54 | fallbacks happen: if the copy that records the attempt cannot be read in the second boot, an entry with one attempt is launched twice |
| BootChains.InstalledIsChained | boards/cx3576/loader/mica-file-boot.c:41-56 | an installed list with an erased spare is a medium whose newest copy came from the other one, or the other one cannot be used |
| BootChains.WriteChains | boards/cx3576/loader/mica-file-boot.c:58-81 | from any sound medium, once a write of the loader lands the newest copy came from the other one |
| BootChains.AnyBoot | boards/cx3576/loader/mica-file-boot.c:149-181 | on such a medium any boot at all takes at most one step of the register and keeps the medium so; a fallback takes none |
| BootChains.AnyRunIsRegister | boards/cx3576/loader/mica-file-boot.c:149-181 | over any run with any failures, fallbacks included, the store holds the initial records with some number of selected entries spent, at most one per boot |
| BootChains.AnyRunAges | boards/cx3576/loader/mica-file-boot.c:156-176 | over any run with any failures ids, kernels, generations, count and order never change; counters only fall and zero stays zero |
| BootChains.AnyRunLaunches | boards/cx3576/loader/mica-file-boot.c:149-172 | over any run, launches of an entry plus its stored attempts exceed its initial attempts by at most the number of fallbacks |
| BootChains.AnyRunResets | boards/cx3576/loader/mica-file-boot.c:152-181 | over any run, resets plus the final weight exceed the initial weight by at most the number of fallbacks |
| BootChains.BothBoards | boards/s905x5m/loader/mica-file-boot.c:28 | on the block layout of either board, from any installed well-formed list and over any run, the list only ages and no entry is launched more often than its attempts and the fallbacks |
| BootChains.FallbackKeepsIff | boards/cx3576/loader/mica-file-boot.c:46-81 | a healthy boot that falls back leaves the stored records alone if and only if the newest copy came from the older one |
| BootChains.FallbackReturnsIff | boards/cx3576/loader/mica-file-boot.c:46-55 | while a confirmed entry runs and the older copy selects a newer one, the next healthy boot launches that newer one if and only if it falls back |
| Loader.Loader.ReadEnvironment | boards/cx3576/loader/mica-file-boot.c:41-56 | returns the selected slot and what its copy decodes to |
| Loader.Loader.Prepare | boards/cx3576/loader/mica-file-boot.c:69-72 | the spare half becomes the prepared copy, the selected half is untouched |
| Loader.Loader.WriteBlocks | boards/cx3576/loader/mica-file-boot.c:73 | any accepted sectors become visible, any settled ones durable |
| Loader.Loader.PersistEnvironment | boards/s905x5m/loader/mica-file-boot.c:60-83 | does to the device, the log and the status what one persist does, although the readback overwrites the selected half of the buffer |
| Loader.Loader.FileBoot | boards/cx3576/loader/mica-file-boot.c:148-182 | durable medium, event log and ending of a boot are those of BootProtocol.BootOnce for every medium and every hardware behaviour |
| H4.DecodeEncode | boards/s905x5m/userland/skwbt/include/skw_h4.h:40-111 | every packet of the standard that fits the stream is found at the head of whatever follows it; larger ones are invalid |
| H4.DecodedPacket | boards/s905x5m/userland/skwbt/include/skw_h4.h:40-111 | whatever decodes as complete starts with the encoding of a packet of that size |
| H4.DecodeStable | boards/s905x5m/userland/skwbt/include/skw_h4.h:40-111 | more bytes never change a verdict, nor a size once known |
| H4.DecodeMeans | boards/s905x5m/userland/skwbt/include/skw_h4.h:40-111 | the verdict and the size for each of the six types from the bytes of the header, and for every other first byte |
| H4.Verdicts | boards/s905x5m/userland/skwbt/include/skw_h4.h:40-111 | complete means a packet that fits the stream is at the head, invalid means no further bytes can make it so, incomplete means some can |
| H4.Stream.Append | boards/s905x5m/userland/skwbt/include/skw_h4.h:113-123 | appends in place, or refuses and changes nothing when there is no room |
| H4.Stream.Consume | boards/s905x5m/userland/skwbt/include/skw_h4.h:131-139 | drops the first bytes in place, or refuses and changes nothing |
| Framing.JudgeStable | boards/s905x5m/userland/skw_bridge/skw_vhci_bridge.c:742-758 | a frame taken or refused stays so whatever follows it, for each of the three loops |
| Framing.JudgeMeans | boards/s905x5m/userland/skw_bridge/skw_vhci_bridge.c:740-758 | what each of the three loops refuses, waits for or takes, by type and size |
| Framing.AcceptsIff | boards/s905x5m/userland/skwbt/src/scom_vendor.c:519-534 | each loop takes exactly the complete packets up to its greatest size for the type |
| Framing.SendsSpent | boards/s905x5m/userland/skw_bridge/skw_vhci_bridge.c:759-766 | each frame taken costs one send, except log frames of the controller, which cost none |
| Framing.DrainConserves | boards/s905x5m/userland/skw_bridge/skw_vhci_bridge.c:740-773 | the frames taken followed by the bytes kept are the bytes received, in order |
| Framing.RestFits | boards/s905x5m/userland/skw_bridge/skw_vhci_bridge.c:719-725 | after every drain that waits fewer than 4096 bytes are kept |
| Framing.DrainAppend | boards/s905x5m/userland/skwbt/src/scom_vendor.c:604-629 | draining a longer buffer goes on exactly where draining its first part stopped |
| Framing.ChunkingIndependent | boards/s905x5m/userland/skw_bridge/skw_vhci_bridge.c:718-776 | any split of a byte stream into reads gives the same frames, the same verdict and the same remaining bytes as one pass |
| Framing.ReadAlwaysHasRoom | boards/s905x5m/userland/skwbt/src/scom_vendor.c:842-851 | the refusal of a full buffer is never reached |
| Framing.ReadProgress | boards/s905x5m/userland/skw_bridge/skw_vhci_bridge.c:718-776 | a loop that still waits has taken at least one byte with each read, or everything |
| Framing.ReadsSuffice | boards/s905x5m/userland/skw_bridge/skw_vhci_bridge.c:718-776 | with as many reads as bytes, of any sizes, a loop takes what one pass over all the bytes takes |
| Framing.DrainedAccepted | boards/s905x5m/userland/skwbt/src/scom_vendor.c:869-924 | every frame that comes out of a loop is one this loop accepts on its own |
| Framing.DrainConcat | boards/s905x5m/userland/skwbt/src/scom_vendor.c:604-629 | a concatenation of acceptable frames is taken apart into exactly those frames |
| Framing.DrainRefuses | boards/s905x5m/userland/skw_bridge/skw_vhci_bridge.c:742-758 | at the first frame it does not accept a loop stops, with exactly the frames before it taken |
| Framing.ReframesPrefix | boards/s905x5m/userland/skwbt/src/scom_vendor.c:586-642 | whatever part of such a concatenation has arrived, in whatever pieces, a prefix of the frames is taken and none refused |
| Bridge.ValidHostFrameIff | boards/s905x5m/userland/skw_bridge/skw_vhci_bridge.c:621-653 | the host frame check lets through exactly the complete packets of the four host types within the controller's buffers |
| Bridge.ValidHostMeans | boards/s905x5m/userland/skw_bridge/skw_vhci_bridge.c:621-653 | the host frame check by type, size and, for ISO data, the reserved bits |
| Bridge.HostFrameAccepted | boards/s905x5m/userland/skwbt/src/scom_vendor.c:519-534 | every frame the bridge lets through is one the library takes whole |
| Bridge.BridgeAndLibraryAgree | boards/s905x5m/userland/skwbt/src/scom_vendor.c:581-642 | for all accepted buffer sizes, frames let through by the bridge and cut anywhere come out of the library's loop as the same sequence, none refused |
| Bridge.Bridge.ReadBufferSizes | boards/s905x5m/userland/skw_bridge/skw_vhci_bridge.c:564-595 | stores the sizes exactly when the answer is long enough and they are in range, and changes nothing otherwise |
| Bridge.Bridge.ChipToKernel | boards/s905x5m/userland/skw_bridge/skw_vhci_bridge.c:718-776 | one read and drain pass on what Framing.Drain says; the bridge keeps running exactly if the drain waits |
| Bridge.Bridge.DrainChannel | boards/s905x5m/userland/skw_bridge/skw_vhci_bridge.c:740-773 | the drain loop forwards the frames that are not log frames, in order, and keeps the rest |
| Bridge.ForwardedMeans | boards/s905x5m/userland/skw_bridge/skw_vhci_bridge.c:759-772 | the frames forwarded are those whose first byte is not 7, in order |
| Bridge.Bridge.ChipLoop | boards/s905x5m/userland/skw_bridge/skw_vhci_bridge.c:690-785 | however the bytes are cut into reads, the loop reads exactly Framing.ReadUpTo of them and the kernel has received what one drain of those forwards; with enough reads, what one drain of all forwards |
| Bridge.Bridge.WriteAll | boards/s905x5m/userland/skw_bridge/skw_vhci_bridge.c:238-264 | exactly as much of the buffer reaches the socket as the writes grant before one fails for good |
| Bridge.GrantedMeans | boards/s905x5m/userland/skw_bridge/skw_vhci_bridge.c:238-264 | interruptions and waits that end change nothing, what is sent adds up, and nothing behind a failure counts |
| Bridge.Bridge.KernelToChip | boards/s905x5m/userland/skw_bridge/skw_vhci_bridge.c:853-882 | vendor packets stay in the bridge, malformed frames stop it, a valid frame reaches the socket whole, or as far as the writes go and stops it |
| Bridge.Bridge.KernelLoop | boards/s905x5m/userland/skw_bridge/skw_vhci_bridge.c:791-892 | over any reads the socket receives the valid frames in order, whole but for the last one if writing it failed; the bridge stops exactly at the first read that must stop it |
| Vendor.RoutedOnce | boards/s905x5m/userland/skwbt/src/scom_vendor.c:536-552 | every frame is on exactly the port of its type, as often as it came |
| Vendor.OnPortMeans | boards/s905x5m/userland/skwbt/src/scom_vendor.c:536-552 | over SDIO the frames that start with 2, 3 and 5 are on ports 1, 2 and 3, in order, and all others on port 0; otherwise all are on port 0 |
| Vendor.HostPath | boards/s905x5m/userland/skwbt/src/scom_vendor.c:536-642 | whatever part of the bridge's bytes has arrived, each device port holds the beginning of its share of the valid frames, by first byte, none is refused, and all of its share once all has arrived |
| Vendor.HostReader.Receive | boards/s905x5m/userland/skwbt/src/scom_vendor.c:586-642 | one read and drain routes what Framing.Drain takes; the reader stays alive exactly if the drain waits |
| Vendor.HostReader.DrainHost | boards/s905x5m/userland/skwbt/src/scom_vendor.c:604-629 | the drain loop appends each frame to its port, in order |
| Vendor.HostReader.Route | boards/s905x5m/userland/skwbt/src/scom_vendor.c:554-579 | one frame is appended to the port of its type and to no other |
| Vendor.HostReader.ReceiveLoop | boards/s905x5m/userland/skwbt/src/scom_vendor.c:654-696 | the loop reads exactly Framing.ReadUpTo bytes and the ports hold what one drain of those routes, ACL, SCO and ISO data by first byte on ports 1, 2 and 3 over SDIO; with enough reads, what one drain of all routes |
| Vendor.PortReader.Receive | boards/s905x5m/userland/skwbt/src/scom_vendor.c:840-927 | one read and drain passes on and logs what Framing.Drain takes |
| Vendor.PortReader.ReceiveLoop | boards/s905x5m/userland/skwbt/src/scom_vendor.c:812-927 | the loop reads exactly Framing.ReadUpTo bytes; what it passed on and logged is what one drain of those gives; with enough reads, of all |
| Vendor.PortReader.DrainPort | boards/s905x5m/userland/skwbt/src/scom_vendor.c:869-924 | the drain loop splits the frames into those for the host and the log |
| Vendor.ForwardedAndLogs | boards/s905x5m/userland/skwbt/src/scom_vendor.c:908-922 | frames passed on and frames logged are together all frames, none lost or repeated |
| HostSocket.WriteTransport | boards/s905x5m/userland/skwbt/src/scom_vendor.c:104-144 | the pieces sent are non-empty and total exactly what the sends grant up to the frame's length; success means they make up the frame |
| HostSocket.SendAllAppends | boards/s905x5m/userland/skwbt/src/scom_vendor.c:110-141 | sends of these pieces put exactly the covered part of the frame on the socket |
| HostSocket.SendAllLeads | boards/s905x5m/userland/skwbt/src/scom_vendor.c:110-141 | each of these sends is an enabled step of the transition system where the one before left off |
| HostSocket.HostLink.SendToHost | boards/s905x5m/userland/skwbt/src/scom_vendor.c:711-730 | lock, the sends of the loop and unlock are a run of the transition system; on success the socket has received exactly the frame, on a failed send exactly what was granted, with the whole new state stated |
| HostSocket.ArrivalsInterleave | boards/s905x5m/userland/skwbt/src/scom_vendor.c:711-730 | frames may come in on any port between any two steps of a sender: its steps stay possible and put the same bytes on the socket |
| HostSocket.Reachable | boards/s905x5m/userland/skwbt/src/scom_vendor.c:711-730 | after every interleaving the socket is whole frames plus a part of the lock holder's frame, and each port's frames are in order |
| HostSocket.WholeFrames | boards/s905x5m/userland/skwbt/src/scom_vendor.c:718-722 | in every interleaving, whenever the lock is free the socket is a concatenation of whole frames in which each port keeps its order |
| HostSocket.BridgeTakesIff | boards/s905x5m/userland/skw_bridge/skw_vhci_bridge.c:603-641 | the bridge takes what the library passes on exactly when it respects the controller's buffer sizes |
| HostSocket.KernelGetsFrames | boards/s905x5m/userland/skwbt/src/scom_vendor.c:869-924 | for any arrived frames the bridge accepts, whatever the readers do in parallel and however the socket is read, the bridge takes the sent frames in order, refuses none and misses none |
| HostSocket.ControllerToKernel | boards/s905x5m/userland/skw_bridge/skw_vhci_bridge.c:740-773 | with every port's reader passing on what one drain of its bytes gives, at every moment and for any part read, the bridge has taken frames in order and stops at most at the first that exceeds the controller's buffers; with everything read it refuses none if and only if every data frame respects them |
| PngFilter.PaethIsNearest | common/kernel/mklogo.py:87-89 | the predictor is the neighbour nearest to a + b - c, ties going left, above, upper left |
| PngFilter.UnfilterInverts | common/kernel/mklogo.py:71-92 | unfiltering recovers what the standard's filter encoded, for every type, row, previous row and pixel size |
| PngFilter.FilterInverts | common/kernel/mklogo.py:71-92 | filtering the recovered row gives the data back, so nothing is lost either way |
| PngFilter.RowEquations | common/kernel/mklogo.py:71-92 | every recovered byte is its data byte plus nothing, the byte to the left, the one above, the floor of their mean, or the nearest of the three neighbours, modulo 256 |
| PngFilter.UnfilterSub | common/kernel/mklogo.py:72-74 | the in-place loop for type 1 recovers the row |
| PngFilter.UnfilterUp | common/kernel/mklogo.py:75-77 | the in-place loop for type 2 recovers the row |
| PngFilter.UnfilterAverage | common/kernel/mklogo.py:78-81 | the in-place loop for type 3 recovers the row |
| PngFilter.UnfilterPaeth | common/kernel/mklogo.py:82-90 | the in-place loop for type 4 recovers the row |
| PngFilter.Unfilter | common/kernel/mklogo.py:72-92 | the five types are handled and any other one is refused with the row unchanged |
| PngFilter.ImageRecovered | common/kernel/mklogo.py:66-97 | a whole image is recovered from its filtered rows, whatever filter each row used |
| PngFilter.RowsOfImage | common/kernel/mklogo.py:66-93 | row y is unfiltered from the bytes behind the type byte at y times the row size, against row y-1; the image is refused if and only if some row has an unknown type |
| PngFilter.ReadRows | common/kernel/mklogo.py:64-98 | the row loop returns the recovered rows, or a refusal at the first unknown type; each pixel is the red, green and blue byte at its place, of 16-bit channels the first byte |
| Resample.WeightsPartition | common/kernel/mklogo.py:110-125 | the weights of a destination cell sum to exactly the number of source cells |
| Resample.OverlapCounts | common/kernel/mklogo.py:110-125 | a weight is the number of units that lie in both cells |
| Resample.VisitedIffPositive | common/kernel/mklogo.py:110-118 | the loop visits exactly the source cells with a positive overlap |
| Resample.VisitedInSource | common/kernel/mklogo.py:110-116 | the visited range is not empty and lies in the source |
| Resample.LineConserved | common/kernel/mklogo.py:104-125 | over all destination cells of a line every source value counts equally, once per destination cell |
| Resample.ImageConserved | common/kernel/mklogo.py:101-130 | the unrounded accumulators of all pixels sum to dw * dh times the sum of the source |
| Resample.Average | common/kernel/mklogo.py:126-128 | the division rounds to nearest, ties up |
| Resample.PixelBetween | common/kernel/mklogo.py:109-128 | each channel of a pixel lies between the extremes of the source pixels it overlaps |
| Resample.SameSizeIdentity | common/kernel/mklogo.py:101-130 | equal sizes give the identity |
| Resample.AddRow | common/kernel/mklogo.py:116-125 | the inner loop adds a row's weighted sums for all channels and its exact area |
| Resample.AccumulatePixel | common/kernel/mklogo.py:108-125 | the loops compute the weighted sums over the whole source, and an area of exactly sw * sh |
| Resample.ResampleImage | common/kernel/mklogo.py:101-130 | every channel of every destination pixel is the rounded area average; whatever bounds the reds of the source pixels overlapped bounds its red, and so for green and blue; equal sizes return the source |
| Colours.SortBySorts | common/kernel/mklogo.py:158 | sorting orders a box by channel and colour and keeps its colours |
| Colours.SortByIndependent | common/kernel/mklogo.py:144 | the sorted colours do not depend on the order they are listed in |
| Colours.SortedMeans | common/kernel/mklogo.py:158 | a sorted box is ordered by its red, its green or its blue, and among equals by the whole colour |
| Colours.WidestIsGreatest | common/kernel/mklogo.py:157 | the split channel has the greatest extent, the lowest number among equals |
| Colours.WidestMeans | common/kernel/mklogo.py:150-157 | the split is along the one of red, green and blue with the greatest range, the first among equals, and that range is the key |
| Colours.FindCut | common/kernel/mklogo.py:160-166 | the cut is at the first position where half of the population is reached, moved inside the box only if it is at an end |
| Colours.MedianIsFirst | common/kernel/mklogo.py:160-166 | before that position twice the running population is below the total, from it on it is not |
| Colours.Mean | common/kernel/mklogo.py:170-173 | the weighted mean of a channel lies within the box |
| Colours.RepresentativeMeans | common/kernel/mklogo.py:169-173 | the representative is the sum of the reds over the population, rounded down, and so for green and blue |
| MedianCut.FindBest | common/kernel/mklogo.py:146-153 | the chosen box has the greatest key among those that can be split; none is chosen only if none can |
| MedianCut.BestMeans | common/kernel/mklogo.py:146-153 | the box split has the greatest range, among those the most pixels, among those it comes first |
| MedianCut.Split | common/kernel/mklogo.py:156-167 | the halves are the sorted box cut at the median, both non-empty |
| MedianCut.HalvesUnique | common/kernel/mklogo.py:156-167 | there is only one way to split a box |
| MedianCut.StepKeepsPartition | common/kernel/mklogo.py:145-167 | a split keeps the boxes a partition of the colours into non-empty boxes and adds one |
| MedianCut.SomeBoxSplits | common/kernel/mklogo.py:154-155 | with more colours than boxes some box can be split, so the break is never taken |
| MedianCut.CutBoxes | common/kernel/mklogo.py:144-167 | with more colours than limit the loop ends with exactly limit boxes that partition the colours |
| Quantise.BuildHistogram | common/kernel/mklogo.py:135-138 | the histogram counts exactly the pixels of the picture |
| Quantise.MapBoxes | common/kernel/mklogo.py:168-176 | every colour is mapped to the representative of a box that holds it |
| Quantise.Remap | common/kernel/mklogo.py:177 | every pixel becomes the representative of its box |
| Quantise.RemappedInRange | common/kernel/mklogo.py:169-177 | the red, green and blue of every pixel of the result lie in the ranges of a box that holds the pixel it replaces |
| Quantise.RemappedMeans | common/kernel/mklogo.py:169-177 | every pixel of the result is the mean red, green and blue, rounded down, of a box that holds the pixel it replaces |
| Quantise.FewColours | common/kernel/mklogo.py:168-177 | the result has at most as many colours as boxes |
| Quantise.QuantiseRows | common/kernel/mklogo.py:133-177 | few colours are left alone; otherwise the picture is remapped over exactly limit boxes and has at most limit colours |
| Quantise.QuantiseDetermined | common/kernel/mklogo.py:18-23 | boxes and picture do not depend on the order in which the colours are listed |

## Left out

- Hardware and boot-loader services (watchdog, recovery key, device probing, partition layout, file loading, signature check, reset): their outcomes are parameters of a boot or end it before the environment is read.
- Tears inside a sector: the flag byte is outside the checksum, so sectors are taken to be atomic.
- Writers of the environment other than the loader: the running system may confirm a deployment between boots; runs here have none.
- CRC-32: an arbitrary function of the bytes; no result needs a property of it.
- Records.Render: the C struct has room for two entries and a free count; the model is a list of any length, and lists longer than two are refused alike.
- Environment.EnvValue: a copy shorter than the key is not modelled, since the comparison itself would read past it.
- PngFilter.ReadRows: chunk reading, decompression and the format check are outside; data shorter than the announced rows is excluded by the precondition, where the original stops with an index error.
- Resample.ResampleImage: a source of zero width or height is excluded, where the original divides by zero.
- Framing.Drain: a frame whose send fails counts as not delivered; how much of it the device or the kernel took is not modelled.
- Bridge.Bridge.ChipToKernel: polling, signals, closing descriptors and error texts are outside; the number of writes the kernel takes before one fails is a parameter.
- HostSocket.HostLink.SendToHost: after a failed or stopped send the model stops with the lock held; the original then releases it and shuts the transport down.
- HostSocket.WholeFrames: runs stop at the first failed or stopped send, after which the original gives no such guarantee.
- Address setup of the controller, command and event matching, the legacy firmware configuration, UART setup, thread lifecycle and logging.
- The Wi-Fi driver, the regulatory table, the front-panel driver, packaging and flash verification scripts, and the file output of the logo tool.
