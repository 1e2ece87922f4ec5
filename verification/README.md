# Verified model of the LA12xx host software

The LA12xx host software drives a modem card over PCIe. This project models the parts of it whose
correctness rests on an argument rather than on one function body, and proves those arguments:

- **MILENAGE over AES-128** (`GaloisField`, `MixColumn`, `Cipher`, `Rijndael`, `KnownAnswer`, `Milenage`). The
  table-driven, in-place encryptor computes the cipher of FIPS 197, which is a bijection and takes the published
  example to its published result; hence what the 3GPP functions of TS 35.206 compute and determine.
  `GaloisField.Add` is the C operator `^`. The S-box and Xtime tables are written one row to a 128-bit constant.
- **PCIe outbound windows** (`PciWindows`). A stack allocator with out-of-order release, one iATU window per
  record, and a host-range overlap check, over every run of the two ioctls.
- **VSPA loader** (`VspaLoader`). Section loading through a staging buffer that is the start of the image
  being loaded.
- **Scratch buffer** (`ScratchLayout`, `ScratchRegions`, `AddressMap`). Admission at module init, device ids,
  per-device windows, regions, the addresses reported to user space, the mmap gate, and the modem address map
  as a whole.
- **MSI lines** (`MsiPool`), **modem log ring** (`LogRing`), **converter recalibration** (`Recalibration`) and
  the **FCP parser** of the SIM library (`FcpTemplate`). `Words` holds what the driver models share.

Where the source updates state in place the model has a class whose methods are proved equal to a function of
the old state; the theorems are about those functions and their runs. `dafny verify dfyconfig.toml` checks
everything.

## What does not hold as one might expect

Each of these is kept as the code has it, with the exact condition under which it does hold.

- The window allocator records the low 32 bits of the modem address. If its space reaches 4 GiB, an empty
  request at the end is recorded at the wrong address and can never be collected: the records tile the space
  in every run exactly when the space ends below 4 GiB (`PciWindows.TilingIffSpaceBelow4GiB`).
- The overlap check compares wrapped 64-bit ends. A recorded range that wraps keeps nothing out, and the check
  is exact for a record only if it does not wrap (`PciWindows.RecordSeenIffNoWrap`). Two requests are enough to
  record a range inside an earlier one (`PciWindows.WrapBreaksNesting`); after a first request, all runs of
  non-wrapping ones keep the ranges nested exactly when the first did not wrap (`PciWindows.NestingIffNoWrap`).
- The admission product is a 32-bit `int`: an admitted configuration is sound exactly when it did not overflow
  (`ScratchLayout.AdmissionExact`, `ScratchLayout.OverflowIsAdmitted`).
- Host data sized automatically may not fit the buffer it was computed from: it does exactly when more than 1 MB
  is left per modem, or when the rest and the part of a modem are both multiples of the page size
  (`ScratchLayout.AutoSizingFitsIff`, `ScratchLayout.AutoSizingCanFail`).
- Admission compares a modem's part only with the host buffer, not with the room between the huge-page base and the
  end of the scratch window. If the part is larger, the size published for user windows wraps and the first window
  lies inside the scratch window (`AddressMap.FirstWindowMeetsScratch`): over all runs user windows are clear of
  scratch regions exactly when there is room for the part (`AddressMap.ClearIffRoom`).
- The mmap check adds offset and size in 64 bits, so it accepts a range around 2^64 that lies in no region
  (`ScratchRegions.WrappingMmapIsAllowed`): an accepted range lies in the shared regions exactly when its end does
  not wrap (`ScratchRegions.MmapSoundIffNoWrap`). This is about the driver's own test; current kernels refuse such
  a range for a character device before the driver is called.
- Aligning the image address moves the virtual address of the region but not its physical one, and cores after
  the first stage at the moved address: chunks, and so sections, arrive exactly when nothing was moved
  (`VspaLoader.DeliveredIffStagedAtStart`, `VspaLoader.SentIffStagedAtStart`). What arrives otherwise is
  `VspaLoader.Sent`.
- The loader checks only where a chunk starts. A section is refused exactly when its last chunk would start past the
  core's memory (`VspaLoader.RefusedIff`), after the chunks before it were sent, and one can be accepted and end past
  it (`VspaLoader.SentPastMemory`): loading touches nothing past the memory exactly when what is sent of the section
  ends there (`VspaLoader.StaysInsideIff`).
- The host addresses reported for scratch regions are counted from the low word of the address of region 0, which
  exists only if there is a share area: they are right exactly when there is one and it lies below 4 GiB, or the
  modem address is 0 (`ScratchRegions.ReportedIffShared`).
- Registering a channel that already holds an MSI line loses that line (`MsiPool.RegisterTwiceOrphans`): every busy
  line has a holder exactly when that never happened while another line was free (`MsiPool.AllHeldIffNeverLoses`),
  and no later step gives a lost line back (`MsiPool.OrphanedForever`). A registration that fails after it took a
  line keeps it (`MsiPool.FailureMayHoldLine`).
- Written over its own inputs, `ComputeOPc` gives zeros, and `F2345` computes IK with CK in the place of OPc; the
  contracts of `Milenage.ComputeOPc` and `Milenage.F2345` say so.
- The scan after an empty log read drains every stretch into the same buffer: nothing is lost exactly when
  there is one stretch (`LogRing.ShowLosesNothingIffOneStretch`), and what is shown is the last one
  (`LogRing.ShowReturnsLastRun`). Nothing keeps the modem from overrunning the ring: the drains return what it wrote
  exactly when it did not (`LogRing.DrainsReturnAllIffNoOverrun`). A text that fills the page is reported one byte
  short: that can happen exactly when the ring is not shorter than a page, and the ring is 4096 bytes long
  (`LogRing.ShownInPageIff`).
- Without a list of PCI addresses the first device probed uses up the only id: if it does not come up, no device gets
  an id again (`ScratchLayout.UnlistedIds`).
- A full recalibration can pass although the calibration byte never cleared, if its last reading has none of the
  awaited bits (`Recalibration.PassesUncleared`, `Recalibration.FullPassesExactly`).
- The FCP parser never looks at the length of its buffer. It reads an object 82 to its seventh byte whatever its
  length, which may lie past the buffer (`FcpTemplate.ReadPastBuffer`), and accepts a template of which only the
  start is there (`FcpTemplate.AcceptedAlthoughCutOff`). If a record is asked for, the reads for a
  template inside the buffer stay inside exactly when the seven bytes from its last object 82 do
  (`FcpTemplate.EncodedInBoundsIff`); for a given template length, whatever it holds, exactly when the buffer
  reaches seven bytes past the last place an object can start (`FcpTemplate.AllInBoundsIff`). For the 256 bytes
  the callers pass that is a length of at most 248.

## Model

| member | source | states |
|---|---|---|
| `GaloisField.XtimeIsTimes2` | lib/usim_library/aka_functions.c:304-321 | every entry of Xtime is multiplication by x in GF(2^8) |
| `GaloisField.InvSBoxOfSBox` | lib/usim_library/aka_functions.c:284-301 | the substitution table has a left inverse |
| `GaloisField.SBoxOfInvSBox` | lib/usim_library/aka_functions.c:284-301 | and it is a right inverse: S is a permutation of the bytes |
| `GaloisField.SBoxIsAffineOfInverse` | lib/usim_library/aka_functions.c:284-301 | each entry is the affine image of the multiplicative inverse of its index, the definition of section 5.1.1 of FIPS 197 |
| `GaloisField.MulLinear` | lib/usim_library/aka_functions.c:418-426 | field multiplication distributes over addition, the law behind the column-sum form |
| `MixColumn.ColumnSumIsMix` | lib/usim_library/aka_functions.c:414-427 | byte, column sum and one Xtime lookup give the circulant (02 03 01 01) row product of section 5.1.3 of FIPS 197 |
| `MixColumn.UnmixOfMix` | lib/usim_library/aka_functions.c:409-429 | the (0e 0b 0d 09) row undoes MixColumn for every column |
| `MixColumn.MixOfUnmix` | lib/usim_library/aka_functions.c:409-429 | and MixColumn undoes it |
| `Cipher.RoundKeyStep` | lib/usim_library/aka_functions.c:338-354 | the word recurrence of section 5.2 of FIPS 197 gives each round key from the one before, as the schedule computes it |
| `Cipher.RoundKeyBytes` | lib/usim_library/aka_functions.c:336-354 | each round key follows from the one before with the round constants 01 02 04 08 10 20 40 80 1b 36 |
| `KnownAnswer.Fips197Example` | lib/usim_library/aka_functions.c:327-465 | the example of appendix C.1 of FIPS 197: its key and block give its result, byte for byte |
| `Cipher.RoundsInvert` | lib/usim_library/aka_functions.c:446-454 | the inverse rounds undo the full rounds, in both orders, for any number of them |
| `Cipher.EncryptIsBijection` | lib/usim_library/aka_functions.c:436-465 | for any round keys the inverse cipher of section 5.3 of FIPS 197 recovers every block, and encryption reaches every block |
| `Cipher.EncryptIsInjective` | lib/usim_library/aka_functions.c:436-465 | two blocks encrypt alike exactly when they are equal |
| `Rijndael.ByteSub` | lib/usim_library/aka_functions.c:370-379 | the nested loops apply SubBytes to the whole 4x4 state |
| `Rijndael.ShiftRow` | lib/usim_library/aka_functions.c:382-405 | the in-place moves rotate row r left by r |
| `Rijndael.MixColumnInPlace` | lib/usim_library/aka_functions.c:409-429 | although it overwrites bytes it still needs, the loop applies MixColumns to all four columns |
| `Rijndael.Encryptor.KeyAdd` | lib/usim_library/aka_functions.c:359-367 | adds round key `round` to the state |
| `Rijndael.Encryptor.KeySchedule` | lib/usim_library/aka_functions.c:327-356 | the 11x4x4 table equals Key Expansion of the key (`Cipher.RoundKeyBytes` says what that is), whatever it held before |
| `Rijndael.Encryptor.Encrypt` | lib/usim_library/aka_functions.c:436-465 | the output is the cipher of section 5.1 of FIPS 197 of the input, under the round keys held, even if both are one array |
| `Milenage.OutIsBijection` | lib/usim_library/aka_functions.c:110-159 | for a fixed key and OPc, RAND to OUT2, OUT3 (CK), OUT4 (IK) and OUT5 are bijections, with the inverse given |
| `Milenage.KeysDetermineRand` | lib/usim_library/aka_functions.c:88-162 | two challenges give the same CK, or the same IK, exactly when they are equal |
| `Milenage.MacsDetermineSqnAndAmf` | lib/usim_library/aka_functions.c:30-76 | for a fixed key, challenge and OPc, (MAC-A, MAC-S) agree exactly when (SQN, AMF) agree |
| `Milenage.MacsDetermineRand` | lib/usim_library/aka_functions.c:173-219 | for fixed SQN and AMF, OUT1 determines the challenge |
| `Milenage.F1` | lib/usim_library/aka_functions.c:30-76 | MAC-A is the first half of OUT1 of section 4.1 of TS 35.206 |
| `Milenage.F1Star` | lib/usim_library/aka_functions.c:173-219 | MAC-S is the second half of the same OUT1 |
| `Milenage.F2345` | lib/usim_library/aka_functions.c:88-162 | RES, AK, CK and IK are the parts of OUT2, OUT3 and OUT4, whatever the round-key table held before; if CK is written over OPc, IK is OUT4 with CK in its place, and if CK and IK are one array it ends as IK |
| `Milenage.F5Star` | lib/usim_library/aka_functions.c:229-262 | AK for resynchronisation is the first six bytes of OUT5 |
| `Milenage.ComputeOPc` | lib/usim_library/aka_functions.c:268-278 | OPc is OP encrypted under the scheduled keys, plus OP; zeros if both are one array |
| `Milenage.TempBytes` | lib/usim_library/aka_functions.c:43-46 | TEMP encrypts the sum of the challenge and OPc |
| `Milenage.Out1Bytes` | lib/usim_library/aka_functions.c:48-73 | OUT1 byte by byte: SQN and AMF twice, plus OPc, moved by eight, plus TEMP, encrypted, plus OPc |
| `Milenage.Out2Bytes` | lib/usim_library/aka_functions.c:110-122 | OUT2 byte by byte: the encryption of TEMP plus OPc, last byte plus 1, plus OPc |
| `Milenage.Out3Bytes` | lib/usim_library/aka_functions.c:132-143 | OUT3 byte by byte: rotated by four, last byte plus 2 |
| `Milenage.Out4Bytes` | lib/usim_library/aka_functions.c:148-159 | OUT4 byte by byte: rotated by eight, last byte plus 4 |
| `Milenage.Out5Bytes` | lib/usim_library/aka_functions.c:246-258 | OUT5 byte by byte: rotated by twelve, last byte plus 8 |
| `PciWindows.FirstFreeIsCount` | kernel_driver/yami/gul_ipc.c:325-340 | the first-fit window search returns exactly the record count, so it never fails |
| `PciWindows.AllocKeeps` | kernel_driver/yami/gul_ipc.c:369-418 | allocation below 4 GiB keeps the accounting and grants the cursor address with window number = record number |
| `PciWindows.GetTells` | kernel_driver/yami/gul_ipc.c:552-574 | a request is granted exactly when it is not negative, fits the space and the table and passes the overlap check, and then owns the new top record and its window at the address told; it is told Invalid or OutOfMemory exactly as stated, and then nothing changes |
| `PciWindows.CollectKeeps` | kernel_driver/yami/gul_ipc.c:420-455 | a released top record always ends at the cursor, so the mismatch branch is unreachable, and collection drops exactly the released records above the highest held one |
| `PciWindows.PutKeeps` | kernel_driver/yami/gul_ipc.c:457-481 | release of any record in any order keeps the invariant |
| `PciWindows.PutReleasesFirst` | kernel_driver/yami/gul_ipc.c:457-481 | a release fails exactly when nothing is held for that host address; else exactly the first such record is released and released records leave from the top |
| `PciWindows.PutTells` | kernel_driver/yami/gul_ipc.c:457-481 | a release marks the first held record free, drops the free records on top and leaves all others and the hardware windows as they are |
| `PciWindows.RunKeeps` | kernel_driver/yami/gul_ipc.c:349-481 | in every run records tile the used space, avail + used = total, the bitmap is set exactly below the count, every hardware window maps its record, and the top record is held |
| `PciWindows.StepKeepsWindows` | kernel_driver/yami/gul_ipc.c:413-415 | no request reprograms the window of a recorded mapping |
| `PciWindows.AllFreedIsInitial` | kernel_driver/yami/gul_ipc.c:420-481 | once nothing is held the allocator is back in its initial state |
| `PciWindows.WindowsInsideSpace` | kernel_driver/yami/gul_ipc.c:390-415 | every window handed out lies inside the space given at setup |
| `PciWindows.WindowsDisjoint` | kernel_driver/yami/gul_ipc.c:390-415 | two records never share modem addresses |
| `PciWindows.OverlapCheckIsExact` | kernel_driver/yami/gul_ipc.c:483-505 | without wrap a request passes exactly when it is clear of, or contains, every recorded range |
| `PciWindows.RecordSeenIffNoWrap` | kernel_driver/yami/gul_ipc.c:493-496 | for one record the check refuses exactly the non-wrapping requests that cut into its range, if and only if the range does not wrap past 2^64 (or has no inside such a request could reach); a range that wraps refuses nothing |
| `PciWindows.RunKeepsNesting` | kernel_driver/yami/gul_ipc.c:552-574 | in every run of non-wrapping requests, of two recorded host ranges the later one is clear of or contains the earlier one |
| `PciWindows.WrapLetsIn` | kernel_driver/yami/gul_ipc.c:552-574 | after a request that wraps, any later one above its start is recorded too |
| `PciWindows.WrapBreaksNesting` | kernel_driver/yami/gul_ipc.c:552-574 | a run of two requests that records a range strictly inside an earlier one |
| `PciWindows.NestingIffNoWrap` | kernel_driver/yami/gul_ipc.c:483-505 | after a first request, all runs of non-wrapping requests keep the ranges nested exactly when the first range did not wrap |
| `PciWindows.FullSpaceBreaksTiling` | kernel_driver/yami/gul_ipc.c:390-405 | a run that breaks the tiling when the space reaches 4 GiB |
| `PciWindows.TilingIffSpaceBelow4GiB` | kernel_driver/yami/gul_ipc.c:369-418 | every run tiles exactly when base + total < 2^32 |
| `PciWindows.Allocator.constructor` | kernel_driver/yami/gul_ipc.c:349-367 | setup gives the initial state |
| `PciWindows.Allocator.GetIatuIdx` | kernel_driver/yami/gul_ipc.c:325-340 | returns and sets the first clear bit, or -1 and nothing |
| `PciWindows.Allocator.MapAlloc` | kernel_driver/yami/gul_ipc.c:369-418 | the whole new state and result of an allocation, on every branch |
| `PciWindows.Allocator.MapFreeGc` | kernel_driver/yami/gul_ipc.c:420-455 | the in-place loop is the collection whose effect is proved above |
| `PciWindows.Allocator.MapFree` | kernel_driver/yami/gul_ipc.c:457-481 | releases the first held record of that host address, then collects |
| `PciWindows.Allocator.CheckOverlap` | kernel_driver/yami/gul_ipc.c:483-505 | true exactly when some record overlaps |
| `PciWindows.Allocator.GetPciMap` | kernel_driver/yami/gul_ipc.c:552-574 | refuses negative sizes and overlaps, else allocates |
| `VspaLoader.CopyToPlaces` | kernel_driver/yami/gul_main_vspa.c:577-587 | a copy puts its bytes in place and changes no other byte |
| `VspaLoader.CopyInTwo` | kernel_driver/yami/gul_main_vspa.c:526-589 | adjacent chunks equal one copy |
| `VspaLoader.LoadedByteArrives` | kernel_driver/yami/gul_main_vspa.c:770-881 | after a load every byte of a section that no later one covers is the one sent for it, which with staging at the physical start is the byte of the original image, and other bytes are untouched |
| `VspaLoader.HeaderIs` | kernel_driver/yami/gul_main_vspa.c:765-768 | the header of section k is row k of the table at the header offset |
| `VspaLoader.OverlayNameIs` | kernel_driver/yami/gul_main_vspa.c:62-74 | an overlay name begins with one of the five prefixes |
| `VspaLoader.FateByHeader` | kernel_driver/yami/gul_main_vspa.c:770-866 | from the header: exactly when a section is loaded, skipped, too big or unaligned, with the least multiple of the AXI width, as an unsigned word, for its size |
| `VspaLoader.SectionArrives` | kernel_driver/yami/gul_main_vspa.c:770-881 | after an Ok load staged at the physical start, every byte of a section without an overlay name and with a transfer mode is where its header says, unless a later section lands there |
| `VspaLoader.FirstFailureReported` | kernel_driver/yami/gul_main_vspa.c:826-873 | the load reports the first section in order that is refused or does not fit, and Ok if there is none |
| `VspaLoader.FateIntact` | kernel_driver/yami/gul_main_vspa.c:775-850 | a section is treated as the original image says as long as its header and name survive |
| `VspaLoader.DeliveredIffStagedAtStart` | kernel_driver/yami/gul_main_vspa.c:1225-1229 | a chunk arrives for every memory content exactly when it is staged at the physical start of the region |
| `VspaLoader.SentIffStagedAtStart` | kernel_driver/yami/gul_main_vspa.c:526-589 | and so does a whole section, chunk by chunk |
| `VspaLoader.ChunkSent` | kernel_driver/yami/gul_main_vspa.c:563-577 | what the engine picks up for a chunk, from memory already overwritten below it, is the part for that chunk of a closed form over the original image: byte i of a section is image byte i mod 64 KiB if that is below the place of staging, else the section's byte that much earlier |
| `VspaLoader.SurvivesIffBelow` | kernel_driver/yami/gul_main_vspa.c:563-564 | staging spares what follows, for every content, exactly when the chunk ends before it or is already in place |
| `VspaLoader.RefusedIff` | kernel_driver/yami/gul_main_vspa.c:526-553 | a section is refused exactly when its last chunk would start past the core's memory |
| `VspaLoader.AcceptedIs` | kernel_driver/yami/gul_main_vspa.c:526-553 | of a refused section, whole chunks were sent up to the first that starts past the core's memory |
| `VspaLoader.InsideIsAccepted` | kernel_driver/yami/gul_main_vspa.c:548-553 | a section that ends inside the core's memory is not refused |
| `VspaLoader.StaysInsideIff` | kernel_driver/yami/gul_main_vspa.c:548-553 | loading a section touches nothing past the core's memory, whatever that holds, exactly when what is sent of it ends there |
| `VspaLoader.SentPastMemory` | kernel_driver/yami/gul_main_vspa.c:548-553 | a section of 32 bytes that is accepted although half of it goes past the core's memory |
| `VspaLoader.Loader.DmaWrite` | kernel_driver/yami/gul_main_vspa.c:506-595 | the chunk loop ends, delivers those bytes of the section, up to the first chunk refused, to its address wherever chunks are staged, and spares memory below that place and from the section's end on |
| `VspaLoader.Loader.LoadSection` | kernel_driver/yami/gul_main_vspa.c:770-880 | one pass loads, skips or refuses a section as the original image says and keeps what later ones need |
| `VspaLoader.Loader.LoadSections` | kernel_driver/yami/gul_main_vspa.c:734-893 | for an image in file order and any place of staging before it, core memory and status equal one copy per section of what is sent of the image as it was before loading (with staging at the physical start, its own bytes), up to the first refusal, unless the DMA times out |
| `ScratchLayout.AdmissionExact` | kernel_driver/yami/gul_pci.c:1163-1170 | an admitted configuration gives every modem a window inside the buffer exactly when the product did not overflow |
| `ScratchLayout.AdmittedIffInside` | kernel_driver/yami/gul_pci.c:1163-1170 | without an overflow, exactly the configurations whose windows fit are admitted |
| `ScratchLayout.OverflowIsAdmitted` | kernel_driver/yami/gul_pci.c:1163-1170 | four modems of 1 GB are admitted into any buffer |
| `ScratchLayout.AlignedUp` | kernel_driver/yami/gul_pci.c:1136-1137 | the aligned size is the multiple of the page size in [x, x + page) |
| `ScratchLayout.AutoSizingPasses` | kernel_driver/yami/gul_pci.c:1146-1161 | automatic host-data sizing with more than 1 MB left per modem passes admission |
| `ScratchLayout.AutoSizingUsesShare` | kernel_driver/yami/gul_pci.c:1146-1161 | it leaves at most 1 MB of a modem's share unused, and at least that less two pages |
| `ScratchLayout.AutoSizingFitsIff` | kernel_driver/yami/gul_pci.c:1136-1170 | automatic sizing fits exactly when more than 1 MB is left per modem or the rest and a modem's part are multiples of the page size, and is then what admission decides unless the product overflows |
| `ScratchLayout.AutoSizingCanFail` | kernel_driver/yami/gul_pci.c:1146-1161 | a configuration with one byte left that is refused |
| `ScratchLayout.IdsStable` | kernel_driver/yami/gul_pci.c:176-211 | in every run of probes each id is below the number of modems and depends only on the PCI name |
| `ScratchLayout.ListedIds` | kernel_driver/yami/gul_pci.c:176-211 | with a list, exactly the listed devices get ids, each the first place it has in the list |
| `ScratchLayout.UnlistedIds` | kernel_driver/yami/gul_pci.c:176-211 | without a list, the first device probed gets id 0, and after it only a device of that name, if the first probe came up |
| `ScratchLayout.SoundWindows` | kernel_driver/yami/gul_base.c:353-377 | admitted device windows are inside the buffer and pairwise disjoint |
| `ScratchLayout.ProbedWindows` | kernel_driver/yami/gul_base.c:363-373 | so are the windows of any two probes of any run, and the probe-time check never refuses |
| `ScratchLayout.Driver.constructor` | kernel_driver/yami/gul_pci.c:1075-1087 | listed addresses fill the name table and set the number of modems |
| `ScratchLayout.Driver.SettleSizes` | kernel_driver/yami/gul_pci.c:1136-1170 | the sizes after alignment and automatic sizing, and whether they are admitted |
| `ScratchLayout.SumsFitInt` | kernel_driver/yami/gul_pci.c:1136-1161 | for plausible sizes, and two pages to spare if host data is sized automatically, the largest sum on the way fits an int |
| `ScratchLayout.Driver.GetDeviceId` | kernel_driver/yami/gul_pci.c:176-211 | the id by name, the refusals, and the fresh id |
| `ScratchLayout.Driver.ProbeDevice` | kernel_driver/yami/gul_pci.c:720-721 | a probe that comes up records its name under its id |
| `ScratchRegions.ServeKeeps` | kernel_driver/yami/gul_base.c:200-245 | in every run of requests regions are disjoint and inside, and an allocated id always gets the same region back |
| `ScratchRegions.ServeFills` | kernel_driver/yami/gul_base.c:200-245 | nothing is wasted: the regions together fill the window up to the cursor |
| `ScratchRegions.RequestTells` | kernel_driver/yami/gul_base.c:200-245 | after any run a new region is refused exactly when it and those handed out exceed the window; granted, it has the size asked for and starts where they end |
| `ScratchRegions.ProbedLayout` | kernel_driver/yami/gul_base.c:247-265 | the regions requested at probe all fit and lie one after another at stated addresses |
| `ScratchRegions.ProbedAddresses` | kernel_driver/yami/gul_base.c:247-265 | the address and size of each of the seven regions after a probe |
| `ScratchRegions.ProbeNeverRunsOut` | kernel_driver/yami/gul_base.c:353-361 | the part computed per modem is enough for them |
| `ScratchRegions.ReportedIffShared` | kernel_driver/yami/gul_modinfo.c:135-142 | the reported host address of every allocated region is its image under the outbound window exactly when the modem address is 0, or below 4 GiB with a share size that is not 0 |
| `ScratchRegions.ModinfoGet` | kernel_driver/yami/gul_modinfo.c:135-142 | the loop reports that address for every region |
| `ScratchRegions.MmapExact` | kernel_driver/yami/gul_modinfo.c:51-78 | a non-empty, non-wrapping range may be mapped exactly when all its bytes are in the share, host-data or RF region |
| `ScratchRegions.MmapSoundIffNoWrap` | kernel_driver/yami/gul_modinfo.c:51-78 | an accepted range lies in the share, host-data and RF regions exactly when its end does not wrap past 2^64 |
| `ScratchRegions.WrappingMmapIsAllowed` | kernel_driver/yami/gul_modinfo.c:65-67 | two pages around 2^64 are accepted although no byte of them is in a region |
| `ScratchRegions.ScratchAllocator.Allocate` | kernel_driver/yami/gul_base.c:200-245 | the whole new state and result of a request, on every branch |
| `ScratchRegions.ScratchAllocator.AllocateAtProbe` | kernel_driver/yami/gul_base.c:247-265 | the requests made at probe |
| `AddressMap.UserWindowsClearOfScratch` | kernel_driver/yami/gul_base.c:496-503 | with room for a modem's part, over all runs of both allocators a user window lies between the huge-page base and the scratch window and never meets a scratch region |
| `AddressMap.SpaceMeetsScratch` | kernel_driver/yami/gul_base.c:502-503 | the space published for user windows ends exactly where the scratch window starts |
| `AddressMap.FirstWindowMeetsScratch` | kernel_driver/yami/gul_base.c:502-503 | without that room the published size wraps and the first window is recorded inside the scratch window |
| `AddressMap.ClearIffRoom` | kernel_driver/yami/gul_base.c:496-503 | over all runs of both allocators user windows are clear of scratch regions exactly when the part fits between the huge-page base and the end of the scratch window |
| `MsiPool.PickIsBest` | kernel_driver/yami/gul_pci.c:512-541 | a request fails exactly when no line is free and gets a line of its own core whenever one is free |
| `MsiPool.RegisterTakes` | kernel_driver/yami/gul_ipc.c:216-259 | a registration takes the first free line of the calling core, or the first free one if that has none, and touches nothing else |
| `MsiPool.DeregisterKeeps` | kernel_driver/yami/gul_ipc.c:302-323 | deregistration frees exactly the channel's line and keeps the invariant |
| `MsiPool.RunKeeps` | kernel_driver/yami/gul_ipc.c:216-323 | in every run, shared with other drivers, no line has two holders and the busy lines are exactly the held and the lost ones |
| `MsiPool.StepLoses` | kernel_driver/yami/gul_ipc.c:249-254 | each such registration loses exactly one line, nothing else loses any, and no step gives one back |
| `MsiPool.AllHeldIffNeverLoses` | kernel_driver/yami/gul_ipc.c:216-323 | after any run every busy line has a holder exactly when no channel that held a line registered while another was free |
| `MsiPool.OrphanedForever` | kernel_driver/yami/gul_ipc.c:216-323 | a busy line without a holder stays so whatever is done next |
| `MsiPool.RegisterTwiceOrphans` | kernel_driver/yami/gul_ipc.c:216-323 | a run of three calls after which a line is busy and nobody holds it |
| `MsiPool.FailureMayHoldLine` | kernel_driver/yami/gul_ipc.c:249-300 | a registration that finds a line free holds it whatever it reports; one that does not changes nothing; and which error is reported when |
| `MsiPool.Pool.GetMsi` | kernel_driver/yami/gul_pci.c:512-541 | the two loops return and take that line |
| `MsiPool.Pool.PutMsi` | kernel_driver/yami/gul_pci.c:544-552 | frees a busy line in range, else nothing |
| `MsiPool.Pool.RegisterIrq` | kernel_driver/yami/gul_ipc.c:216-300 | the channel takes a line if one is free, and what is reported, with the failures after that |
| `MsiPool.Pool.DeregisterIrq` | kernel_driver/yami/gul_ipc.c:302-323 | the channel gives its line back |
| `LogRing.DrainConserves` | kernel_driver/yami/gul_sysfs.c:103-139 | for any contents the count of non-zero bytes drops by exactly what is returned, and only non-zero bytes are returned |
| `LogRing.DrainOfQueue` | kernel_driver/yami/gul_sysfs.c:103-139 | a ring that holds one circular run returns it in order, ends empty and moves the offset past it |
| `LogRing.AdvanceIsModular` | kernel_driver/yami/gul_sysfs.c:118-135 | that is, modulo the length |
| `LogRing.RunIsQueue` | kernel_driver/yami/gul_sysfs.c:103-139 | with a writer that does not overrun, the drains of any run return what was written, in order |
| `LogRing.DrainsReturnAllIffNoOverrun` | kernel_driver/yami/gul_sysfs.c:103-139 | after any run and a last drain, the drains have returned what was written exactly when the writer never overran |
| `LogRing.ShowLosesNothingIffOneStretch` | kernel_driver/yami/gul_sysfs.c:155-163 | after an empty read the scan returns as many bytes as the ring held exactly when they lie in one stretch |
| `LogRing.ShowReturnsLastRun` | kernel_driver/yami/gul_sysfs.c:155-163 | what it returns is the last run of text, the ring ends empty, and the next drain starts where that run ended |
| `LogRing.ShownInPageIff` | kernel_driver/yami/gul_sysfs.c:168-172 | whatever the ring holds, the text fits the page and its reported length is below the page size exactly when the ring is no longer than a page, and is reported in full exactly when the ring is shorter |
| `LogRing.EpLog.Collect` | kernel_driver/yami/gul_sysfs.c:103-139 | the new ring, offset and text of a drain in place |
| `LogRing.EpLog.ShowLog` | kernel_driver/yami/gul_sysfs.c:141-174 | the same for a drain followed by the scan, with the length returned |
| `Recalibration.StoreRestore` | kernel_driver/yami/gul_dcs.c:672-749 | after storing, bit 8 is clear in both registers and every other bit is kept; after restoring, both are as they were |
| `Recalibration.FullPassesExactly` | kernel_driver/yami/gul_dcs.c:506-576 | a full recalibration passes exactly when each awaited bit shows up within its retries and the calibration byte clears within them or at least shows none of the masked bits last |
| `Recalibration.FullPassesBits` | kernel_driver/yami/gul_dcs.c:506-576 | the same by the bits of the registers read |
| `Recalibration.PassesUncleared` | kernel_driver/yami/gul_dcs.c:548-572 | answers for which it passes although the calibration byte never clears |
| `Recalibration.FastPassesExactly` | kernel_driver/yami/gul_dcs.c:1220-1246 | a fast recalibration passes exactly when the counter moves within its retries |
| `Recalibration.FastPassesBits` | kernel_driver/yami/gul_dcs.c:1202-1246 | that is, when the upper half of the response register gets above its first reading within twenty more |
| `Recalibration.FullMailBits` | kernel_driver/yami/gul_dcs.c:498-527 | the mailbox bits of a full recalibration; all others are kept |
| `Recalibration.FastMailBits` | kernel_driver/yami/gul_dcs.c:1205-1238 | the mailbox bits of a fast recalibration of given channels; all others are kept |
| `Recalibration.PollReaches` | kernel_driver/yami/gul_dcs.c:1862-1933 | at every poll the event word says exactly which recalibrations have been done |
| `Recalibration.HandshakeSafe` | kernel_driver/yami/gul_dcs.c:1842-1934 | with an honest modem each antenna is recalibrated at most once, antenna 1 only after antenna 0 passed, and the host stops early only when all passed |
| `Recalibration.HandshakeTrace` | kernel_driver/yami/gul_dcs.c:1842-1934 | the host's first word, and at every poll its next word, the mailbox with the channels asked for, and the recalibrations, from the modem's answer; with an honest modem each acknowledgement belongs to the host's own request |
| `Recalibration.SilentModem` | kernel_driver/yami/gul_dcs.c:1842-1934 | a modem that never answers gets nothing done, and the request stands to the last poll |
| `Recalibration.ObligingModem` | kernel_driver/yami/gul_dcs.c:1842-1934 | a modem that acknowledges every request gets both antennas done, and the host stops at the next poll |
| `Recalibration.PollFrom` | kernel_driver/yami/gul_dcs.c:1862-1933 | polling ends after at most 251 polls and early only on COMPLETED or COMPLETED2 |
| `Recalibration.Hsdcs.LowPowerConf` | kernel_driver/yami/gul_dcs.c:672-749 | registers and saved copies after the call |
| `Recalibration.Hsdcs.FullRecal` | kernel_driver/yami/gul_dcs.c:488-588 | both TBGEN2 registers end as they began on every exit path, and when it passes |
| `Recalibration.Hsdcs.FastRecal` | kernel_driver/yami/gul_dcs.c:1194-1252 | the same for the fast form |
| `Recalibration.Hsdcs.RaiseModemCalReq` | kernel_driver/yami/gul_dcs.c:1842-1934 | the loop follows that handshake, with that mailbox, and leaves both registers as they were |
| `FcpTemplate.WalkAccepts` | lib/usim_library/usim_apdu.c:652-739 | every non-empty encoded list whose reads stay inside the buffer is accepted |
| `FcpTemplate.WalkDecodes` | lib/usim_library/usim_apdu.c:652-740 | whatever is accepted is the encoding of a list |
| `FcpTemplate.AcceptedIffTemplate` | lib/usim_library/usim_apdu.c:631-741 | the parser returns 0 exactly when the tag is 62 and the body, continued by anything where it leaves the buffer, is a non-empty exact concatenation of objects |
| `FcpTemplate.AcceptedAlthoughCutOff` | lib/usim_library/usim_apdu.c:645-648 | a template of ten bytes of which two are there is accepted |
| `FcpTemplate.WalkFindsSize` | lib/usim_library/usim_apdu.c:687-706 | the file size, if asked for, is that of the last object 80 of length 1 or 2 |
| `FcpTemplate.WalkFindsRecord` | lib/usim_library/usim_apdu.c:656-672 | record length and count, if asked for, are the fifth to seventh bytes from the start of the last object 82, whatever its length |
| `FcpTemplate.StartIsLength` | lib/usim_library/usim_apdu.c:734-735 | where that object starts is the length of the encoding of those before it |
| `FcpTemplate.ObjectAt` | lib/usim_library/usim_apdu.c:734-735 | an encoded object is its tag, its length and its value, one after the other |
| `FcpTemplate.EncodedInBoundsIff` | lib/usim_library/usim_apdu.c:652-739 | for an encoded list inside the buffer all reads are inside exactly when no record is asked for, there is no object 82, or seven bytes from the last one are inside |
| `FcpTemplate.EncodedInBounds` | lib/usim_library/usim_apdu.c:652-739 | in particular if the last object 82 has five bytes |
| `FcpTemplate.AllInBoundsIff` | lib/usim_library/usim_apdu.c:631-739 | for a buffer size and a template length, all contents are read inside the buffer exactly when it reaches 7, 4 or 2 bytes (by what is asked for) past the last place an object can start |
| `FcpTemplate.ReadPastBuffer` | lib/usim_library/usim_apdu.c:661-664 | a template of one empty object 82, and one of 249 bytes in a buffer of 256, are read past the end |
| `FcpTemplate.RoundTrip` | lib/usim_library/usim_apdu.c:631-741 | parsing an encoded list gives the big-endian number in its last object 80 of one or two bytes and in the third and fourth bytes of its last object 82, and the fifth as the count, and reads nothing outside the buffer, whatever precedes it and follows it, if anything does |
| `FcpTemplate.ParseFcpTemplate` | lib/usim_library/usim_apdu.c:631-741 | the loop with its writes through possibly null pointers computes the same |

## Left out

- `VspaLoader.Loader.LoadSections`: the order of the image (sections in file order, header and name tables after them, padding no larger than what lies between the place of staging and a section) is assumed. The form of a section header is not part of this model: it is any function of the header's bytes.
- `VspaLoader.Loader.Transmit`: the DMA engine copies or times out; its registers and waits are not modelled.
- The overlay, PEBM and FECA copies of the loader, and the parsing of `.mw_info`: an ignored section changes nothing here and the section map is an input.
- `PciWindows.RunKeepsNesting`: an empty range at the boundary of another counts as clear of it.
- `ScratchLayout.Driver.SettleSizes`: the sums of sizes are not wrapped to an `int`, because the sizes are natural numbers here; `SumsFitInt` says when that makes no difference. The product is wrapped.
- `FcpTemplate.ParseFcpTemplate`: reads past the buffer have no value in the model, so it is stated for buffers whose reads stay inside; when they do is `EncodedInBoundsIff` and `AllInBoundsIff`. Bytes read only to print them when debugging is on are not modelled.
- `LogRing.EpLog.ShowLog`: the output buffer is taken to be large enough, which it is when `ShownInPageIff` says so.
- `Recalibration.Hsdcs.FullRecal`: recalibrations follow one another; two modems recalibrated at once share the saved registers and are not modelled. Delays, barriers, interrupts and counters are not modelled.
- `MsiPool.Pool.RegisterIrq`: of the eventfd lookup, the allocation and request_irq only the outcome is modelled, as a parameter.
- Constants of headers that are not part of this model (`MAX_PCI_USER_ALLOC_COUNT`, `GUL_USER_HUGE_PAGE_ADDR`, the number of MSI lines, the event codes) are parameters or constructors; only the first scratch id is fixed.
- Device nodes, sysfs, ioctl copying, device tree, PLL, thermal, watchdog, RFIC and TTI drivers, the rest of the APDU library and the user programs: plumbing around other services.
