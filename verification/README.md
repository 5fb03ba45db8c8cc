# Choosable: a verified model of its data cores

Choosable installs a boot loader on a USB disk. At boot it presents an ISO file as a
virtual CD-ROM whose blocks are edited on the fly, rewrites the distribution's boot
menu, and tells an early-init program where the ISO file lies. This project models the
parts of that chain that are pure data and proves what they promise. Every file is
Dafny; `dafny verify dfyconfig.toml` verifies all of them.

## What is modelled

**The virtual ISO overlay** (`IsoDirectory`, `IsoWalkers`, `Overlay`, `VirtualCdrom`,
`OverlayTree`, `VirtualVolume`, `VirtualTree`, `OverlaySearch`, `OverlaySteps`,
`IsoImage`, `IsoFiles`). ISO 9660 directories are bytes in 2048-byte sectors (ECMA-119
sections 6.8.1, 8.4 and 9.1), read by the two directory walkers of the loader. `VirtualBlockIo` is a class with the fields
of the block device (section 13.9 of the UEFI 2.10 specification); its `VblockRead`
loops over blocks and edits them in the caller's buffer. The main results are
`OverlaySteps.PatchedImage` and `OverlaySteps.PatchedImageReused`: for every
well-formed image and every path, reading through the overlay gives the rewritten text
at the config's record, the archive at its record, and the image's own bytes elsewhere;
`IsoImage.DiskFilesUnchanged` says so in terms of the bytes of the ISO file on the disk.

**The boot menu rewriter and the hand-off** (`GrubText`, `GrubPatcher`, `GrubWords`,
`GrubLines`, `BootArgs`, `InitCmdline`, `HandOff`, `ConfigHandOff`, `PartitionIdentity`). `GrubPatcher` is the in-place,
shifting, single-pass rewriter over an array; `GrubText` is its specification, line by
line, and the proof that the pre-computed buffer is always large enough. `BootArgs` is
the writer of the `choosable.*` arguments, `InitCmdline` the parser in the other
program, and `ConfigHandOff` says exactly when the second learns what the first wrote.
`GrubLines` tells from the words of a line what becomes of it, and `PartitionIdentity`
ties the PARTUUID to the bytes of the partition table.

**The directory scanners** (`DirWalk`, `ExfatDir`, `ExfatScan`, `ExfatAgree`, `ClusterHeap`,
`ExfatVolume`, `Fat32Names`, `Fat32Scan`). `DirWalk` is the recursive walk that both UEFI scanners make;
it lists the first 64 bootable files of a tree. The exFAT scan reads sector by sector with
a 608-byte carry (section 7.4 of the Microsoft exFAT specification for the entry sets);
its BIOS and UEFI copies are compared. The FAT32 scan follows cluster chains with the
long-name state machine (section 7 of the Microsoft FAT specification). The main results
are `ExfatVolume.WrittenTreeIsListed` and `Fat32Scan.WrittenTreeIsListed`: what the scans
list of a volume that was written to a disk, cluster by cluster and byte by byte.

**The disk layout engine** (`PartitionTables`, `Installer`, `BootReaders`,
`BootSearch`, `InstalledDisk`, `TableUpdate`, `AlongsideInstall`, `BootImage`,
`RawUpdate`, `BootChain`). A disk is an array of bytes; MBR and GPT (sections 5.2 and 5.3
of the UEFI 2.10 specification) are explicit little-endian encodings. One writer and
three readers are proved to agree, and `BootSearch` says what the loaders find in any GPT.
Installations, installations next to other partitions and the raw phase of an update keep
what they must. `BootImage` is the 440-byte boot sector code as the build assembles it, and `BootChain` says what the disk boots
after each of these operations.

**The archive writer and the partition slice** (`Cpio`, `DiskSlice`). A printer and an
independent reader of the newc format, and a file-within-a-disk that behaves as a file
of its own under any run of operations.

## What holds only under a condition

Where the code does not do what its comments or its neighbours suggest, the model
follows the code, and the exact condition is proved.

- An image that already has a root file PREMOUNT.CPIO shadows the injected archive;
  the archive is visible if and only if there is none (`VirtualTree.ArchiveVisibleIff`).
- The config search drops trailing dots of record names and the file protocol does not;
  they agree on all requests if and only if no name a request can match ends in a dot
  (`IsoWalkers.WalkersAgreeIff`).
- Locator arguments are removed wherever their pattern occurs. This is removal of whole
  words if and only if no word holds a pattern inside it (`GrubWords.StripsWholeWords`,
  `ConfigHandOff.GluedExample`).
- Boot kinds that do not strip leave stale `choosable.*` arguments behind the new ones,
  and the later ones win (`ConfigHandOff.LinuxHandOff`, `ConfigHandOff.StaleArgumentWins`).
- A CR directly behind the injected arguments sticks to the last of them, the size,
  which is then lost unless the rest of the line tells it (`ConfigHandOff.LinuxHandOff`,
  `ConfigHandOff.OptionsHandOff`); after stripping nothing does
  (`ConfigHandOff.StrippingHandOff`, `ConfigHandOff.CleanOptionsHandOff`).
- An initrd line that is shorter than the archive's path never gets the archive: a line of
  at least that length names it afterwards, a shorter one does not
  (`GrubLines.InitrdNamesArchive`).
- Arguments that do not fit the 512-byte buffer are dropped as a whole. Paths of up to
  194 bytes always fit; on Fedora with a GPT disk paths of more than 222 bytes never do
  (`ConfigHandOff.ShortPathsFit`, `ConfigHandOff.LongPathDropsAll`). With no arguments
  the rewriter compares a linux line with windows of length zero, which is a panic, so
  `GrubPatcher.PatchGrubCfgImpl` asks for arguments or for a text without linux lines.
- The comment on `linux_eol_extra` says its argument goes to the end of the line; the
  code puts it right behind the injected arguments, and so does the model.
- An exFAT set is lost when it does not fit the bytes carried plus one sector; this
  never happens with at most 19 secondary entries (`ExfatDir.ReadSetsAreSetsIff`,
  `ExfatDir.ReadSetsAreSets`).
- A FAT32 record without a long name is found under its 8.3 name if and only if no name
  from stray fragments is pending (`Fat32Names.DirectoryReadBack`,
  `Fat32Names.StrayFragmentMisnames`).
- With reserved space the installer's guards accept disks that are too small for the
  layout (`Installer.LayoutGoodIff`, `Installer.GuardsDoNotSuffice`).
- The start of the new partition is rounded up, so it can reach into its neighbour when
  partition 1 does not end on an 8-sector boundary (`TableUpdate.UpdateSoundIff`,
  `TableUpdate.UnalignedOverlaps`).
- On an MBR disk the start of the new partition is cut to 32 bits, so the table has the
  planned partition if and only if it starts below sector 2^32, which is 2 TiB
  (`TableUpdate.NewMbrExtentsIff`).
- The new partition goes to the first free slot, but the disk is recognised as installed
  if and only if that is the second entry (`AlongsideInstall.MbrAlongsideWorks`,
  `AlongsideInstall.GptAlongsideWorks`).
- An update saves the end of the gap only after it has written stage 2, so writing it back
  changes nothing: a stage 2 of more than 2039 sectors replaces what was there
  (`BootChain.MbrUpdateBoots`).
- The search for the instruction to patch in the boot code also covers the place of the
  disk GUID. In the program's own boot image it stops at byte 91, so an update keeps the
  GUID (`RawUpdate.OwnUpdateKeepsGuid`); only a hypothetical image whose first match
  reaches the GUID would damage it (`RawUpdate.GptUpdateGuidIff`,
  `RawUpdate.BlankImageLosesGuid`).
- A comment in the partition stage says the MBR GUID comes from byte 384; the code takes
  the disk signature at byte 440, and so does the model (`BootReaders.MbrPartUuid`).

## Model

| member | source | states |
|---|---|---|
| IsoDirectory.EditChain | bootloader/efi/src/virtual_blockio.rs:164-178 | Rewriting the inside of one directory record without touching its length replaces exactly that element of the sector's record list; the end of the records and every other record stay. |
| IsoDirectory.RetargetChain | bootloader/efi/src/virtual_blockio.rs:164-170 | Redirecting a record changes its extent and length in the record list, nothing else, and it can still be found at its place. |
| IsoDirectory.RenameChain | bootloader/efi/src/virtual_blockio.rs:172-178 | Renaming a record of at least 46 bytes changes its name to PREMOUNT.CPIO in the record list, nothing else. |
| IsoDirectory.InjectChain | bootloader/efi/src/iso.rs:429-478 | Writing the 47-byte blob at the end of the records turns the record list L into L plus the PREMOUNT.CPIO record, followed by an end mark; all old records stay on the chain. |
| IsoDirectory.DirMask | bootloader/efi/src/iso_fs.rs:180-182 | A record is a directory exactly if bit 1 of its flags is set. |
| IsoDirectory.RecordReadBack | bootloader/efi/src/iso_fs.rs:169-186 | A record written as ECMA-119 has it, by byte position, is read back with its extent, length, flags and name. |
| IsoDirectory.SectorReadBack | bootloader/efi/src/iso_fs.rs:169-186 | Records written one after the other are the record list of the sector. |
| IsoDirectory.PremountIsRecord | bootloader/efi/src/iso.rs:429-478 | The injected blob is such a record, extent and length in both byte orders. |
| IsoDirectory.RetargetedIsRecord | bootloader/efi/src/virtual_blockio.rs:164-170 | A redirected record is such a record with the new extent and length in both byte orders. |
| IsoWalkers.MatchIsoName | bootloader/efi/src/iso_fs.rs:139-162 | Names match exactly when they agree up to ASCII case after dropping a version suffix on the image side and cutting the UCS-2 side at its NUL and at 255 characters. |
| IsoWalkers.VersionIgnored | bootloader/efi/src/iso_fs.rs:139-162 | A record is matched with any version suffix behind its name and without one. |
| IsoWalkers.MatchInSector | bootloader/efi/src/iso_fs.rs:169-186 | The scan of one sector returns the first valid record of that name on the record chain, or none. |
| IsoWalkers.LookupInDir | bootloader/efi/src/iso_fs.rs:164-189 | The sector-by-sector loop returns the first match over the whole directory, and none after an unreadable sector. |
| IsoWalkers.LookupIsFirstNamed | bootloader/efi/src/iso_fs.rs:164-189 | Looking a name up is finding the first record of that name in the directory's record list. |
| IsoWalkers.EffectiveNameLen | bootloader/efi/src/iso.rs:117-126 | The computed length is that of the name without its version suffix and without all its trailing dots. |
| IsoWalkers.MatchInSectorWithLoc | bootloader/efi/src/iso.rs:157-183 | The config search's scan of one sector, with its looser record test and its cut at the directory length. |
| IsoWalkers.FindInDirWithLoc | bootloader/efi/src/iso.rs:142-188 | The config search returns the first match with the sector and byte offset where the record lies. |
| IsoWalkers.LookupAgrees | bootloader/efi/src/iso.rs:142-188 | On a well-formed directory where no name that can be asked for ends in a dot, the config search and the file-protocol lookup find the same record for every such name. |
| IsoWalkers.WalkersAgreeIff | bootloader/efi/src/iso.rs:117-188 | On a well-formed directory the two walkers find the same record for every UTF-16 request if and only if no record whose name a request can match has one that ends in a dot. |
| IsoWalkers.FindEodInDir | bootloader/efi/src/iso.rs:364-427 | The search returns the slot behind the last record of the last sector with the exact directory length walked so far, or none when fewer than 47 bytes are left. |
| IsoWalkers.ScanEndIsChainEnd | bootloader/efi/src/iso.rs:376-425 | In a well-formed sector the place where that search stops is the first byte after the last record. |
| IsoWalkers.FindFirstFileInDir | bootloader/efi/src/iso.rs:190-358 | The loop returns the first record that may be overwritten: a plain file with room for the new name and none of the protected names. |
| IsoWalkers.BootFilesNeverReplaced | bootloader/efi/src/iso.rs:214-319 | No boot loader, config, kernel, initial ramdisk or boot catalog under its usual name is ever overwritten, whatever case, version suffix or trailing dots. |
| VirtualCdrom.VirtualBlockIo.CreateVirtualCdrom | bootloader/efi/src/virtual_blockio.rs:334-425 | No device for an empty file; otherwise a device with no edits whose last block is the file size rounded up to blocks, minus one. |
| VirtualCdrom.VirtualBlockIo.PatchDirEntry | bootloader/efi/src/virtual_blockio.rs:164-170 | In place, the block in the buffer becomes the redirected sector and the rest of the buffer stays. |
| VirtualCdrom.VirtualBlockIo.RenameDirEntryToPremount | bootloader/efi/src/virtual_blockio.rs:172-178 | In place, the block in the buffer becomes the renamed sector, or stays when the record is too short. |
| VirtualCdrom.VirtualBlockIo.ReadRealIsoSector | bootloader/efi/src/virtual_blockio.rs:180-204 | Fills one block from the medium that IsoImage.ExtentIsFile ties to the ISO file's bytes, or fails and leaves the buffer. |
| VirtualCdrom.VirtualBlockIo.ServeMemorySector | bootloader/efi/src/virtual_blockio.rs:206-221 | Serves a block exactly when it lies within the memory file, with that file's bytes. |
| VirtualCdrom.VirtualBlockIo.PatchPvd | bootloader/efi/src/virtual_blockio.rs:301-322 | Block 16 gets the enlarged volume size and root directory length in both byte orders and the label, and nothing else changes in it. |
| VirtualCdrom.VirtualBlockIo.ServeBlock | bootloader/efi/src/virtual_blockio.rs:235-323 | One iteration writes the block that the overlay state serves, with all edits of its sector, or fails. |
| VirtualCdrom.VirtualBlockIo.VblockRead | bootloader/efi/src/virtual_blockio.rs:223-326 | A read fills the buffer block by block up to the first block that cannot be served; a buffer that is no multiple of 2048 is refused untouched. |
| VirtualCdrom.FilledIsBlocks | bootloader/efi/src/virtual_blockio.rs:235-326 | An n-block read equals n one-block reads put side by side, and what lies behind a failing block is untouched. |
| IsoImage.ExtentIsFile | bootloader/efi/src/virtual_blockio.rs:180-204 | An extent of the image is that stretch of the ISO file: blocks of 2048 bytes from the file's first sector on. |
| IsoImage.FreshRead | bootloader/efi/src/virtual_blockio.rs:223-326 | A read from a fresh device is the ISO file's own bytes from that block on, but for the label and the volume size. |
| IsoImage.DescriptorKnown | bootloader/efi/src/iso.rs:511-515 | An image is taken for one exactly if its descriptor has type 1 and identifier CD001. |
| IsoImage.RootOfDescriptor | bootloader/efi/src/iso_fs.rs:191-198 | The root directory is the one the record at byte 156 of the volume descriptor names. |
| IsoImage.ServedDescriptor | bootloader/efi/src/virtual_blockio.rs:301-322 | The served descriptor has the label CHOOSABLE, the volume size in both byte orders, and a root record that is one of ECMA-119 with the new length. |
| VirtualCdrom.VirtualBlockIo.PreparePremountIsoFile | bootloader/efi/src/iso.rs:487-585 | The step zero-fills the tail of the archive buffer, appends it, and injects a root record or, without room, redirects and renames the first replaceable one, whatever earlier calls left on the device; on bad input nothing changes. |
| VirtualCdrom.VirtualBlockIo.ApplyConfigPatch | bootloader/efi/src/iso.rs:787-807 | The step appends the zero-padded text behind the last block and redirects one directory record to it. |
| OverlayTree.RedirectSector | bootloader/efi/src/virtual_blockio.rs:241-289 | Redirecting a record by sector and offset redirects that record in the list and moves no other. |
| OverlayTree.SectorRecs | bootloader/efi/src/virtual_blockio.rs:242-289 | A served directory sector holds the original records with the edits applied, plus the injected one, also when both edits hit that sector. |
| VirtualVolume.ServedDirSector | bootloader/efi/src/virtual_blockio.rs:242-289 | Every sector of every directory is served from the image with its edits, never from a memory file. |
| VirtualVolume.TilesEveryBlock | bootloader/efi/src/virtual_blockio.rs:235-299 | Every block up to the last belongs to the image or to exactly one memory file, and no block behind the last to any. |
| VirtualVolume.ServedPlainBlock | bootloader/efi/src/virtual_blockio.rs:291-299 | Every other block of the image but the volume descriptor is served unchanged. |
| VirtualVolume.ListingView | bootloader/efi/src/virtual_blockio.rs:223-326 | The record list read from any directory through the overlay is the edited original list. |
| VirtualVolume.EditKeepsDirs | bootloader/efi/src/iso.rs:527-582 | No edit turns a directory into a file or back, or moves a directory. |
| VirtualVolume.ResolveView | bootloader/efi/src/iso_fs.rs:276-302 | Any path resolves through the overlay as over the edited record lists. |
| VirtualVolume.FileView | bootloader/efi/src/virtual_blockio.rs:223-326 | Every file of the edited tree reads as the archive, the rewritten config or its original bytes, whichever record it is. |
| VirtualTree.ServedPvd | bootloader/efi/src/virtual_blockio.rs:301-322 | The volume descriptor read through the overlay is valid, gives last block plus one as the volume size, and a root length of unchanged sector count that covers every record of the root, the injected one included. |
| VirtualTree.TreeView | bootloader/efi/src/virtual_blockio.rs:223-326 | Reading a path through the overlay, from its own volume descriptor on, is resolving it over the edited lists and reading what is expected there. |
| VirtualTree.ResolveInjected | bootloader/efi/src/iso.rs:527-555 | With a free slot, a path resolves to the edit of its original record, or, only where there was none, to the injected record under its name in the root. |
| VirtualTree.PatchedTree | bootloader/efi/src/iso.rs:527-555 | With a free slot, for every path: the rewritten text at the config's record, the archive at /PREMOUNT.CPIO if the image has no such file, the original bytes everywhere else. |
| VirtualTree.ArchiveVisibleIff | bootloader/efi/src/iso.rs:527-555 | The injected record is what /PREMOUNT.CPIO resolves to if and only if the image has no root record of that name. |
| VirtualTree.ReusedTree | bootloader/efi/src/iso.rs:558-582 | Without a free slot, for every path: the reused record reads as the archive, under the archive's name alone, and everything else as before or as the rewritten text. |
| VirtualTree.ReusedKeepsPaths | bootloader/efi/src/iso.rs:558-582 | A path that led to another record than the reused one, and does not name the archive, still leads to the same record. |
| VirtualTree.ReusedArchive | bootloader/efi/src/iso.rs:558-582 | Without a free slot /PREMOUNT.CPIO reads as exactly the archive's bytes whenever the image has no root record of that name. |
| OverlaySearch.DirsStayWellFormed | bootloader/efi/src/iso.rs:142-188 | Every directory read through the overlay is well-formed again, so that what holds of the walkers on an image holds on the device. |
| OverlaySearch.SearchView | bootloader/efi/src/iso.rs:142-188 | The config search over the overlay finds, for every directory and name, the edited record of the original, and in the root otherwise the injected archive under its name. |
| OverlaySteps.FreshIsTiled | bootloader/efi/src/virtual_blockio.rs:393-440 | A fresh device presents the image: blocks 0 to the last are the image's own and no edit is pending. |
| OverlaySteps.AfterPremount | bootloader/efi/src/iso.rs:503-585 | After the premount step, in every outcome, image and archive tile blocks 0 to the last without gap or overlap, the edits lie on real records, and the slot is injected exactly when 47 bytes are free behind the root's last record. |
| OverlaySteps.AfterConfig | bootloader/efi/src/iso.rs:787-807 | The config step on a record the search found keeps that invariant and adds exactly the text's sectors. |
| OverlaySteps.ConfigNeverReplaced | bootloader/efi/src/iso.rs:239-248 | A .CFG file is never the root file that the premount step overwrites. |
| OverlaySteps.PatchedImage | bootloader/efi/src/iso.rs:487-815 | The whole preparation of any well-formed image with room in its root: for every path the text at the config, the archive at /PREMOUNT.CPIO, the image's own bytes everywhere else. |
| IsoImage.DiskFilesUnchanged | bootloader/efi/src/iso.rs:487-815 | On the prepared device every file but the config and the archive reads as the bytes of the ISO file on the disk at its extent. |
| OverlaySteps.PatchedImageReused | bootloader/efi/src/iso.rs:558-815 | The same for any well-formed image without that room, where a replaceable root file gives its record to the archive. |
| OverlaySteps.ConfigIsNotVictim | bootloader/efi/src/iso.rs:239-248 | The record the search finds for a .CFG name is never the one the premount step overwrites. |
| OverlaySteps.PatchedCfgReused | bootloader/efi/src/iso.rs:558-815 | So for a .CFG file the whole preparation without room gives that tree on every well-formed image with a replaceable root file. |
| IsoFiles.ResolvePath | bootloader/efi/src/iso_fs.rs:276-302 | Resolving a backslash path, after its last device prefix and leading backslashes, finds what resolving its names one by one finds. |
| IsoFiles.PathOfNames | bootloader/efi/src/iso_fs.rs:276-302 | Names behind backslashes, after a device prefix or without one, are looked up one by one as they are, as long as no directory name ends in a closing parenthesis. |
| IsoFiles.WalkComponents | bootloader/efi/src/iso_fs.rs:290-300 | The component loop stops with nothing at a missing name or at a file that is not last. |
| IsoFiles.DeviceEnd | bootloader/efi/src/iso_fs.rs:279-284 | The scan finds the backslash of the last device prefix. |
| IsoFiles.ReadExtentData | bootloader/efi/src/iso_fs.rs:118-137 | The read loop copies the bytes of the run of blocks at that offset, clamped to the extent and the buffer, up to the first unreadable block. |
| IsoFiles.ReadRunIsSlice | bootloader/efi/src/iso_fs.rs:118-137 | Wherever a read starts and ends relative to block borders, it delivers the slice of the extent's bytes. |
| IsoFiles.ReadAtIsSlice | bootloader/efi/src/iso_fs.rs:118-137 | On a readable extent a read at any offset into any buffer delivers exactly the clamped slice of the file. |
| IsoFiles.VirtualFile.Read | bootloader/efi/src/iso_fs.rs:430-480 | A read delivers what the backing has at the position, up to the first unreadable block of an extent, and advances by that much; a directory refuses. |
| IsoFiles.VirtualFile.SetPosition | bootloader/efi/src/iso_fs.rs:602-610 | Seeking clamps to the length of the patched or synthetic text or of the extent, readable or not; a directory only rewinds. |
| IsoFiles.Run | bootloader/efi/src/iso_fs.rs:430-610 | Any run of seeks and reads on an open file delivers what its backing produces, which for a readable file is what a byte string of its contents gives. |
| IsoFiles.ProducedIsOutputs | bootloader/efi/src/iso_fs.rs:430-610 | On a file whose blocks can all be read, seeks and reads cannot tell it from a byte string with a clamped position. |
| IsoFiles.ReadsConcatenate | bootloader/efi/src/iso_fs.rs:430-480 | Consecutive reads of any sizes concatenate to one slice, and from position zero to the whole file once enough is asked for. |
| GrubText.LineWithinBudget | bootloader/efi/src/strategy.rs:246-350 | Rewriting a line, every intermediate shift included in the bound the pass relies on, adds at most what the pre-pass reserved for that line. |
| GrubText.ReserveCoversBudget | bootloader/efi/src/strategy.rs:194-214 | The pre-pass's counts (lines, and blscfg windows anywhere in the text) reserve at least the sum of the per-line bounds. |
| GrubText.PatchedWithinReserve | bootloader/efi/src/strategy.rs:194-227 | For every config the rewritten text is no longer than the original plus the reserve. |
| GrubText.StrippedEndsLine | bootloader/efi/src/strategy.rs:96-138 | Removing locator arguments never removes the line break. |
| GrubText.PatchedEndsLine | bootloader/efi/src/strategy.rs:236-350 | A complete line stays complete, so the backward search for the start of the next line stops at the right place. |
| GrubPatcher.CountMatchingLines | bootloader/efi/src/strategy.rs:49-68 | The cursor loop counts the linux and initrd lines of the text. |
| GrubPatcher.FindSecondArgEnd | bootloader/efi/src/strategy.rs:70-77 | The cursor ends behind the second word of the line. |
| GrubPatcher.ShiftAndInject | bootloader/efi/src/strategy.rs:79-86 | Shifting the suffix up last byte first and copying in the data inserts the data and loses nothing. |
| GrubPatcher.RemoveIsoLocatorArgs | bootloader/efi/src/strategy.rs:96-138 | The in-place compaction turns the line at the end of the buffer into its stripped form and leaves the text before it. |
| GrubPatcher.PatchLinux | bootloader/efi/src/strategy.rs:246-275 | A linux line becomes the (stripped) line with the injected and the distribution's own arguments behind its second word. |
| GrubPatcher.InjectBlsLine | bootloader/efi/src/strategy.rs:277-307 | The kernelopts line is put before the blscfg line, cut as the 1024-byte line buffer cuts it. |
| GrubPatcher.PatchOptions | bootloader/efi/src/strategy.rs:308-333 | An options line is stripped and gets the arguments before its line break, with one blank between. |
| GrubPatcher.PatchLineInPlace | bootloader/efi/src/strategy.rs:241-350 | The branches of the pass apply the per-line rewriting to the last line of the buffer and leave everything before it, within the reserved room. |
| GrubPatcher.LineStart | bootloader/efi/src/strategy.rs:235-240 | The backward scan finds the start of the current line. |
| GrubPatcher.RewriteLines | bootloader/efi/src/strategy.rs:229-352 | The single shifting pass refines the specification: prefix plus the concatenation of the rewritten lines, without ever leaving the buffer. |
| GrubPatcher.PatchGrubCfgImpl | bootloader/efi/src/strategy.rs:144-355 | The patcher's output is the prefix followed by every original line rewritten on its own. |
| GrubWords.StripsWholeWords | bootloader/efi/src/strategy.rs:96-138 | Stripping removes exactly the locator words of a line if and only if no word has a locator pattern inside it. |
| GrubWords.StripsLocatorWords | bootloader/efi/src/strategy.rs:96-138 | Without such words, the remaining words keep their order and text. |
| GrubWords.SecondArgWords | bootloader/efi/src/strategy.rs:70-77 | The injection point lies behind two whole words, behind one when there is no second word or a CR comes first. |
| GrubWords.LinuxStripped | bootloader/efi/src/strategy.rs:246-258 | Stripping a linux line keeps its command. |
| GrubWords.LinuxLineWords | bootloader/efi/src/strategy.rs:246-275 | A rewritten linux line has its command and kernel path first, the injected words directly after them, and its other words in order. |
| GrubWords.OptionsLineWords | bootloader/efi/src/strategy.rs:308-333 | A rewritten options line has its own words without locators first and the injected words last. |
| GrubLines.KindOfWord | bootloader/efi/src/strategy.rs:246-336 | A line whose first word a blank follows is a linux, initrd or options line exactly when that word is the command. |
| GrubLines.LinuxPatched | bootloader/efi/src/strategy.rs:246-275 | A linux line without the arguments gets them behind the kernel path, any other linux line stays, for every kind. |
| GrubLines.LinuxOnce | bootloader/efi/src/strategy.rs:246-275 | Rewriting a linux line twice is rewriting it once. |
| GrubLines.KindOfBlscfg | bootloader/efi/src/strategy.rs:277-280 | A line is a blscfg line exactly if it begins, behind its indent, with that word in small or in capital letters. |
| GrubLines.BlsLineFits | bootloader/efi/src/strategy.rs:281-303 | The line put before it fits the 1024-byte buffer and is cut only to fit; a quote and a line feed end it in any case. |
| GrubLines.BlscfgPatched | bootloader/efi/src/strategy.rs:277-307 | A blscfg line gets a line before it that sets kernelopts to its old value and the arguments, never cut. |
| GrubLines.OptionsPatched | bootloader/efi/src/strategy.rs:308-333 | An options line keeps its words without locators and gets the arguments last; a line of no kind stays. |
| GrubLines.InitrdPatched | bootloader/efi/src/strategy.rs:334-350 | An initrd line that does not name the archive gets it as its last word unless it is shorter than the path; any other initrd line stays. |
| GrubLines.InitrdNamesArchive | bootloader/efi/src/strategy.rs:334-350 | A rewritten initrd line names the archive if and only if it was at least as long as the archive's path. |
| GrubLines.InitrdOnce | bootloader/efi/src/strategy.rs:334-350 | Rewriting an initrd line twice is rewriting it once. |
| GrubLines.BreakKept | bootloader/efi/src/strategy.rs:343-347 | Appended text goes before the line break, LF or CR LF, which stays. |
| BootArgs.CopyAt | bootloader/efi/src/boot_kind.rs:250-255 | Copies what fits and nothing else. |
| BootArgs.WriteU64Decimal | bootloader/efi/src/boot_kind.rs:363-381 | Writes the decimal digits of any 64-bit number, cut at the end of the buffer. |
| BootArgs.GuidToPartUuidBytes | bootloader/efi/src/boot_kind.rs:259-295 | Writes the 36-character PARTUUID of a GPT partition, mixed-endian fields first, cut at the end of the buffer. |
| BootArgs.MbrGuidToPartUuidBytes | bootloader/efi/src/boot_kind.rs:301-312 | Writes the 11-character PARTUUID of an MBR partition from the disk signature and the number. |
| PartitionIdentity.GuidTextIsStandard | bootloader/efi/src/boot_kind.rs:259-295 | The text written is the standard form of the sixteen bytes on the disk, the first three fields byte-reversed. |
| PartitionIdentity.MbrTextIsSignature | bootloader/efi/src/boot_kind.rs:301-312 | For an MBR disk it is bytes 443 down to 440 and the number, in hexadecimal. |
| PartitionIdentity.GptIdentity | bootloader/efi/src/boot_stage.rs:101-171 | On every GPT disk that begins with a data partition the UEFI loader hands on that partition's own GUID in the standard form. |
| PartitionIdentity.MbrIdentity | bootloader/efi/src/boot_stage.rs:112-171 | On an installed MBR disk it is the signature the installer drew, and -01. |
| BootArgs.AppendChoosableParams | bootloader/efi/src/boot_kind.rs:316-360 | Appends the whole location, or returns the start position unchanged, exactly when room for a twenty-digit size is missing. |
| BootArgs.LinuxExtra | bootloader/efi/src/boot_kind.rs:83-170 | The arguments are complete or absent, never truncated, and absent exactly when the needed room exceeds the buffer. |
| BootArgs.DecBounds | bootloader/efi/src/boot_kind.rs:324-357 | The digit counts the code reserves (20 for 64 bits, 10 for 32) are enough for every value. |
| InitCmdline.ParseNumber | bootloader/premount-init/src/main.rs:91-125 | The digit loop computes the saturated decimal value, or zero if there is any other character. |
| InitCmdline.TextIsUtf8 | bootloader/premount-init/src/main.rs:117-119 | Every text, each character encoded as section 3 of RFC 3629 says, is accepted as the path value it is. |
| InitCmdline.Utf8IsText | bootloader/premount-init/src/main.rs:117-119 | Whatever is accepted as UTF-8 is the encoding of some list of characters, none of them a surrogate. |
| InitCmdline.GuidOfText | bootloader/premount-init/src/main.rs:101-108 | Of any text, a PARTUUID is kept if and only if all characters are ASCII letters, digits, dashes or the Kelvin sign, and the value kept is in lower case and equal to it up to case. |
| InitCmdline.GuidIsUtf8 | bootloader/premount-init/src/main.rs:101-108 | A PARTUUID value that is not UTF-8 is never kept. |
| InitCmdline.ApplyToken | bootloader/premount-init/src/main.rs:83-127 | One key=value token changes the parameter of its key if its value is acceptable, and nothing else. |
| InitCmdline.ParseCmdline | bootloader/premount-init/src/main.rs:75-131 | The index loop folds the tokens between blanks, tabs and line feeds, later ones over earlier ones. |
| HandOff.NumberIs | bootloader/premount-init/src/main.rs:91-125 | Saturating at every digit gives the exact decimal value cut once at the maximum, and zero for anything but digits. |
| HandOff.NumberTokens | bootloader/premount-init/src/main.rs:90-125 | Offset, number and size tokens in exact values: an offset counts from 1 to the largest only, the others from 1 on and are cut at their width; everything else changes nothing. |
| HandOff.DecReadBack | bootloader/premount-init/src/main.rs:91-125 | Every number within the limit that is printed in decimal is read back. |
| HandOff.ExpectedMeans | bootloader/efi/src/boot_kind.rs:316-350 | The offset told, added to the start of the partition, is the start of the ISO file; the path told lacks a leading slash only. |
| HandOff.GuidReadBack | bootloader/premount-init/src/main.rs:99-106 | Text of lower-case letters, digits and dashes is accepted and kept as it is. |
| HandOff.PartUuidChars | bootloader/efi/src/boot_kind.rs:259-312 | Both PARTUUID forms consist of such characters. |
| HandOff.HeadFold | bootloader/efi/src/boot_kind.rs:316-350 | Parsing the written arguments other than the size gives back PARTUUID, number, offset and path, whatever was known before. |
| HandOff.SizeToken | bootloader/premount-init/src/main.rs:120-127 | The size is read back, and is lost exactly when a CR sticks to it. |
| HandOff.LandedParse | bootloader/premount-init/src/main.rs:63-136 | The arguments placed in any text are read back, overridden only by later location arguments; with a CR directly behind them the size is what the text before them tells. |
| HandOff.LandedIff | bootloader/premount-init/src/main.rs:63-136 | So exactly the location is learnt if and only if no later argument contradicts it and, with a CR directly behind, the rest of the text tells the size. |
| ConfigHandOff.BuildInjection | bootloader/efi/src/strategy.rs:151-192 | The three buffers hold the arguments, the distribution's own ISO argument (only with a location) and the archive's path cut to 30 characters. |
| ConfigHandOff.KindIsTold | bootloader/efi/src/boot_kind.rs:83-170 | Each distribution's live system is told by its own words and no other one's; all but Windows PE start the early-init program. |
| ConfigHandOff.OwnArgument | bootloader/efi/src/strategy.rs:151-192 | Casper and Debian Live are told the ISO file's path in their own argument, others are not. |
| ConfigHandOff.PatchGrubCfg | bootloader/efi/src/strategy.rs:388-419 | For every config, kind and location the output is the prefix followed by every line rewritten with the arguments of that kind and location. |
| ConfigHandOff.ShortPathsFit | bootloader/efi/src/strategy.rs:397-405 | For every kind, a path of at most 194 bytes fits the 512-byte argument buffer. |
| ConfigHandOff.LongPathDropsAll | bootloader/efi/src/strategy.rs:401-403 | On Fedora and a GPT disk, a path of more than 222 bytes makes all the arguments disappear. |
| ConfigHandOff.LinuxHandOff | bootloader/efi/src/strategy.rs:246-275 | For every kind and every linux line, the early-init program learns exactly the location if and only if what follows the arguments does not contradict it and, with a CR directly behind them, the rest of the line tells the size. |
| ConfigHandOff.StrippingHandOff | bootloader/efi/src/strategy.rs:250-275 | For kinds that strip, it learns exactly the location whatever stale arguments the line held, if and only if no CR follows the injected arguments directly. |
| ConfigHandOff.OptionsHandOff | bootloader/efi/src/strategy.rs:308-333 | The same equivalence for every options line of every kind. |
| ConfigHandOff.CleanOptionsHandOff | bootloader/efi/src/strategy.rs:308-333 | On an options line without patterns inside words it is learnt if and only if no CR stands before the line break. |
| ConfigHandOff.ConfigLineHandOff | bootloader/efi/src/strategy.rs:246-333 | The same for the rewriter's line as a whole, linux or options. |
| ConfigHandOff.GluedExample | bootloader/efi/src/strategy.rs:96-138 | A line with a locator pattern inside a word, for which stripping is not word removal. |
| ConfigHandOff.StaleArgumentWins | bootloader/efi/src/strategy.rs:250-258 | On Alpine, for every location, a stale partition number after the kernel path is what the early-init program learns. |
| ExfatDir.ReadSector | bootloader/efi/src/fs.rs:143-179 | One sector with the carried bytes: what is found now plus what the rest yields is what the whole rest of the stream yields. |
| ExfatDir.ReadCluster | bootloader/efi/src/fs.rs:146-273 | The sectors of one cluster, stopping at the end mark or an unreadable sector. |
| ExfatDir.ReadDirSets | bootloader/efi/src/fs.rs:143-279 | Sector-at-a-time reading along the cluster chain finds what one pass over the concatenated stream finds that gives up sets beyond their window. |
| ExfatDir.FittingSetsAreRead | bootloader/efi/src/fs.rs:143-181 | If every set fits its window, the sets found are exactly the sets of the stream, wherever they straddle sectors or clusters. |
| ExfatDir.ReadSetsAreSets | bootloader/efi/src/fs.rs:143-181 | For every cluster chain whose sets have at most 19 secondary entries (the format allows 18) the scan finds exactly the sets of the stream. |
| ExfatDir.ReadSetsAreFitting | bootloader/efi/src/fs.rs:143-181 | In a directory of well-formed sets the scan finds exactly those that fit their window: a larger one is lost and the ones behind it are found. |
| ExfatDir.ReadSetsAreSetsIff | bootloader/efi/src/fs.rs:143-181 | Such a directory is read completely if and only if each of its files fits the window at its place in the sector. |
| ExfatScan.ReadEfiName | bootloader/efi/src/fs.rs:212-240 | The UEFI name loop over the name entries, with its fixed advance past a NUL. |
| ExfatScan.ReadBiosName | bootloader/kernel/src/fs.rs:180-202 | The BIOS name loop, which advances by what it copied. |
| ExfatScan.Utf16LeToAscii | bootloader/kernel/src/fs.rs:79-100 | Characters up to the first NUL, non-ASCII ones as question marks. |
| DirWalk.PathsDiffer | bootloader/efi/src/fs.rs:850-860 | Two files get the same path if and only if they have the same directory and name, while names have no slash and nothing is cut at 256 bytes. |
| DirWalk.LastSlash | bootloader/efi/src/fs.rs:850-860 | The name stands whole behind the last slash of the path, and the directory before it, with a single slash also under the root. |
| DirWalk.DepthGrows | bootloader/efi/src/fs.rs:850-860 | Each level adds exactly one slash to the path, but for the root and its own directories, which both have one; so the count of slashes stops the walk below level 12. |
| Bytes.UpperLetters | bootloader/efi/src/fs.rs:859-868 | Comparing in capitals takes each of the letters a to z for its capital and no other character. |
| DirWalk.PayloadByExtension | bootloader/efi/src/fs.rs:954-973 | A file is bootable and of a kind exactly by its extension, in either case; .vhd and .vhdx are told apart. |
| DirWalk.WalkIsFirst | bootloader/efi/src/fs.rs:128-280 | The recursive walk with its running count lists exactly the first 64 bootable files of the whole tree in record order, each under its full path, directories below level 12 left closed. |
| DirWalk.WalkUnder | bootloader/efi/src/fs.rs:128-280 | A walk keeps the files found before and every path it adds starts with its prefix. |
| ExfatScan.DirMask | bootloader/efi/src/fs.rs:195-195 | A set is a directory exactly if its attributes have the bit 0x10. |
| ExfatScan.EfiScanner.ScanExfatDir | bootloader/efi/src/fs.rs:128-280 | The recursive scan over the carry reader makes that walk over the directory tree of the volume. |
| ExfatScan.EfiScanner.VisitFileSet | bootloader/efi/src/fs.rs:242-268 | A set is descended into, listed or skipped. |
| ExfatScan.ScanExfatRoot | bootloader/kernel/src/fs.rs:109-230 | The BIOS scan appends the .iso files of the root directory to the caller's table until it is full. |
| ExfatAgree.NamesAgree | bootloader/efi/src/fs.rs:212-240 | The two programs read the same name from a set if and only if no NUL lies within it. |
| ExfatScan.TreeIsListed | bootloader/efi/src/fs.rs:128-280 | On a volume whose sets have at most 19 secondary entries the scan lists the first 64 bootable files of the tree that the bytes of its directories hold. |
| ClusterHeap.ClustersTile | bootloader/efi/src/fs.rs:150-151 | Cluster 2 is the first of the heap and each cluster begins where the one before ends. |
| ClusterHeap.AddressesDiffer | bootloader/efi/src/fs.rs:150-151 | Below 2^64 different sectors of clusters have different addresses. |
| ClusterHeap.FatEntryIs | bootloader/efi/src/fs.rs:88-107 | The reader finds the four bytes of a cluster's entry in the allocation table. |
| ClusterHeap.DirIsChain | bootloader/efi/src/fs.rs:143-279 | The directory read is the contents of the clusters of its chain, at their places on the disk. |
| ExfatVolume.SetReadBack | bootloader/efi/src/fs.rs:181-240 | A file set written as the exFAT specification has it, by byte position, is read back by both programs with name, kind, first cluster and length. |
| ExfatVolume.DirReadBack | bootloader/efi/src/fs.rs:143-181 | A directory written as file sets and other entries is read as exactly those sets. |
| ExfatVolume.WrittenTreeIsListed | bootloader/efi/src/fs.rs:128-280 | Scanning a disk that holds a written exFAT volume lists the first 64 bootable files of its tree with full paths, lengths and the sectors where their data begin. |
| ExfatVolume.ListedFileIsServed | bootloader/efi/src/fs.rs:253-262 | A file in one piece listed with that sector is what the virtual CD-ROM reads there, block by block. |
| ExfatAgree.BiosListsTheRoot | bootloader/kernel/src/fs.rs:109-230 | The BIOS list equals the UEFI list restricted to the root directory's .iso files, in the same order with the same addresses and sizes. |
| Fat32Names.Masks | bootloader/efi/src/fs.rs:338-390 | Sequence number, last-fragment flag and label flag are the bits the code masks out. |
| Fat32Names.LongNameReadBack | bootloader/efi/src/fs.rs:337-434 | A name of 1 to 255 ASCII characters written as reversed 13-character fragments is reassembled exactly, whatever the scanner remembers. |
| Fat32Names.ShortNameReadBack | bootloader/efi/src/fs.rs:404-433 | An 8.3 name padded with blanks is read back with a dot, or without one when it has no extension. |
| Fat32Names.FieldsReadBack | bootloader/efi/src/fs.rs:443-465 | Attributes, first cluster and length are read from their places in the record. |
| Fat32Names.ShortNameIff | bootloader/efi/src/fs.rs:396-434 | A record gets its own 8.3 name if and only if no collected name is pending, or by chance the same one. |
| Fat32Names.DirectoryReadBack | bootloader/efi/src/fs.rs:313-434 | In a whole directory of long-named records, records with an 8.3 name only and left-overs, every record is found under its own name if and only if no pending name stands before a record without a long one. |
| Fat32Names.DirectoryFound | bootloader/efi/src/fs.rs:313-434 | So dot entries, 8.3 names and long names are all found when no stray fragment lies right before a record without a long name. |
| Fat32Names.StrayFragmentMisnames | bootloader/efi/src/fs.rs:337-402 | A stray one-fragment name before such a record becomes its name. |
| Fat32Names.LongNameScanner.Fragment | bootloader/efi/src/fs.rs:337-389 | One fragment: a flagged one starts a name, others must follow in sequence with the same checksum. |
| Fat32Names.LongNameScanner.ScanEntry | bootloader/efi/src/fs.rs:323-436 | One directory entry updates the long-name state and yields a record exactly when it names a file or directory. |
| Fat32Scan.DirMask | bootloader/efi/src/fs.rs:435-435 | A record is a directory exactly if its attributes have the bit 0x10. |
| Fat32Scan.Fat32Scanner.ScanSector | bootloader/efi/src/fs.rs:323-490 | One sector: the files found so far and the rest of the directory lead to the same list as before. |
| Fat32Scan.Fat32Scanner.VisitRecord | bootloader/efi/src/fs.rs:435-488 | A record is entered, dot entries excepted, listed when bootable, or passed over. |
| Fat32Scan.Fat32Scanner.ScanFat32Dir | bootloader/efi/src/fs.rs:296-500 | The recursive scan along cluster chains makes the walk over the directory tree of the volume, wherever long names straddle sectors or clusters. |
| Fat32Scan.DirIsEntries | bootloader/efi/src/fs.rs:318-500 | The entries read are those of the clusters of the chain, at their places on the disk; the upper four bits of an allocation entry do not count. |
| Fat32Scan.WrittenTreeIsListed | bootloader/efi/src/fs.rs:296-500 | Scanning a disk that holds a written FAT32 volume lists the first 64 bootable files of its tree, with long and short names, full paths, lengths and the sectors where their data begin. |
| Cpio.NewcHeader | bootloader/efi/src/premount.rs:70-87 | Writes magic, thirteen hexadecimal fields, the name and zero padding, and returns that length. |
| Cpio.AppendEntry | bootloader/efi/src/premount.rs:89-100 | Appends the whole entry exactly when it fits. |
| Cpio.BuildArchive | bootloader/efi/src/premount.rs:103-130 | For any files the estimated buffer is enough and holds the entries in order and the trailer. |
| Cpio.BuildPremountCpio | bootloader/efi/src/premount.rs:103-130 | A reader of the newc format finds exactly the early-init program, executable, before the trailer. |
| Cpio.EntryReadBack | bootloader/efi/src/premount.rs:70-100 | Reading an entry gives back name, contents and mode and the place where the next entry starts. |
| Cpio.ArchiveReadBack | bootloader/efi/src/premount.rs:103-130 | Reading an archive built from any list of files gives back that list, whatever follows the archive. |
| Cpio.Aligned | bootloader/efi/src/premount.rs:65-100 | Every header and every file's contents start at a multiple of four. |
| Cpio.EstimateSuffices | bootloader/efi/src/premount.rs:65-68 | The size estimate is at least the length of the archive, for every list of files. |
| DiskSlice.PartitionSlice.constructor | src/disk.rs:250-258 | The slice starts as that range of the disk with the cursor at its start. |
| DiskSlice.PartitionSlice.Read | src/disk.rs:261-282 | A read does what a read of a file of the partition's own bytes does, wherever the disk file's position was. |
| DiskSlice.PartitionSlice.Write | src/disk.rs:284-310 | A write does the same and changes no byte outside the partition. |
| DiskSlice.PartitionSlice.Seek | src/disk.rs:312-331 | A seek does the same with the clamping that the absolute position implies. |
| DiskSlice.SeeksAgree | src/disk.rs:312-331 | The three ways to name a position lead to the same one, also behind the end. |
| DiskSlice.SeekBefore | src/disk.rs:312-331 | A position before the partition is its start, or a failure where it lies before the disk. |
| DiskSlice.EndOfFile | src/disk.rs:261-310 | From its end on a partition reads as nothing and writing fails; before it every read and write moves at least a byte. |
| DiskSlice.Run | src/disk.rs:242-332 | Any interleaving of seeks, short reads, short writes and foreign moves of the disk file gives the results of the same run on a file of its own, and changes nothing outside. |
| DiskSlice.WriteThenRead | src/disk.rs:261-331 | Writing, seeking back and reading returns what was written. |
| PartitionTables.MbrRoundTrip | src/disk_layout.rs:43-67 | Reading the 512 bytes of a written MBR gives it back. |
| PartitionTables.HeaderRoundTrip | src/disk_layout.rs:143-168 | Reading the sector of a written GPT header gives it back. |
| PartitionTables.EntryRoundTrip | src/disk_layout.rs:196-217 | Reading the 128 bytes of a written table entry gives it back. |
| PartitionTables.EntryParts | src/disk_layout.rs:196-217 | The fields of a written table entry lie where the UEFI specification has them. |
| PartitionTables.HeaderFields | src/disk_layout.rs:143-168 | So do the fields of a written header. |
| PartitionTables.MbrFields | src/disk_layout.rs:43-67 | So do flag, type, start and length of each entry of a written MBR. |
| PartitionTables.TableRoundTrip | src/disk_layout.rs:240-247 | Reading a written table entry by entry gives it back. |
| PartitionTables.WriteGpt | src/disk_layout.rs:295-337 | The five writes put boot sector, header, table, backup header and backup table in their places. |
| PartitionTables.ReadGptFromDisk | src/disk_layout.rs:228-254 | The reader returns the decoded structure, or fails without signatures or with a table beyond the end of the disk. |
| PartitionTables.GptReadBack | src/disk_layout.rs:228-337 | Writing and reading a GPT is the identity on boot sector, header and all 128 entries. |
| PartitionTables.CopiesAgree | src/installer.rs:42-73 | Both headers on the disk carry valid checksums, point at each other and describe identical tables, and the backup is the one the installer computes. |
| PartitionTables.CarriedCopiesAgree | src/disk_layout.rs:295-337 | The same wherever a finished GPT lies on a disk, after other bytes have changed. |
| Installer.LayoutGoodIff | src/installer.rs:903-912 | The computed layout is aligned, not empty and on the disk if and only if the disk has at least reserve*2048 + 67592 (MBR) or 67626 (GPT) sectors. |
| Installer.GuardsSuffice | src/installer.rs:745-765 | Without reserved space the installer's guards imply that. |
| Installer.GuardsDoNotSuffice | src/installer.rs:757-765 | With reserved space they do not: a disk they accept that leaves partition 1 empty. |
| Installer.ChsDecodes | src/installer.rs:488-527 | Below the limit of cylinder addressing the packed addresses decode to the first and last sector of the entry. |
| Installer.WriteMbr | src/installer.rs:896-968 | The disk becomes the boot sector, stage 2 in the gap and all its other bytes, without underflow under the guards. |
| Installer.WriteGptInstall | src/installer.rs:971-1036 | The same with the GPT and its backup. |
| Installer.PatchLba | src/installer.rs:1022-1028 | The search patches the operand behind the first needle only. |
| Installer.MbrInstalledReads | src/installer.rs:896-968 | An MBR installation reads back with its two entries, its signature and the disk signature. |
| Installer.MbrInstallDetected | src/disk.rs:175-239 | An MBR installation is recognised, at the place the installer reports. |
| PartitionIdentity.MbrInstallTable | src/installer.rs:914-945 | A fresh MBR table has an active data partition at sector 2048, the EFI system partition of 32 MiB behind it and no other, by byte position. |
| PartitionIdentity.NameOnDisk | src/constants.rs:87-96 | An entry with Choosable's name carries CZBLEFI in UTF-16 and zeros up to its end. |
| PartitionIdentity.TypeGuids | src/installer.rs:984-1005 | The two GPT partition types are the ones of the specifications. |
| Installer.GptInstalledReads | src/installer.rs:971-1036 | A GPT installation reads back as the GPT that was composed, boot sector edits notwithstanding. |
| Installer.GptInstallDetected | src/disk.rs:191-222 | A GPT installation is recognised, at the place the installer reports. |
| BootReaders.SearchEntries | bootloader/efi/src/disk.rs:147-169 | The entry loop with its cached sector finds the first entry that matches, skipping unused and straddling ones. |
| BootReaders.FindEntry | bootloader/efi/src/disk.rs:131-171 | The same from the header on: nothing without signature, entries or entry size. |
| BootReaders.ReadPartitions | bootloader/kernel/src/part.rs:14-92 | The BIOS reader returns the non-empty MBR entries in order, or the one basic-data entry of a GPT. |
| BootReaders.DiscoverPartition | bootloader/efi/src/boot_stage.rs:101-171 | The UEFI loop selects address, GUID, number and style of the data partition, or stops. |
| BootReaders.MbrInstallFound | bootloader/efi/src/boot_stage.rs:112-171 | On an MBR installation both loaders find partition 1 at sector 2048. |
| BootReaders.MbrPartUuid | bootloader/efi/src/disk.rs:179-191 | The PARTUUID handed on for an MBR disk is its disk signature in hexadecimal and the partition number. |
| BootReaders.FirstEntry | bootloader/efi/src/disk.rs:77-171 | A basic-data partition in the first entry is what every search for it returns. |
| BootReaders.GptInstallFound | bootloader/kernel/src/part.rs:24-70 | On such a GPT disk both loaders find that partition, with its own GUID. |
| BootSearch.SearchIsFirst | bootloader/efi/src/disk.rs:77-171 | In any table of 128-byte entries the search finds exactly the first one that answers, with its extent and its own GUID in the standard form, and nothing only if none does. |
| BootSearch.GptSearch | bootloader/efi/src/disk.rs:77-171 | The same for the whole disk: the first of the entries the GPT reads back with. |
| BootSearch.LoadersFindData | bootloader/efi/src/boot_stage.rs:112-171 | On every GPT disk with a plain protective MBR, wherever its first data partition stands in the table, both loaders take that one, and the UEFI loader learns its number and its own GUID. |
| BootSearch.LoadersFindNone | bootloader/efi/src/boot_stage.rs:112-171 | On such a disk without a data partition among the entries looked at both loaders find nothing. |
| InstalledDisk.MbrInstallWorks | src/installer.rs:896-968 | Every MBR installation on a large enough disk: aligned disjoint partitions, recognised by the installer, found by both loaders at sector 2048, and all data from there on untouched. |
| InstalledDisk.GptInstallWorks | src/installer.rs:971-1036 | Every GPT installation on a large enough disk: the same, with all data from sector 2048 to the backup table untouched and the second partition before that table. |
| BootChain.MbrInstallBoots | src/installer.rs:947-968 | A fresh MBR installation boots the image, holds the GUID and has all of stage 2, up to 2047 sectors, from sector 1 on. |
| BootChain.GptInstallBoots | src/installer.rs:1007-1036 | A fresh GPT installation boots the image set to read from sector 34, and has stage 2, up to 2014 sectors, from there on. |
| BootChain.FreshGptBoots | src/installer.rs:971-1036 | So does every GPT disk as the installer composes it. |
| BootChain.OwnImage | bootloader/build.rs:120-178 | The program's own image is one whose first searched instruction lies before the GUID. |
| TableUpdate.UpdateSoundIff | src/installer.rs:246-288 | The updated table is disjoint and on the disk if and only if partition 1's end, rounded up, leaves room before what follows. |
| TableUpdate.AlignedUpdateIsSound | src/installer.rs:246-288 | So it is whenever partition 1 ends on an 8-sector boundary, and every entry but the first and the new one is unchanged. |
| TableUpdate.ShrunkFilesystemFits | src/installer.rs:252-287 | The new partition 1 is at least as large as the file system it was shrunk to. |
| TableUpdate.UnalignedOverlaps | src/installer.rs:382-385 | A sound table with an unaligned partition 1 for which the new partition overlaps its neighbour. |
| TableUpdate.NewMbrExtentsIff | src/installer.rs:461-482 | The MBR written has the planned extents if and only if the new start fits 32 bits, and every entry but the first and the new one is the same. |
| TableUpdate.UpdateMbrTable | src/installer.rs:437-486 | The first free slot is used and only the boot sector is written, with the start cut to 32 bits; without a free slot nothing changes. |
| TableUpdate.FreeEntry | src/installer.rs:534-546 | The loop finds the first free entry behind the first. |
| TableUpdate.PlanIff | src/installer.rs:243-288 | Partition 1 keeps its size if and only if the new partition fits behind it, is refused exactly when it then is below 33 MiB, and the start is the first multiple of eight sectors. |
| TableUpdate.NewMbrFlags | src/installer.rs:458-481 | Partition 1 becomes the active data partition, the new one an inactive EFI partition. |
| TableUpdate.FindNextPartition | src/installer.rs:387-402 | The loop finds the lowest start among the other entries, or the end of the usable area. |
| TableUpdate.FindNextMbrPartition | src/installer.rs:403-415 | The same over the three other entries of an MBR, in bytes. |
| TableUpdate.NewEntriesExtents | src/installer.rs:548-555 | The GPT entries written have the planned extents, and every entry but the first and the new one is the same. |
| TableUpdate.UpdateGptTable | src/installer.rs:529-559 | The disk becomes the old one with the updated, checksummed GPT; without a free entry or a readable GPT nothing changes. |
| TableUpdate.SecondEntryDetected | src/disk.rs:191-222 | With the new entry in the second place the disk is recognised, at the planned start. |
| AlongsideInstall.WriteBootImages | src/installer.rs:1087-1133 | Boot code and stage 2 are written around the table of either style, and the sector number is patched into the first matching instruction. |
| AlongsideInstall.StampGuid | src/installer.rs:306-311 | The GUID goes to byte 384 and its last four bytes to byte 440, and nothing else changes. |
| AlongsideInstall.InstallAlongsideMbr | src/installer.rs:295-311 | Table, boot images and GUID in turn, or nothing without a free slot. |
| AlongsideInstall.InstallAlongsideGpt | src/installer.rs:295-311 | The same on a GPT disk. |
| AlongsideInstall.MbrAlongsideWorks | src/installer.rs:246-311 | Afterwards an MBR disk has a sound table in which only the first and the new entry differ, all data from sector 2048 on, the GUID, and is recognised at the new partition if and only if that is the second entry. |
| AlongsideInstall.GptAlongsideWorks | src/installer.rs:246-311 | Afterwards a GPT disk reads as the grown table, sound and with all other entries equal, both copies agree, all data up to the backup table is untouched, the GUID is in place, and it is recognised if and only if the second entry is the new one. |
| BootChain.MbrAlongsideBoots | src/installer.rs:1087-1133 | After an installation next to other partitions an MBR disk boots the image and has stage 2 from sector 1 on. |
| BootChain.GptAlongsideBoots | src/installer.rs:1087-1133 | A GPT disk boots the image set to read from sector 34 and has stage 2 from there on. |
| RawUpdate.UpdateMbr | src/installer.rs:1245-1319 | The in-place writes of the MBR branch, with GUID and end of the gap saved and written back. |
| RawUpdate.MbrUpdateKeeps | src/installer.rs:1245-1319 | They keep every byte from sector 2048 on, the disk GUID and signature, and the whole partition table but the two active flags. |
| RawUpdate.MbrUpdateFlags | src/installer.rs:1257-1262 | The two active flags are at most exchanged: exactly when the second partition alone has it, the first gets it. |
| RawUpdate.MbrUpdateDetected | src/disk.rs:224-238 | So the second partition is found where it was. |
| BootChain.MbrUpdateBoots | src/installer.rs:1245-1319 | An update of an MBR disk leaves the new image and all of the new stage 2; writing the end of the gap back undoes nothing. |
| RawUpdate.FixGptAttributes | src/installer.rs:608-660 | The attribute repair rewrites the GPT only when it needs to and puts the boot code back; a disk without a readable GPT is left alone. |
| RawUpdate.AttributesFixedReads | src/installer.rs:608-660 | Afterwards the same boot code, the repaired GPT and the same data are read. |
| RawUpdate.RepairIs | src/installer.rs:608-660 | Choosable's own second partition ends with the required attribute and a protective entry that is not empty; a disk of another name or without need is unchanged, and a second repair does nothing. |
| RawUpdate.UpdateGpt | src/installer.rs:1245-1319 | The in-place writes of the GPT branch: stage 2, repair, boot sector, end of the gap; when stage 2 leaves no readable GPT it stops there. |
| RawUpdate.GptUpdateKeepsData | src/installer.rs:1245-1319 | They keep every byte between the gap and the backup table. |
| RawUpdate.GptUpdateReads | src/installer.rs:1245-1319 | Afterwards the disk reads as the same GPT with the repair. |
| RawUpdate.GptUpdateDetected | src/disk.rs:191-222 | So the second partition is found where it was. |
| BootChain.GptUpdateBoots | src/installer.rs:1245-1319 | So does an update of a GPT disk, with the image set to read from sector 34. |
| RawUpdate.RepairKeepsGuid | src/installer.rs:608-660 | Stage 2 and the repair keep the 16-byte disk GUID. |
| BootImage.ImageNeedle | bootloader/build.rs:120-178 | In the assembled 440-byte boot image the first instruction of the searched form is the one at byte 91 that sets the sector to read from. |
| BootImage.GptImageReadsStage2 | src/installer.rs:1022-1028 | On a GPT disk exactly that operand is patched, to the sector where stage 2 is written, and the rest of the first 384 bytes and the GUID stand as they were. |
| RawUpdate.GptUpdateKeepsGuid | src/installer.rs:1276-1319 | With the searched instruction in the boot code before the GUID, every update of a GPT disk keeps the 16-byte GUID. |
| RawUpdate.OwnUpdateKeepsGuid | src/installer.rs:1276-1319 | So does every update with the program's own boot image. |
| RawUpdate.GptUpdateGuidIff | src/installer.rs:1276-1319 | For a boot image of any content the GUID is kept if and only if the first match ends before it or rewrites its bytes with what they are. |
| RawUpdate.BootGuidIff | src/installer.rs:1286-1308 | The same for the rewriting of the boot sector alone. |
| RawUpdate.BlankImageLosesGuid | src/installer.rs:1299-1308 | With a hypothetical boot image without the instruction, a GUID that starts with the searched bytes is overwritten. |

## Left out

- Finding the config: the choice of candidates and the recursive search for config files; the model starts from the record the search returns.
- The list of root files that must not be overwritten because the distribution is known: a parameter (`ignore`).
- Directory reading through the file protocol and the by-name shortcut for PREMOUNT.CPIO on opening a file: they list or serve the archive in every directory.
- Memory files (archive, rewritten text) are values held by the device, not shared buffers: writes to them by others after the step are not captured.
- Backing devices with another block size than 512 bytes, and wrap-around of 32-bit sums of ISO block numbers beyond 8 TiB: the read address is taken without wrap-around.
- Pool allocation and its failures, protocol installation, device paths, image loading and console output: foreign interfaces.
- VirtualCdrom.VirtualBlockIo.PreparePremountIsoFile: for an archive buffer of whole sectors, as the archive writer allocates it; with another one the code would clear bytes behind the buffer.
- ConfigHandOff.PatchGrubCfg: asks for nonempty arguments or no linux line, since the code panics otherwise, and for an empty or newline-terminated prefix of at most 256 bytes, as every caller passes.
- BootSearch.SearchIsFirst: for table entries of 128 bytes, which all writers use; for other sizes `BootReaders.SearchEntries` has the loop, which passes over entries that straddle two sectors.
- InitCmdline.ApplyToken: Unicode lower-casing of a PARTUUID value is modelled for ASCII and for the Kelvin sign, the one other character whose lower case is an ASCII letter; other characters are rejected as they are by the code.
- InitCmdline.ParseCmdline: parses the bytes it is given; opening and reading the kernel's command line is not modelled.
- ExfatDir.ReadDirSets: the carry loop that both exFAT scanners contain is modelled once, and sets are visited after the directory has been read; a visit only touches the file list.
- ExfatScan.EfiScanner.ScanExfatDir: asks for cluster chains that end and directories that form a tree; on a cycle the code may not stop.
- Fat32Scan.Fat32Scanner.ScanFat32Dir: asks for cluster chains that end and directories that form a tree, as the exFAT scan does; the BIOS program's FAT32 listing, which reads 8.3 names of the root only, is left out, and as in the code the checksum of fragments is compared among them but not with the short name.
- The NTFS scanners: their fix-up and index offsets do not follow the on-disk format.
- Cpio.ArchiveReadBack: for files not called TRAILER!!!, which ends an archive.
- Cpio.EntryReadBack: for names without NUL and for names and contents whose lengths fit the 32-bit fields; the code truncates longer ones.
- DiskSlice.PartitionSlice.Seek: asks that the absolute position of a seek from the start fits 64 bits, where the code's addition overflows otherwise.
- CRC32 is an uninterpreted function of bytes; GUIDs drawn at random are parameters.
- Installer.MbrInstallDetected: recognition by layout alone; reading the version file from the second partition is left out, as in the other recognition results.
- TableUpdate.UpdateMbrTable: sums that overflow 32 or 64 bits wrap, as in a release build.
- TableUpdate.UpdateGptTable: asks for a GPT whose header fits its sector and whose areas fit the disk without overlap; elsewhere the code writes beyond the disk or over its own table.
- RawUpdate.FixGptAttributes: asks for the same.
- RawUpdate.UpdateGpt: asks for the same of the GPT read after stage 2 has been written.
- AlongsideInstall.GptAlongsideWorks: for a GPT in its usual place (table at sector 2, 128-byte entries, 92-byte header), as installers write it; formatting the new partition, for which the code takes partition number 2, is not modelled.
- TableUpdate.FindNextMbrPartition: for disks of whole sectors.
- Formatting, mounts, partition probing, udev, loop devices, Secure Boot renames, chain loading, ATA, menus, the command line and the graphical interface: input and output, or only easy claims.
