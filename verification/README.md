# Verified model of the SuperFX3 firmware

This project models the host-testable logic of the SuperFX3 cartridge firmware and of its Python tools,
and proves that each subsystem agrees with something much simpler.
`dafny verify dfyconfig.toml` checks all of it.

* **In-place ROM installer** (`RomLayout`, `RomDescriptor`, `ParallelRom`, `RomStaging`, `BusImage`,
  `SweepOrder`, `LoRomSweep`, `RomInstaller`, `ChipImage`). An upload is staged in the NOR flash that it must
  be remapped into. The one-sector write-back buffer, the erased-sector bits and the spill area read as one
  flat byte array; swapping pages undoes any FAT chain; sliding out a copier header is a move through a
  copy; for every map and size it is decided whether the sweep order destroys a source page that is still
  needed. The exact condition of success on working flash is proved, and the finished device, with its descriptor,
  is byte for byte what the offline packer builds.
* **USB volume** (`UsbVolume`, `UsbInstall`, `UsbCopy`). The host writes blocks in any order; the eject succeeds exactly
  when one ROM is listed and all of it has arrived, and what is then installed is the file that the FAT
  chain spells out of the last block written to each place. `UsbCopy` is the host: it reads the boot sector, copies a
  file into free clusters as FAT has it, and finds the file on the programmed device.
* **Power-safe save journal** (`Crc32`, `SlotRing`, `SaveJournal`). Four slots, a cut possible after every
  sector erase and every byte. After any run from an erased journal a restore yields the last committed
  snapshot, across the wrap of the 32-bit sequence numbers; what counts as a record is stated in literal bytes.
* **Video** (`TileFrame`, `MovieFile`, `PackBits`, `FrameDecoder`, `Movie`, `VideoStream`, `VideoRun`). The resumable decoder agrees with the batch one
  for every way of splitting the input; the pages shown to the host are frames 0, 1, 2, ... of the bytes read,
  each under its own header and checksum, and a movie is given up only when nothing that could follow would
  make it a good one, or for want of a byte. `VideoRun` plays a whole file: it always ends, and a good movie
  with every picture shown once and in order. `TileFrame` and `MovieFile` are the tool that writes the files: what the
  console draws from a frame is the picture it was made of, so `MovieFile.Film` goes from pictures to the screen.
* **Audio** (`AudioTable`, `AudioFifo`, `AudioPages`, `AudioStream`). Core 1 builds HDMA tables while the host
  claims them at arbitrary moments; the bytes claimed are a prefix of the source in whole blocks, and all
  of it when the end is reported; the page on show holds the table claimed last, whenever it was claimed.
* **Two cores** (`FxSync`, `QspiBus`). Command ring and ownership of the coprocessor state, and the
  handshake that parks core 0 during an SD transfer, over every interleaving of atomic steps.
* **SD card files** (`SdFile`). Exact consecutive bytes along a FAT chain through retries, with Brent's
  cycle detection; every failure has a true reason, a healthy chain delivers all that is due, and a file that
  runs around a cyclic chain is closed.
* **Coprocessor memory and graphics** (`FxMemory`, `FxRom`, `FxScreen`, `FxGraphics`). Delayed stores and fetches look
  immediate; two pixel caches over bit-planar RAM look like a flat map of pixels; the coprocessor and the SNES see
  the same ROM after an installation.

`Bytes`, `LittleEndian` and `Arithmetic` hold what the modules share.

Conventions. Addresses and counters are natural numbers; the widths that matter (sequence numbers modulo
2^32 and 256, the 32-bit checksum, ring indices) are written out. Bit vectors are used for the checksum
and for bit planes only. Failing hardware is a plan: `Device.failAt` names the flash operation from which on
nothing succeeds, or none on working flash, and `Journal.budget` counts the operations that still succeed; every
proof holds for all of them. Interleaving is a script of host
actions (`Pages.script`) or a state machine over atomic steps; C++ memory orderings and critical sections
are atomic steps. Card transfers, source reads, clocks and host actions are parameters.

## What the proofs showed

* A LoRom larger than half its chip passes the content check when the bus addresses that share a NOR byte
  agree, for instance when it is as large as the chip and its halves are equal
  (`LoRomSweep.EqualHalvesConsistent`). On a chip of 1, 2 or 4 MiB the downward sweep can install it exactly
  when it fills at most three quarters of the chip (`LoRomSweep.LoRomExact`): above that the lowest sector
  needs a page that is already overwritten and was not emitted anywhere. `RomInstaller.Installer.Install`
  fails for these images and, on working flash, for no other LoRom that passes the check.
* A video frame whose final repeat chunk crosses the 4096-byte work limit is left pending with all its
  stored bytes consumed (`FrameDecoder.RunPastWorkLimit`). If it is the last frame of the file, the next
  service reads the end of the file and reports a read failure. The exact condition: a service that has the
  rest of an acceptable frame before it completes it exactly when it owes at most the work limit
  (`FrameDecoder.LastService`), and a good movie ends cleanly exactly when something follows its last frame or
  the last service with stored bytes to come owed no more than that (`VideoRun.Watch`).
* On an 8 MiB chip no ExLoRom can be swept in place, and an ExHiRom only if it ends below $7E0000
  (`SweepOrder.ExLoRomNever`, `SweepOrder.ExHiRomExact`): on working flash an installation with such a map
  fails there even when all bus addresses agree.
* The movie tool accepts any frame rate up to the refresh rate it is given. Up to a thousand frames a second every
  frame lasts at least a millisecond (`MovieFile.SlowEnough`); beyond that a movie that is long enough has a frame
  that starts and ends in the same millisecond (`MovieFile.TooFast`), and the stream rejects the whole file. The
  exact condition for a playable file is that every frame lasts (`MovieFile.MakeMovie`).
* RPIX reads its first plane before any time passes, so with empty caches a store still on its way is
  missed by that plane alone (`FxGraphics.Graphics.ReadPixel` states for every state when the result is right).
* The signed modular order of journal records is an order only while records stay close together;
  `SlotRing.HalfTurnConfuses` is a ring where it is not, `SaveJournal.CutExact` says for any flash contents exactly
  when an append is found, and `SlotRing.RollsLeads` shows that every reachable ring stays within three steps.

## Model

| member | source | states |
|---|---|---|
| RomLayout.MirrorByShift | src/storage/snes_rom_layout.cpp:76-86 | the loop from bit 31 and the two recursive calls terminate and compute the mirroring rule |
| RomLayout.MirrorOffset | src/storage/snes_rom_layout.cpp:76-86 | mirroring never leaves the image and never increases the offset |
| RomLayout.MirrorPeriod | src/storage/snes_rom_layout.cpp:76-86 | an image no longer than a power of two repeats with that period, at any multiple |
| RomLayout.MirrorPages | src/storage/snes_rom_layout.cpp:76-86 | on an image of whole pages the rule acts on page numbers and keeps the offset in the page |
| RomLayout.MirrorWithinPage | src/storage/snes_rom_layout.cpp:76-86 | offsets inside one page move together |
| RomLayout.SourcePage | src/storage/snes_rom_layout.cpp:199-233 | within one page of bus addresses the source offset counts up and stays inside the image, for every map |
| RomLayout.MapVectors | src/storage/snes_rom_layout.cpp:199-233 | known addresses of the five maps: what each shows of a 4 MiB or 8 MiB image, and what it does not map |
| Bytes.AndDigit | src/storage/parallel_rom_programmer.cpp:130-145 | programming a cell leaves in every binary digit the lesser of what was there and what is written |
| RomDescriptor.ComputeRamSizeCode | src/storage/snes_rom_layout.cpp:67-74 | the code covers the SRAM unless it is 7, every smaller code covers less, and it is 0 exactly for none |
| RomDescriptor.DescriptorRoundTrip | src/storage/snes_rom_layout.cpp:235-291 | reading back a written descriptor gives the map, size, RAM size and cartridge type |
| RomDescriptor.DescriptorBytes | src/storage/snes_rom_layout.cpp:235-246 | the first twelve bytes of a descriptor one by one: the characters S3MP, 0 for LoRom to 5 for FX3, the SRAM code, the cartridge type, $80, and the size in base 256 |
| RomDescriptor.DamagedWordRejected | src/storage/snes_rom_layout.cpp:248-278 | a descriptor damaged in any one of its four words is rejected |
| ParallelRom.Device.EraseSector | src/storage/parallel_rom_programmer.cpp:114-128 | one sector becomes $FF, every other cell is unchanged, and only a dead device fails |
| ParallelRom.Device.ProgramByte | src/storage/parallel_rom_programmer.cpp:130-145 | a cell takes the bits of the byte that are clear, as NOR flash does, and fails only on a dead device; every other cell is unchanged |
| ParallelRom.Device.Verify | src/storage/parallel_rom_programmer.cpp:147-158 | true exactly when the cells equal the data |
| ParallelRom.Device.WriteSector | src/storage/snes_rom_installer.cpp:91-113 | erase, program what is not $FF and verify leaves exactly the buffer in the sector and nothing else changed |
| RomStaging.StagingArea.Begin | src/storage/snes_rom_installer.cpp:56-82 | a new upload sees an area of $FF whatever the flash holds |
| RomStaging.StagingArea.Flush | src/storage/snes_rom_installer.cpp:84-116 | writing the buffered sector back changes no byte a reader sees |
| RomStaging.StagingArea.LoadStagingSector | src/storage/snes_rom_installer.cpp:118-133 | changing the buffered sector changes no byte a reader sees |
| RomStaging.StagingArea.StageByte | src/storage/snes_rom_installer.cpp:145-167 | one staged byte updates the flat view at its address only, in flash or in the spill area |
| RomStaging.StagingArea.Stage | src/storage/snes_rom_installer.cpp:135-143 | on working flash a block is taken exactly while the upload is receiving and the block lies in the staging area; a block taken overlays the flat view |
| RomStaging.StagingArea.WriteStaged | src/storage/snes_rom_installer.cpp:145-167 | staging a block overlays the flat view at its offset and nowhere else; out-of-range blocks are refused |
| RomStaging.StagingArea.Finish | src/storage/snes_rom_installer.cpp:211-236 | on working flash a page list is accepted exactly when the state, size, count, range and distinctness rules hold |
| RomStaging.RedirectKeeps | src/storage/snes_rom_installer.cpp:253-258 | after a swap the references still to be served stay distinct and never fall below the next destination |
| RomStaging.PlaceNext | src/storage/snes_rom_installer.cpp:242-259 | one destination more holds the page originally named for it, and the later references still lead to theirs |
| RomStaging.StagingArea.SwapPages | src/storage/snes_rom_installer.cpp:246-252 | two staged pages change places and nothing else moves |
| RomStaging.StagingArea.MaterializeUpload | src/storage/snes_rom_installer.cpp:238-262 | file page i ends up holding the bytes originally staged in pages[i], for every accepted list |
| RomStaging.SlideNext | src/storage/snes_rom_installer.cpp:280-308 | one sector of the slide advances the partly moved image without touching unread source bytes |
| RomStaging.StagingArea.CopyToTemp | src/storage/snes_rom_installer.cpp:270-311 | the in-place sector-wise copy equals a move through a separate copy of the image |
| UsbVolume.WrittenHolds | src/storage/usb_rom_volume.cpp:230-259 | one block sets its own place and no other; the two FAT copies are one place |
| UsbVolume.RunHolds | src/storage/usb_rom_volume.cpp:230-259 | after any run of writes every place holds the last block written to it, and exactly the data blocks written count as received |
| UsbVolume.OrderDoesNotMatter | src/storage/usb_rom_volume.cpp:230-259 | two runs that end with the same block in every place leave the same volume, whatever their order |
| UsbVolume.Volume.WriteBlock | src/storage/usb_rom_volume.cpp:230-259 | on working flash a block is refused exactly after the eject or outside the volume; otherwise the volume and the staged bytes become what the write says |
| UsbVolume.Volume.Upload | src/storage/usb_rom_volume.cpp:247-258 | the first data block begins the upload; a staged block counts as received |
| UsbVolume.Volume.FindEntry | src/storage/usb_rom_volume.cpp:117-138 | the listed ROM entry when there is exactly one, nothing when there is none or more than one |
| UsbVolume.Volume.WalkChain | src/storage/usb_rom_volume.cpp:139-163 | succeeds exactly for a chain in range, without repetition, received as far as the file reaches and properly ended, and lists its pages |
| UsbVolume.Volume.Eject | src/storage/usb_rom_volume.cpp:114-169 | on working flash succeeds exactly when one ROM is listed and all of it has arrived; then the staging area holds what the host wrote and all the installer relies on |
| UsbVolume.Volume.constructor | src/storage/usb_rom_volume.cpp:49-82 | a mount leaves the tables of an empty drive, a label and a readme, and no upload |
| UsbCopy.EntryDigits | src/storage/usb_rom_volume.cpp:100-108 | a FAT entry is the number that its three or four half bytes spell |
| UsbCopy.SetDigits | src/storage/usb_rom_volume.cpp:84-98 | setting an entry sets these half bytes and no others |
| UsbCopy.SetThenGet | src/storage/usb_rom_volume.cpp:84-108 | what is set is read back, cut to the width of an entry, and every other entry reads as before |
| UsbCopy.FollowLinked | src/storage/usb_rom_volume.cpp:139-163 | a chain stored entry by entry is followed cluster by cluster to its end |
| UsbCopy.HostLayout | src/storage/usb_rom_volume.cpp:171-197 | a host that goes by the boot sector finds tables, directory and data where the drive keeps them, and takes the entries to be as wide |
| UsbCopy.CopyIsPossible | src/storage/usb_rom_volume.cpp:230-259 | any file that there is room for can be copied so: by a host that writes every block once, one after the other |
| UsbInstall.FileFromBlocks | src/storage/usb_rom_volume.cpp:139-163 | every byte of the ejected file lies in a block the host has written, the one its FAT chain names |
| UsbInstall.Transfer | src/usb/usb_rom_loader.cpp:42-51 | a run of accepted blocks leaves the volume the run describes |
| UsbInstall.InstallEjected | src/usb/usb_rom_loader.cpp:85-93 | on working flash succeeds exactly when a raw file fills the chip, or a detected ROM has agreeing bus addresses, a safe order and, for FX3, an FX ROM; then the device shows exactly the file the host wrote |
| UsbCopy.CopyArrives | src/storage/usb_rom_volume.cpp:114-169 | however a host copies a file, into any free clusters and with its blocks in any order, the drive finds one ROM with its chain complete, and takes it exactly when it is not too large |
| UsbCopy.CopyIsTheFile | src/storage/usb_rom_volume.cpp:139-163 | and the bytes it finds are the file |
| UsbCopy.CopyAndInstall | src/usb/usb_rom_loader.cpp:42-93 | from a file on the host to the programmed device: on working flash it succeeds exactly for a whole image of the chip, or a ROM whose map the chip can show; then the device holds the file |
| BusImage.PhysicalStep | src/storage/snes_rom_installer.cpp:357-378 | stepping a bus address by the capacity reaches the next alias of the same NOR address |
| BusImage.PhysicalPage | src/storage/snes_rom_installer.cpp:357-378 | a page of bus addresses lies in one NOR page |
| BusImage.AliasByteIs | src/storage/snes_rom_installer.cpp:357-378 | when a bus address is mapped, its NOR byte is the byte it shows, provided aliases agree |
| BusImage.InstallableConsistent | src/storage/snes_rom_installer.cpp:334-355 | for every map, and LoRom up to half the chip, no two bus addresses that share a NOR byte want different values, whatever the content |
| LoRomSweep.DownwardExact | src/storage/snes_rom_installer.cpp:405-414 | a downward sweep over the whole device is safe exactly when every page shown has a home in its own sector or a later one |
| LoRomSweep.LoRomExact | src/storage/snes_rom_installer.cpp:469-471 | the downward LoRom sweep never needs a page that is gone exactly when the chip has 8 MiB or more or the image fills at most three quarters of it |
| LoRomSweep.SweepableExact | src/storage/snes_rom_installer.cpp:468-494 | for every map and size the header detection can come to, on every chip that can hold the ROM, every range of the order is safe exactly when: LoRom fills at most three quarters of a chip below 8 MiB, ExLoRom has 16 MiB, ExHiRom has 16 MiB or ends below $7E0000; HiRom and FX3 always |
| LoRomSweep.LastQuarter | src/storage/snes_rom_layout.cpp:76-86 | the part of such an image above half the chip is shown once more by the last quarter of the linear range |
| LoRomSweep.TightHome | src/storage/snes_rom_layout.cpp:76-86 | in a larger image the middle page is shown only in the lowest sector |
| SweepOrder.InPlaceOrder | src/storage/snes_rom_installer.cpp:485-493 | on chips up to 4 MiB the linear window is the chip: HiRom and FX3 pages are emitted where they lie, in any order of the sectors |
| SweepOrder.AfterWindow | src/storage/snes_rom_installer.cpp:472-479 | once the linear window has been written, no later sector of HiRom or FX3 can miss its source |
| SweepOrder.ExLoRomOrder | src/storage/snes_rom_installer.cpp:480-484 | the ExLoRom order over 4 and up to 8 MiB on 16 MiB is safe |
| SweepOrder.ExHiRomOrder | src/storage/snes_rom_installer.cpp:480-484 | the ExHiRom order over 4 and up to 8 MiB on 16 MiB is safe |
| SweepOrder.ExLoRomNever | src/storage/snes_rom_installer.cpp:480-484 | on 8 MiB the second half of the ExLoRom sweep always misses a page: the one at 128 KiB is shown only in the sector after its own |
| SweepOrder.ExHiRomExact | src/storage/snes_rom_installer.cpp:480-484 | on 8 MiB the ExHiRom order is safe exactly for images that end below the banks of the WRAM |
| SweepOrder.Fx3UpperOrder | src/storage/snes_rom_installer.cpp:485-490 | the FX3 order is safe for a source at 4 MiB on an 8 MiB chip |
| LoRomSweep.EqualHalvesConsistent | src/storage/snes_rom_installer.cpp:334-355 | the content check alone does not keep such images out: a LoRom as large as its chip with equal halves passes it |
| RomInstaller.Installer.MappingFits | src/storage/snes_rom_installer.cpp:334-355 | accepts exactly when bus addresses that share a NOR byte agree on it |
| RomInstaller.Installer.ReadInstallSource | src/storage/snes_rom_installer.cpp:313-332 | returns the original source byte, and fails exactly when the byte is overwritten and was not emitted anywhere |
| RomInstaller.HomeHolds | src/storage/snes_rom_installer.cpp:321-331 | a recorded representative page still holds the source page it stands for |
| RomInstaller.Installer.MergeAliases | src/storage/snes_rom_installer.cpp:358-378 | succeeds exactly when every alias of the NOR address can be read, and then gives the byte of the image |
| RomInstaller.Installer.BuildSector | src/storage/snes_rom_installer.cpp:357-379 | succeeds exactly when everything the sector shows can still be read, and then holds the image sector |
| RomInstaller.Installer.RecordHomes | src/storage/snes_rom_installer.cpp:380-401 | after a sector is written every page it shows has a sound representative |
| RomInstaller.Installer.ProgramSector | src/storage/snes_rom_installer.cpp:357-403 | on working flash a sector becomes final, with the source still readable, exactly when everything it shows can be read |
| RomInstaller.RangeSteps | src/storage/snes_rom_installer.cpp:405-414 | a range is safe exactly when each step of the sweep, up or down, finds its sector readable |
| RomInstaller.Installer.ProgramRange | src/storage/snes_rom_installer.cpp:405-414 | on working flash a range is swept to the end exactly when its order is safe |
| RomInstaller.Installer.SweepMap | src/storage/snes_rom_installer.cpp:468-494 | for every map, size and capacity: on working flash the whole device is swept exactly when every range of the order finds its sectors readable |
| RomInstaller.Installer.BuildRepresentatives | src/storage/snes_rom_installer.cpp:416-428 | after the sweep every page is looked up afresh, soundly |
| RomInstaller.Installer.ProgramFxWindow | src/storage/snes_rom_installer.cpp:450-466 | the FX window is filled with the mirrored source before the sweep starts |
| RomInstaller.Installer.ProgramDescriptor | src/storage/snes_rom_installer.cpp:498-508 | the descriptor is written with its magic word last and nothing else changes |
| RomInstaller.Installer.StripHeader | src/storage/snes_rom_installer.cpp:433-449 | sliding the image over its copier header keeps the canonical image |
| RomInstaller.Undisturbed | src/storage/snes_rom_installer.cpp:334-355 | for the served maps and sizes neither the content check nor the order of the sweep can fail, with LoRom up to half the chip |
| RomInstaller.SpreadsExact | src/storage/snes_rom_installer.cpp:334-494 | for every ROM the detection can come to, the two conditions of an installation are that its bus addresses agree and that its size suits the sweep of its map |
| RomInstaller.Installer.Install | src/storage/snes_rom_installer.cpp:430-511 | for every map and size: on working flash succeeds exactly when the bus addresses agree, the order is safe and an FX3 has its FX ROM; success leaves exactly the image and the descriptor |
| RomInstaller.Installer.VerifyRaw | src/storage/snes_rom_installer.cpp:513-524 | a raw upload is accepted only when it fills the device |
| RomInstaller.Installer.Process | src/storage/snes_rom_installer.cpp:526-564 | from the ejected page chain to the finished device, with the file in chain order installed, or left in place when raw; on working flash it succeeds exactly under those conditions, and otherwise says whether the file or the installation was at fault |
| RomInstaller.SweptImage | src/storage/snes_rom_installer.cpp:357-403 | when all sectors are final every NOR byte is the image byte and the descriptor area is erased |
| ChipImage.SameMirror | src/tools/make_snes_rom_image.py:140-149 | the packer mirrors exactly as the firmware does |
| ChipImage.SameMap | src/tools/make_snes_rom_image.py:257-292 | packer and firmware agree on the source offset of every bus address, for every common map |
| ChipImage.BuildChipImage | src/tools/make_snes_rom_image.py:333-362 | errors exactly on a bad source, a bad chip size or a conflict; otherwise every byte is the image byte, unmapped ones $FF, with the descriptor of the ROM at $7E0000 of a 16 MiB image |
| ChipImage.PlacingConflict | src/tools/make_snes_rom_image.py:333-362 | a placement conflict means no consistent image exists |
| ChipImage.PlacingDone | src/tools/make_snes_rom_image.py:333-362 | a complete placement without conflict is consistent and is the image |
| ChipImage.Fx3Payload | src/tools/make_snes_rom_image.py:215-222 | the packed FX window is the one the installer writes |
| ChipImage.SameSram | src/tools/make_snes_rom_image.py:113-125 | packer and firmware read the same SRAM size off a header, and the code from its bit length is the one from doubling |
| ChipImage.SameDescriptor | src/tools/make_snes_rom_image.py:310-323 | the descriptor packed from the index in the list of maps, the bit length of the SRAM size and four words is, byte for byte, the one the firmware writes |
| ChipImage.InstalledIsPacked | src/storage/snes_rom_installer.cpp:430-511 | an installed device equals, byte for byte and with its descriptor, what the packer emits for the same ROM, map, header and capacity |
| Crc32.Compute | src/storage/fx3_save_journal.cpp:91-102 | the bitwise loops compute the checksum as defined by shifting in the bytes |
| Crc32.StepBitInjective | src/storage/fx3_save_journal.cpp:98-99 | one register step is a bijection |
| Crc32.Step8Injective | src/storage/fx3_save_journal.cpp:97-99 | eight steps are a bijection |
| Crc32.RegisterInjective | src/storage/fx3_save_journal.cpp:96-100 | appending the same bytes never merges two register states |
| Crc32.WindowInjective | src/storage/fx3_save_journal.cpp:96-100 | two different windows of at most four bytes never lead from one state to the same state |
| Crc32.WindowDetected | src/storage/fx3_save_journal.cpp:91-102 | equal-length strings that differ at most inside four consecutive bytes have equal checksums exactly when they are equal |
| Crc32.CheckValue | src/storage/fx3_save_journal.cpp:91-102 | the checksum of the digits 1 to 9 is the published check value of CRC-32/ISO-HDLC |
| Crc32.CheckNumber | src/storage/fx3_save_journal.cpp:91-102 | and that checksum is stored and compared as the number $CBF43926 |
| SlotRing.Best | src/storage/fx3_save_journal.cpp:104-116 | the record a scan holds is a valid one of the slots seen, and there is one exactly when some slot is valid |
| SlotRing.BestLeads | src/storage/fx3_save_journal.cpp:104-116 | when one record is ahead of all others by less than half a turn the scan finds it, across the 32-bit wrap |
| SlotRing.Target | src/storage/fx3_save_journal.cpp:141-158 | an erased slot is taken without erasing; a slot is reclaimed only when none is erased |
| SlotRing.TargetSpares | src/storage/fx3_save_journal.cpp:141-158 | the newest record is never written over |
| SlotRing.CommitFound | src/storage/fx3_save_journal.cpp:104-161 | the record just committed is the one the next scan finds |
| SlotRing.CutFound | src/storage/fx3_save_journal.cpp:104-161 | a slot that lost its record does not change what the scan finds |
| SlotRing.CommitExact | src/storage/fx3_save_journal.cpp:104-161 | on any ring, in order or not, the record just committed is the one found exactly when it is newer than what the scan holds before it and no record after it is newer |
| SlotRing.LossExact | src/storage/fx3_save_journal.cpp:104-161 | on any ring the loss of another slot changes what is found exactly when the newest record lies after it and does not outrank what is left |
| SlotRing.RollsLeads | src/storage/fx3_save_journal.cpp:57-59 | every valid older record is at most three steps behind the newest |
| SlotRing.CutRolls | src/storage/fx3_save_journal.cpp:141-158 | an interrupted append keeps the ring invariant |
| SlotRing.CommitRolls | src/storage/fx3_save_journal.cpp:141-161 | a committed append keeps the ring invariant |
| SlotRing.NextInTurn | src/storage/fx3_save_journal.cpp:104-161 | a ring that was filled in turn: the scan finds the last record, and the next one takes the slot after it, an erased one at first and then the oldest |
| SlotRing.HalfTurnConfuses | src/storage/fx3_save_journal.cpp:57-59 | without the margin the modular order is not an order: a concrete ring where the record just committed loses to a third one |
| LittleEndian.WordRoundTrip | src/storage/fx3_save_journal.cpp:27-39 | a word written little-endian reads back |
| LittleEndian.ReadsLowestFirst | src/storage/fx3_save_journal.cpp:27-32 | words and half words are read as the numbers their bytes spell in base 256, the lowest first |
| LittleEndian.WritesLowestFirst | src/storage/fx3_save_journal.cpp:34-39 | and written as the bytes that spell them |
| SaveJournal.Journal.IsValidRecord | src/storage/fx3_save_journal.cpp:61-82 | true exactly for a record whose fields match and whose payload carries its checksum, with its sequence number |
| SaveJournal.Journal.IsSlotErased | src/storage/fx3_save_journal.cpp:84-87 | true exactly when every byte of the slot is $FF |
| SaveJournal.Journal.Scan | src/storage/fx3_save_journal.cpp:104-116 | the loop over the slots finds the record the modular order picks |
| SaveJournal.Journal.Restore | src/storage/fx3_save_journal.cpp:118-132 | hands back the payload of the scanned record, or nothing |
| SaveJournal.Journal.FindTarget | src/storage/fx3_save_journal.cpp:141-158 | picks the target slot and whether it must be reclaimed |
| SaveJournal.Journal.Append | src/storage/fx3_save_journal.cpp:134-189 | whatever the cut, the flash is the specified outcome; it reports success exactly when every step happened |
| SaveJournal.RecordOnFlash | src/storage/fx3_save_journal.cpp:27-82 | what is taken for a record is exactly the bytes SFX3, the format, sizes, sequence number and checksum of a payload, and CMIT at 24, each number spelled lowest byte first |
| SaveJournal.RestoredIsWritten | src/storage/fx3_save_journal.cpp:118-132 | a restore hands back the payload of such a record, and none only when the flash has none |
| SaveJournal.AppendWrites | src/storage/fx3_save_journal.cpp:134-189 | a committed append leaves exactly these bytes in the slot it takes |
| SaveJournal.PartCommitted | src/storage/fx3_save_journal.cpp:166-179 | a record becomes valid exactly with the last byte of its commit word, and then carries the snapshot |
| SaveJournal.OutcomeElsewhere | src/storage/fx3_save_journal.cpp:134-189 | an append changes its target slot only |
| SaveJournal.CutSafe | src/storage/fx3_save_journal.cpp:134-189 | on a ring in order a restore after any cut yields the complete new snapshot or what it yielded before |
| SaveJournal.CutExact | src/storage/fx3_save_journal.cpp:104-189 | on any image, whatever its sequence numbers: exactly when the new record is found after a commit, and exactly when the old one is still found after a cut |
| SaveJournal.RunRolls | src/storage/fx3_save_journal.cpp:134-189 | from an erased journal every run of completed, failed and interrupted appends keeps the ring invariant |
| SaveJournal.RunRestores | src/storage/fx3_save_journal.cpp:104-189 | from an erased journal a restore yields exactly the last committed snapshot, after any run |
| SaveJournal.RunTurns | src/storage/fx3_save_journal.cpp:134-189 | completed saves alone: record k lies in slot k modulo 4 under sequence number k |
| SaveJournal.DamageRejected | src/storage/fx3_save_journal.cpp:61-82 | a valid record whose payload is damaged inside four consecutive bytes is no longer valid |
| PackBits.Unpackbits | src/tools/make_fx3_video.py:96-111 | the index loop computes the meaning of the stored string, or rejects it as malformed |
| PackBits.UnpackAppend | src/tools/make_fx3_video.py:96-111 | two stored strings in a row mean one after the other |
| PackBits.CountRun | src/tools/make_fx3_video.py:75-77 | the maximal run of equal bytes up to the limit |
| PackBits.LiteralEnd | src/tools/make_fx3_video.py:82-91 | a literal ends after 128 bytes, at the end, or where the first run of three begins |
| PackBits.PackedUnpacks | src/tools/make_fx3_video.py:71-111 | unpacking the packed form, of runs in two bytes and literals between them, gives the string back |
| PackBits.PackedSize | src/tools/make_fx3_video.py:71-93 | the packed form is longer than the string by at most one byte in 128 and one more |
| PackBits.Packbits | src/tools/make_fx3_video.py:71-93 | unpacking what was packed gives the input back, so tag 128 is never emitted; the size is at most n + n/128 + 1; every run of three or more, up to 128 bytes, takes two bytes, and what lies between is stored as it is |
| TileFrame.Planar | src/tools/make_fx3_video.py:26-33 | the loops over rows, pixels and planes leave in every tile byte the bits of one plane of one row |
| TileFrame.PlanarShows | src/tools/make_fx3_video.py:26-33 | what is drawn from the bytes of a tile is the tile |
| TileFrame.PackTile | src/tools/make_fx3_video.py:56-66 | a tile is stored only when it is new; then it and its mirror images are known under their map entries |
| TileFrame.PackPicture | src/tools/make_fx3_video.py:41-68 | the frame can be shown, what the console draws from it is the picture at every pixel and in every colour, and no tile is stored twice, not even mirrored |
| MovieFile.PackFrame | src/tools/make_fx3_video.py:180-189 | a frame of the file carries the times, size and checksum of its picture, packed exactly when that is shorter |
| MovieFile.MakeMovie | src/tools/make_fx3_video.py:180-204 | a movie is made exactly when there are pictures and all numbers fit their fields; it begins with the file header, shows these pictures, and can be played from start to end exactly when every one is on show for some time |
| MovieFile.SlowEnough | src/tools/make_fx3_video.py:184-187 | up to a thousand frames a second every frame is on show for at least a millisecond |
| MovieFile.TooFast | src/tools/make_fx3_video.py:184-187 | beyond that every movie long enough has a frame that is not, which the stream rejects |
| FrameDecoder.TrackTag | src/video/fx3_video_stream.cpp:234-242 | reading a tag keeps the resumable state equal to the meaning of everything consumed |
| FrameDecoder.TrackRepeated | src/video/fx3_video_stream.cpp:247-252 | emitting a repeated byte keeps it |
| FrameDecoder.TrackLiteral | src/video/fx3_video_stream.cpp:247-252 | emitting a literal byte keeps it |
| FrameDecoder.TooLong | src/video/fx3_video_stream.cpp:241-258 | an overlong chunk or left-over input cannot belong to any acceptable frame |
| FrameDecoder.TooShort | src/video/fx3_video_stream.cpp:254-257 | needing input when none is left cannot belong to any acceptable frame |
| FrameDecoder.Decoder.Output | src/video/fx3_video_stream.cpp:107-113 | one byte is appended to the page and folded into the checksum |
| FrameDecoder.Decoder.Step | src/video/fx3_video_stream.cpp:229-252 | one turn of the loop emits at most one byte and keeps the meaning, or shows the frame hopeless |
| FrameDecoder.Decoder.Service | src/video/fx3_video_stream.cpp:229-258 | a service ends complete with exactly the meant bytes, or rejected with no possible completion, or pending within its work limit; it writes only unwritten bytes of its page |
| FrameDecoder.DecodeSplit | src/video/fx3_video_stream.cpp:203-264 | with the read the stream makes before every service: however a frame and what follows it are split into reads, completing means an acceptable frame with those bytes, and an acceptable frame completes unless nothing follows it and its last repeat chunk still has outputs to come |
| FrameDecoder.LastService | src/video/fx3_video_stream.cpp:229-258 | a service that has the rest of an acceptable frame before it completes it exactly when it owes at most the work limit, however much was decoded before |
| FrameDecoder.RunPastWorkLimit | src/video/fx3_video_stream.cpp:215-252 | a concrete family: a final repeat chunk that crosses the work limit leaves the frame pending with all its stored bytes consumed |
| Movie.FrameStays | src/video/fx3_video_stream.cpp:137-156 | bytes that follow a whole frame change neither its header, its picture nor whether it is good |
| Movie.ParseHopeless | src/video/fx3_video_stream.cpp:229-258 | a frame with no acceptable completion spoils the movie: no bytes that follow make it a good one |
| Movie.ParsePublish | src/video/fx3_video_stream.cpp:259-274 | after a good frame reading is at the next one, or the movie is good exactly when the declared duration is reached and can no longer become good otherwise |
| Movie.ParseEnd | src/video/fx3_video_stream.cpp:215-274 | when all bytes of a good movie have been taken and one more is wanted, only its last frame can be unfinished, all stored bytes of that are consumed, and nothing follows it |
| Movie.GoodStays | src/video/fx3_video_stream.cpp:265-274 | bytes after its last frame leave a good movie good, with the same frames in the same places |
| VideoStream.Stream.Stop | src/video/fx3_video_stream.cpp:59-69 | everything but the page on show is dropped |
| VideoStream.Stream.Release | src/video/fx3_video_stream.cpp:70-77 | every page is free and the lock is given up |
| VideoStream.Stream.Play | src/video/fx3_video_stream.cpp:83-100 | refused while locked, and then nothing changes but the error; otherwise the page on show is given up and a movie starts, or the error is reported, with the lock held exactly when the RAM was acquired |
| VideoStream.Stream.Obey | src/video/fx3_video_stream.cpp:191-201 | a reset and a command: stop keeps the page on show and the lock, release and reset give up both, play is refused while locked and starts a movie otherwise |
| VideoStream.Stream.HostClaim | src/video/fx3_video_stream.cpp:353-362 | a claim succeeds exactly for the offered page, which holds the next frame of the file in order, and frees the one shown before |
| VideoStream.Stream.Allocate | src/video/fx3_video_stream.cpp:204-214 | the first free page becomes the one being built |
| VideoStream.Stream.FillHeader | src/video/fx3_video_stream.cpp:114-118 | header bytes are collected across reads without loss |
| VideoStream.Stream.ReadFrameHeader | src/video/fx3_video_stream.cpp:137-156 | a frame starts decoding only if its header, as it stands in the file, fits the movie and the page; otherwise no continuation makes the movie good |
| VideoStream.Stream.ValidateFrame | src/video/fx3_video_stream.cpp:158-173 | true exactly when every map entry names a tile of the frame and every colour has fifteen bits |
| VideoStream.Stream.Decode | src/video/fx3_video_stream.cpp:229-252 | decoding ends complete, pending or hopeless, and shown pages keep their bytes; a pending frame was given the whole work limit, or took all bytes and wants more |
| VideoStream.Stream.Judge | src/video/fx3_video_stream.cpp:259-264 | no fault exactly when the frame of that number in the bytes delivered is good, its declared checksum included |
| VideoStream.Stream.Advance | src/video/fx3_video_stream.cpp:229-264 | a frame is published, or still pending after the whole work limit or for want of bytes, or the movie is dropped because nothing that could follow makes it good; shown pages keep their bytes |
| VideoStream.Stream.Finish | src/video/fx3_video_stream.cpp:259-274 | a decoded frame is offered when it is the good frame of that number in the file, and otherwise the movie is spoiled; a wrong checksum is reported as such |
| VideoStream.Stream.EndMovie | src/video/fx3_video_stream.cpp:265-274 | the movie ends cleanly exactly when the declared duration was reached |
| VideoStream.Stream.Load | src/video/fx3_video_stream.cpp:215-222 | 1 to 512 bytes are taken, a retry changes nothing, the end of the file is a read failure |
| VideoStream.Stream.Serve | src/video/fx3_video_stream.cpp:203-274 | every service keeps the shown pages genuine frames of the bytes delivered; a movie is dropped only when it is spoiled or for want of a byte; a good movie that closes ends cleanly exactly when something follows its last frame or the last service with stored bytes to come owed at most the work limit; a service with a byte to work on completes a header, publishes a frame, takes all bytes or decodes the work limit, and with the rest of the last frame there and no more than the limit owed it ends the movie |
| VideoStream.Stream.Task | src/video/fx3_video_stream.cpp:191-275 | after Stop the page on show and the lock are as they were and all else is dropped; after Release or a reset no page is in use and the lock is given up; Play by its outcomes; in all cases the pages shown are frames of the file read since the play, under their own headers and checksums, and the ready ones are the unclaimed frames in order; without a command the movie moves on as a service does |
| VideoRun.Claim | src/video/fx3_video_stream.cpp:353-362 | a host that claims what it is offered sees the next picture of the file, or core 1 has a page to build in |
| VideoRun.Judged | src/video/fx3_video_stream.cpp:215-274 | how the stream closed on the bytes it read decides the whole file: clean exactly for a good movie whose last frame is followed by something or was not owed too much |
| VideoRun.Watch | src/video/fx3_video_stream.cpp:191-275 | a file played from its start, delivered in pieces of any size to a host that may be late any bounded number of times, comes to an end: every picture of a good movie is shown once and in order, and anything else ends in an error after genuine pictures only |
| MovieFile.Film | src/tools/make_fx3_video.py:148-204 | from pictures to the screen: every page the host shows looks like the picture whose turn it is, and the movie is shown to its end exactly when its pictures all last and its last frame is not owed too much |
| AudioTable.LineStep | src/audio/fx3_audio_stream.cpp:346-356 | the line accumulator distributes the lines as the exact quotient does |
| AudioTable.StepLines | src/audio/fx3_audio_stream.cpp:346-356 | one turn of the accumulator yields the line count of the packet and what is carried on |
| AudioTable.LineSums | src/audio/fx3_audio_stream.cpp:346-369 | the counts of the first k packets add up to the even share of the screen |
| AudioTable.TableFits | src/audio/fx3_audio_stream.cpp:346-369 | the counts of every table lie in 1 to 127 and sum to 224, and its terminator is inside the page |
| AudioTable.TableOfThree | src/audio/fx3_audio_stream.cpp:346-369 | a table of three packets byte by byte: 74, 75 and 75 lines, the payload, the numbers, the end mark |
| AudioFifo.Fifo.Room | src/audio/fx3_audio_stream.cpp:243-250 | a refill asks for contiguous room, at most 4096 bytes, and not past the high-water mark |
| AudioFifo.Fifo.Fill | src/audio/fx3_audio_stream.cpp:251-270 | the queue grows by exactly the bytes read |
| AudioFifo.Fifo.Pop | src/audio/fx3_audio_stream.cpp:223-233 | the queue gives its oldest bytes |
| AudioPages.Pages.ClaimPage | src/audio/fx3_audio_stream.cpp:188-221 | a claim succeeds exactly for the offered page, takes the oldest unclaimed table, and never exceeds the granted credit |
| AudioPages.Pages.ReleaseActive | src/audio/fx3_audio_stream.cpp:166-172 | the active page becomes free, nothing else changes |
| AudioPages.Pages.ReportLevel | src/audio/fx3_audio_stream.cpp:659-667 | a fill report grants (7 - level) segments and starts the account afresh |
| AudioPages.Pages.RefreshOffer | src/audio/fx3_audio_stream.cpp:140-164 | the page offered is the oldest unclaimed one |
| AudioPages.Pages.OffersNext | src/audio/fx3_audio_stream.cpp:174-187 | with a page on offer the host is told about the oldest table it has not claimed, exactly while a stream runs and the last grant still covers that table |
| AudioPages.Pages.ClearPages | src/audio/fx3_audio_stream.cpp:100-110 | everything but the active page is free |
| AudioPages.Pages.TryReserve | src/audio/fx3_audio_stream.cpp:292-303 | a page is taken for building exactly when it is free |
| AudioPages.Pages.Put | src/audio/fx3_audio_stream.cpp:357-369 | a byte of the page being built; no page the host can see changes |
| AudioPages.Pages.Interleave | src/audio/fx3_audio_stream.cpp:618-680 | whatever the host does at a moment, a page stays on show with its bytes until the host gives it back or claims another |
| AudioPages.Pages.Publish | src/audio/fx3_audio_stream.cpp:338-371 | a complete table becomes visible as the next one |
| AudioPages.Pages.HdmaRead | src/audio/fx3_audio_stream.cpp:684-698 | the host reads visible pages only |
| AudioPages.Pages.OnShow | src/audio/fx3_audio_stream.cpp:188-221 | in every state the page on show holds, byte for byte, the table the host claimed last |
| AudioPages.Pages.Host | src/audio/fx3_audio_stream.cpp:618-680 | any sequence of host actions keeps the invariant and leaves core 1 what it relies on |
| AudioStream.PayloadAligned | src/audio/fx3_audio_stream.cpp:276-336 | tables carry whole 9-byte blocks |
| AudioStream.ContiguousNext | src/audio/fx3_audio_stream.cpp:338-366 | sequence numbers continue modulo 256 from table to table |
| AudioStream.PacketNumber | src/audio/fx3_audio_stream.cpp:338-366 | packets are numbered from zero on, modulo 256, through all tables |
| AudioStream.Stream.Refill | src/audio/fx3_audio_stream.cpp:235-274 | at most one bounded read, exactly when the marks ask for one; it fails exactly for a failed or overlong read; the queue and the delivered bytes grow together; the source is closed exactly at its end, and refilling goes on until the high mark |
| AudioStream.Stream.PacketsPerPage | src/audio/fx3_audio_stream.cpp:276-288 | the table size for each fill level: more packets when the sound processor runs low, fewer when it is full, and the 51, 51, 48 cycle in between |
| AudioStream.Stream.Reserve | src/audio/fx3_audio_stream.cpp:292-303 | a free page is found whenever there was one, whatever the host does between the looks |
| AudioStream.Stream.FillTable | src/audio/fx3_audio_stream.cpp:346-369 | under any interleaving with the host the page becomes the complete table of the next source bytes, or of silence |
| AudioStream.Stream.Choose | src/audio/fx3_audio_stream.cpp:304-336 | a full table of the size of the moment while there is one, at the end as many whole blocks as are left, silence only when playback runs dry with nothing ready; the underrun and the partial block are reported |
| AudioStream.Stream.LeastFits | src/audio/fx3_audio_stream.cpp:304-320 | at the end of the source a table is smaller than wanted only when no further whole block is left for it |
| AudioStream.Stream.DropPartial | src/audio/fx3_audio_stream.cpp:309-314 | only an incomplete last block is given up |
| AudioStream.Stream.BuildPage | src/audio/fx3_audio_stream.cpp:290-373 | one table more, nothing lost or reordered, with a quiet host of exactly the size the level asks for, fewer packets only for the last whole blocks; a page is built whenever one is free and the queue fills a table, and with a quiet host exactly when one is free and a table can be filled; silence only if nothing else is ready; every success uses up a host moment or a free page |
| AudioStream.Stream.BuildAll | src/audio/fx3_audio_stream.cpp:545-546 | the building loop terminates, only appends tables, and with a quiet host stops only when no page is free or the queue fills no table |
| AudioStream.Stream.PagesPending | src/audio/fx3_audio_stream.cpp:375-382 | if no page is seen in use every table built has been claimed |
| AudioStream.Stream.UpdateStatus | src/audio/fx3_audio_stream.cpp:384-404 | the end is reported only when source, queue, pages and sound processor are done, and with a quiet host exactly then |
| AudioStream.Stream.Play | src/audio/fx3_audio_stream.cpp:406-432 | refused while playing, and then nothing changes but the error; otherwise starts a stream from nothing, or reports that there is none |
| AudioStream.Stream.Pause | src/audio/fx3_audio_stream.cpp:454-462 | pauses a stream that is open or still draining, and nothing else |
| AudioStream.Stream.Resume | src/audio/fx3_audio_stream.cpp:463-465 | takes the stream up where it was |
| AudioStream.Stream.ResetStream | src/audio/fx3_audio_stream.cpp:112-126 | starts over with only the page on show kept |
| AudioStream.Stream.Service | src/audio/fx3_audio_stream.cpp:531-548 | every service keeps the stream invariant; it fails exactly for a rejected read; playback counts as started exactly from the priming level on, and an underrun is reported exactly while the last table was silence; the page on show holds the table claimed last, also when it was claimed during the service; tables are built at the rate of the moment, and one is built when a page is free and the queue fills it; with a quiet host the end is reported exactly when all is done, and every whole block was delivered |
| AudioStream.Stream.Delivered | src/audio/fx3_audio_stream.cpp:188-404 | what the host claimed is always a prefix of the source in whole blocks with contiguous sequence numbers, and at the end every whole block |
| FxSync.StoreKeeps | src/platform/rp2350/fx_sync.cpp:136-148 | writing the free slot does not disturb the queued commands |
| FxSync.PopTakes | src/platform/rp2350/fx_sync.cpp:151-161 | popping takes the oldest command |
| FxSync.InvStep | src/platform/rp2350/fx_sync.cpp:183-235 | every atomic step of either core keeps ownership, gate and delivery invariants |
| FxSync.RunInv | src/platform/rp2350/fx_sync.cpp:183-472 | so does every interleaving |
| FxSync.NeverTogether | src/platform/rp2350/fx_sync.cpp:183-361 | the two cores never change the coprocessor state at the same time |
| FxSync.OnlyThenChanged | src/platform/rp2350/fx_sync.cpp:183-361 | outside those steps a core changes nothing of the coprocessor |
| FxSync.UnownedIsDrained | src/platform/rp2350/fx_sync.cpp:219-232 | what core 1 does not own has an empty ring and no command unapplied |
| FxSync.RunningIsServed | src/platform/rp2350/fx_sync.cpp:183-235 | a coprocessor that runs is owned by core 1, and the next service executes it |
| FxSync.ClearIsServed | src/platform/rp2350/fx_sync.cpp:241-332 | an interrupt clear is never left lying: core 1 will service it, or core 0 is on its way to it |
| FxSync.ExactlyOnceInOrder | src/platform/rp2350/fx_sync.cpp:334-361 | the commands reported accepted are applied once each in acceptance order: applied, in hand and queued commands together are the accepted ones |
| FxSync.RefusedWhenFull | src/platform/rp2350/fx_sync.cpp:136-148 | a command is refused exactly when the ring is full, and then leaves no trace |
| FxSync.CallAlone | src/platform/rp2350/fx_sync.cpp:334-361 | a write or reset from beginning to end: dropped during video, queued behind what is waiting, refused without a trace when there is no room, and otherwise applied at once, with the coprocessor handed to core 1 exactly when the write started it |
| FxSync.ReadAlone | src/platform/rp2350/fx_sync.cpp:241-332 | a register read leaves everything as it was; one that must clear the interrupt does so at once or leaves it to core 1 |
| FxSync.ServiceAlone | src/platform/rp2350/fx_sync.cpp:183-235 | a service from beginning to end: the interrupt clear, every waiting command once and in order, one instruction if the coprocessor runs; core 1 keeps the state exactly as long as it runs |
| FxSync.VideoDrops | src/platform/rp2350/fx_sync.cpp:337-340 | during a video session core 1 does not own the state and register writes are dropped |
| FxSync.VideoSession | src/platform/rp2350/fx_sync.cpp:553-566 | video gets the RAM exactly while the coprocessor is stopped and core 1 does not own it, and gives it back |
| QspiBus.InvStep | src/platform/rp2350/qspi_bus.cpp:25-119 | every atomic step keeps the owner flag unique and the phase truthful |
| QspiBus.TransferIsExclusive | src/platform/rp2350/qspi_bus.cpp:59-101 | an SD transfer runs only after the bus code has handed over to SRAM, while core 0 is parked in its Active wait and core 1 holds the owner flag; no save overlaps |
| QspiBus.OneHolder | src/platform/rp2350/qspi_bus.cpp:37-43 | at most one save or SD window holds the flag |
| QspiBus.ParkedUntilEnd | src/platform/rp2350/qspi_bus.cpp:25-34 | core 0 leaves its wait only after core 1 ended the transfer |
| QspiBus.BeginOutcome | src/platform/rp2350/qspi_bus.cpp:59-88 | a begin call ends Active with core 0 parked, or with the flag released and the phase Idle |
| QspiBus.BeginIsAnswered | src/platform/rp2350/qspi_bus.cpp:66-84 | a waiting begin call always gets an answer, through core 0 or through its timeout |
| QspiBus.EndIsAnswered | src/platform/rp2350/qspi_bus.cpp:91-105 | an end call always returns, with the bus taken back: no action takes it further from its return, and a step of one of the cores brings it closer |
| QspiBus.RefusedIsCancelled | src/platform/rp2350/qspi_bus.cpp:107-119 | a request that the bus code refuses leaves the phase Idle and the transfer cancelled |
| QspiBus.CancelStays | src/platform/rp2350/qspi_bus.cpp:45-57 | a cancellation stays until the next request, whoever made it |
| QspiBus.Granted | src/platform/rp2350/qspi_bus.cpp:59-119 | a request that is granted becomes a transfer |
| QspiBus.Ended | src/platform/rp2350/qspi_bus.cpp:91-119 | and its end leaves everything as it was |
| QspiBus.SavesTakeTurns | src/platform/rp2350/qspi_bus.cpp:37-43 | a free flag is there for every save and every request, a taken one for none, and a save gives it back |
| SdFile.Reader.ReadSector | src/platform/rp2350/sd_audio_source.cpp:131-149 | Ok exactly with a fine transfer or the sector buffered, Error exactly outside the card, for a broken transfer or the third garbled one in a row; Ok leaves the sector in the buffer |
| SdFile.Reader.NextLink | src/platform/rp2350/sd_audio_source.cpp:188-196 | the FAT entry of the cluster, and an error exactly for a bad cluster, a place outside the card or a fatal transfer |
| SdFile.LinkSpelled | src/platform/rp2350/sd_audio_source.cpp:188-196 | a FAT entry is the little-endian number at its place in the table, two bytes or the lower 28 bits of four |
| SdFile.ClustersTile | src/platform/rp2350/sd_audio_source.cpp:324-339 | clusters lie one behind the other from the data area on, and a cluster is valid exactly when it ends inside it |
| SdFile.ByteOnCard | src/platform/rp2350/sd_audio_source.cpp:324-339 | a byte of a cluster is that byte of the card |
| SdFile.Reader.Follow | src/platform/rp2350/sd_audio_source.cpp:305-322 | follows the chain, or stops with the file unchanged: with an error exactly when there is a true reason (a bad link, a real loop, a fatal transfer, a place outside the card), with a retry only after a transfer that was not fine |
| SdFile.Reader.Copy | src/platform/rp2350/sd_audio_source.cpp:332-339 | the copied bytes are the file's at the current position |
| SdFile.Reader.ReadFile | src/platform/rp2350/sd_audio_source.cpp:296-343 | consecutive bytes of the chain from where the last read stopped; a failure has a true reason, and a retry or a short read a reason or a transfer that was not fine; when all transfers are fine and the clusters needed are valid and do not loop, exactly the bytes due; retries lose and repeat nothing, the other file is untouched |
| SdFile.RefusedLink | src/platform/rp2350/sd_audio_source.cpp:309-310 | a link that is refused means the chain is bad or loops at that very cluster |
| SdFile.AdvancedTracked | src/platform/rp2350/sd_audio_source.cpp:311-318 | Brent bookkeeping: the anchor sits at a power of two less one and has not been met again |
| SdFile.LoopIsReal | src/platform/rp2350/sd_audio_source.cpp:309-310 | a chain rejected as a loop visits some cluster twice, so an acyclic one is never rejected |
| SdFile.LoopIsFound | src/platform/rp2350/sd_audio_source.cpp:305-318 | on a cyclic chain the cluster index stays below four times tail plus cycle |
| SdFile.Reader.CyclicIsBounded | src/platform/rp2350/sd_audio_source.cpp:296-343 | however often it is read, a file on a cyclic chain delivers a bounded number of bytes |
| SdFile.Reader.ReadThrough | src/platform/rp2350/sd_audio_source.cpp:296-343 | reading on always comes to an end, with the rest of the file or with the file closed for a true reason; a healthy chain is closed for a fatal transfer alone; a file longer than four times tail plus cycle of its chain is always closed, after no more than that |
| FxMemory.Memory.Step | src/fx/fx_memory.cpp:121-153 | passing time changes nothing a program can see; stores and fetches retire with their own bank |
| FxMemory.Memory.WriteRam | src/fx/fx_memory.cpp:199-205 | a store is seen at once, under the bank it was issued in |
| FxMemory.Memory.ReadRam | src/fx/fx_memory.cpp:175-183 | a load sees every earlier store |
| FxMemory.Memory.WriteR14 | src/fx/fx_core.h:314-326 | writing R14 makes the buffer the byte it addresses |
| FxMemory.Memory.ReadRomBuffer | src/fx/fx_memory.cpp:168-172 | the buffer read is the byte of the last R14 write |
| FxMemory.Memory.SelectRamBank | src/fx/fx_ops_data.cpp:121-126 | the RAM bank changes only after the store issued under the old one |
| FxMemory.Memory.SelectRomBank | src/fx/fx_ops_data.cpp:127-132 | the ROM bank changes only after the fetch issued under the old one |
| FxMemory.Memory.Execute | src/fx/fx_memory.cpp:105-205 | each delayed operation is the immediate one |
| FxMemory.Memory.Run | src/fx/fx_memory.cpp:105-205 | so is every program, with any time passing in between |
| FxMemory.WordRoundTrip | src/fx/fx_ops_data.cpp:186-203 | a word stored is the word loaded, from either of its addresses |
| FxMemory.StoreLoads | src/fx/fx_ops_data.cpp:121-203 | a byte stored under a bank lies there in the RAM and is what is loaded from there; every other place loads what it held before |
| FxMemory.FetchReads | src/fx/fx_core.h:314-326 | setting R14 fetches the byte it addresses in the ROM bank of the moment, and GETB reads it |
| FxRom.BanksAgree | src/fx/fx_memory.cpp:41-58 | bank $40 + b shows banks 2 b and 2 b + 1, which repeat in both halves |
| FxRom.SeesTheSame | src/fx/fx_memory.cpp:41-58 | after an FX3 is installed the coprocessor and the SNES see the same byte at every address of its banks |
| FxScreen.PlanesApart | src/fx/fx_graphics.cpp:18-40 | below the mode height a byte of the frame belongs to one row of eight pixels and one plane, in every mode and depth |
| FxScreen.PlaneInside | src/fx/fx_graphics.cpp:35-40 | every plane byte of a pixel on the screen lies inside the frame |
| FxScreen.TileOrder | src/fx/fx_graphics.cpp:18-30 | the tiles of a column follow each other, columns begin where the height of the mode ends, and object mode goes by quarters |
| FxScreen.TileBytes | src/fx/fx_graphics.cpp:32-40 | the bytes of a tile as the picture processor reads them |
| FxScreen.Fx3Frame | src/fx/fx3_graphics.cpp:34-67 | the frame of FX3: columns of twenty tiles of eight planes |
| FxGraphics.LeftIsHigh | src/fx/fx_graphics.cpp:52-60 | the leftmost of eight pixels is the highest bit of its plane bytes |
| FxGraphics.DitherBoard | src/fx/fx_graphics.cpp:84-102 | even places of the chess board take the lower nibble of the colour, odd ones the upper |
| FxGraphics.BlankColors | src/fx/fx_graphics.cpp:84-102 | transparent are the colours whose visible bits are zero |
| FxGraphics.RowShows | src/fx/fx_graphics.cpp:117-146 | a written row shows its cached pixels and every other pixel is as it was |
| FxGraphics.Graphics.PackPlane | src/fx/fx_graphics.cpp:122-125 | the transpose puts each pixel's bit of the plane in its place |
| FxGraphics.Graphics.WriteRow | src/fx/fx_graphics.cpp:117-146 | a store on its way lands first; then the planes of the row are merged and no other byte of RAM changes |
| FxGraphics.Graphics.FlushPrimary | src/fx/fx_graphics.cpp:105-113 | handing the newer cache over changes no pixel |
| FxGraphics.Graphics.DrawPixel | src/fx/fx_graphics.cpp:84-102 | in every state a plot changes exactly its pixel, to the dithered colour, unless the colour is transparent |
| FxGraphics.Graphics.ReadPixel | src/fx/fx_graphics.cpp:44-62 | in every state: the pixel the program is to see, exactly when something was cached or the store on its way leaves the lowest plane of the pixel alone; no pixel changes |
| FxGraphics.Graphics.Clear | src/fx/fx3_graphics.cpp:34-67 | in every state exactly the chosen columns of the visible rows take colour $81, no other pixel changes |
| FxGraphics.Graphics.Stop | src/fx/fx_ops_control.cpp:7-53 | the program counter is cleared only after pending stores (and for a save both caches) are in RAM; a failed save leaves it nonzero |
| FxGraphics.Graphics.Execute | src/fx/fx_graphics.cpp:44-146 | each operation on caches and planes is one operation on a flat canvas, in every state; what a read returns is the canvas exactly when something is cached or no store on its way changes the lowest plane of the pixel |
| FxGraphics.Graphics.Run | src/fx/fx_graphics.cpp:44-146 | so is every run of plots, reads, colour changes and clears, with every result once no store is on its way or something is cached |

## Left out

- Header detection (`snes_rom_detect`, scoring): heuristic; a detected `RomInfo` is a parameter of `Process`.
- The NOR command protocol, its timeouts and the busy and service hooks: reduced to sector erase, byte program and verify on a device that may die at any operation.
- Reading the finished device back through the upload view while it is complete (`read`, lines 169-190 of the installer).
- The packer's superfx-extended and raw maps, `normalize_fx3_rom`, `build_bus_image` and chip size inference: the installer has no counterpart for them.
- The save coordinator above the journal (`qspi_save.cpp`): only its use of the owner flag is modelled.
- SaveJournal.Journal.Append: a sector erase and a byte program are atomic, so an erase interrupted inside one sector is not modelled.
- VideoStream.Stream.Task: null callbacks, the asset registers and the register reads of the host are not modelled; command queueing is a parameter, and the host claims pages between two tasks, not inside one.
- VideoRun.Watch: a read that the card reports as failed is left to `VideoStream.Stream.Serve`; the host takes no page back before it claims the next.
- AudioStream.Stream.Service: the 16-entry command queue, the counters and the asset registers are not modelled; commands are separate methods, and a stream has fewer than 2^32 - 1 pages.
- FxSync.RunInv: the SD-window functions (`fx_sync_sd_begin` and after, with writes deferred past the window) and the published snapshots are not modelled; what the coprocessor does with a command is a free choice.
- QspiBus.InvStep: the SD transfer itself, the lockout of the other core during a flash save and time are not modelled; the timeout may fire at any look.
- Card initialisation, directory search and volume parsing (`sd_audio_source.cpp`): a volume and a directory entry are parameters of `SdFile.Reader`.
- SdFile.Reader.ReadFile: cluster and position arithmetic is unbounded; files are at most the volume's size, so the source's 32-bit counters do not wrap.
- FxGraphics.Graphics.DrawPixel: plots below the mode's height, the frame inside RAM; GSU1 and GSU2 ownership waits and cycle counts are not modelled.
- Program fetches, the program cache and per-opcode flags: time passing stands for them.
- UsbVolume.Volume.WriteBlock: of the blocks the host reads only the boot sector is modelled, and the drive's capacity does not change after the mount.
- UsbCopy.CopyAndInstall: the host puts its file into the third directory entry and writes no other one (long names, folders of its own).
- MovieFile.MakeMovie: the search for sixteen colours, the DMA budget, the audio track and the manifest of the tool are not modelled; a picture is given as colour numbers and a palette.
- PIO, DMA, GPIO, TinyUSB, FFmpeg conversion, BRR quality and the test-ROM generators: hardware, external tools or user interface.
