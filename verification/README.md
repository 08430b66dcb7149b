# Verified model of the RuuviAir MCUboot file updates

This project models the part of the RuuviAir boot loader that installs firmware
from files, and proves what it does over single calls and over whole runs of a
device. It has four layers, from the bottom up:

- **Records and validation.** An image is a 32-byte header, a body, an optional
  protected record area and an unprotected record area (MCUboot design document,
  section "Image Format"). A cursor walks the records of a file; the validator
  hashes the file, follows the records and decides.
- **Copying.** A file is written to an erased flash partition, or compared with
  it, 256 bytes at a time. Programming a flash cell can only clear bits, so the
  results about the copied bytes depend on the erase.
- **Hardware revision.** Two searches, one in a file and one in flash, for the
  vendor's two records in the protected area.
- **The updater.** Four files, four partitions, the running loader slot, the
  handoff between the two loaders, and runs made of boots and of changes that
  the application makes between them.

Classes stand for what the program updates in place (an open file, a flash
partition, the record iterator, the revision structure, the device); methods
with loops stand for its loops. Each method is tied to a specification on
values, and the theorems are about those specifications.

Devices may fail. A file or a flash partition that is not reliable may fail any
operation, a failing write may have programmed a first part of its bytes, and
an erase happens entirely or not at all. Each result says which operations it
needs to succeed.

## Results

- The validator accepts a well-formed image exactly when its areas fit the
  partition and its records meet a condition stated on the record list alone;
  bytes behind the image do not matter, and a reading fault can only make it
  refuse. Any file it accepts, even a malformed one, it accepts with more bytes
  behind it. Two accepted images with the same hash record have the same header,
  body and protected records, or exhibit a hash collision.
- A file made by the rules passes: an encoded header, a body whose reset
  address lies in the partition, any other protected records, and then the hash,
  the hash of a key of the table and a signature that verifies
  (`SignedFilePasses`). No image passes for two partitions, no loader for two
  slots.
- The gates of the updater are stated exactly, in terms of the file's bytes and
  the partition's contents (`CheckImageIff`, `B0AcceptsIff`, `ImageGateIff`,
  `LoaderGateIff`, `HandoffGateIff`).
- Iterating over a laid-out image reports exactly its records. In any file,
  even a malformed one, the records reported as protected depend on hashed
  bytes only.
- A successful copy leaves the file followed by erased cells, a cut one leaves
  a prefix; a comparison succeeds exactly on the padded file.
- Both revision searches agree, and equal a lookup whose success has an exact
  condition.
- When everything works, the state before a boot determines the flash, the
  files, the shared buffer and the reboot after it, whatever the files hold
  (`WorkingBoot`).
- Over all runs: each partition's contents come from a file of its own, the
  running loader is not overwritten, firmware versions do not decrease, image
  partitions keep holding images that pass the check, and the updater comes to
  rest exactly when a handoff is followed by a boot of the other slot. What the
  file of a partition had passed, also under faults, is part of the provenance
  result; a bootable s1 stays bootable as long as no file is installed that the
  first stage accepts only over what stands in the buffer.

Some expectations are false of the code. The model shows where they fail, and
exactly when they hold:

- After a signature without a usable key no later record is examined, although
  the comments at src/file_img_validate.c:451-454 and 583 say that the next one
  is tried. `PassesAgreeIff` says on which record lists this matters: those in
  order up to such a signature that only the part before it proves, or only the
  whole list. `TwoSignaturesRefused` gives an image refused for this reason,
  `UnexaminedRecordsIrrelevant` shows that what follows is not looked at.
- An empty unprotected area behind a protected one is read past its end
  (`EmptyUnprotectedOverruns`).
- A last protected record without payload counts as unprotected
  (`ProtectedClassification`).
- A loader file is checked with the buffer's old bytes behind it. A truncated
  file over a buffer that still holds the whole loader passes
  (`TruncatedFilePasses`) and is installed without any fault, and s1 is lost
  unless the first stage accepts the truncated loader on erased flash
  (`TruncatedFileLosesS1`). `OtherSlotBootableIff` says exactly when the other
  slot is bootable after a boot.
- When the end of a loader file cannot be found, its size reads as zero and the
  buffer's old bytes are judged in its place (`ValidateB0Signature`), so a file
  that fails the check can be installed. `InstallsCheckedOnlyIff` says exactly
  from which states, and `UncheckedBoot` gives such a boot.
- The downgrade check compares the file's version with itself.
  `DowngradeCheckGap` gives the inputs on which this matters,
  `VersionLoweredIff` the boots that lower an installed image version, and
  `DowngradeExists` such a boot. With the destination's version as the second
  operand no run would lower one (`IntendedCheckIsMonotone`).
- The handoff checks neither the version nor the downgrade rule. A file that
  fails them is handed over all the same, and the other loader removes it
  instead of installing it; s0 then stays marked invalid. `HandoffOutcome` gives
  all partitions after both boots, for either slot.
- One boot of s0 can lose both loaders: when writes fail, and, with a file of s1
  that passes only over old buffer bytes, also without any fault.
  `SlotRemainsIff` says from which states no boot with given faults can,
  `WorkingBootKeepsSlotIff` from which states a boot without faults does not, in
  terms of the files, the buffer and the partitions before the boot.
- s1 hands over without marking itself invalid. After any number of boots an
  update file is left if and only if the first had a file to hand over and all
  were boots of its slot (`ConvergesIff`); in s1 such a run reboots for ever
  with flash and files unchanged (`HandoffWaitsForever`). A run that starts in
  s0 comes to rest (`RunsFromS0Converge`) when the first stage does not start
  the slot that was marked.

## Assumptions

- The hash, the signature check, the key table, the first stage's check of a
  loader and MCUboot's loading of a partition header are parameters. So are the
  vendor record kinds, the partition table and the build options. The headers
  that define them (`bootutil/image.h`, `fw_info.h`, `ruuvi_image_tlv.h`,
  `ruuvi_fw_update.h`) are not part of this model; the image structures follow
  the MCUboot design document.
- The variant modelled is SHA-256 with a key hash record and one signature kind.
- A file has at most 0x7FFFFFFF bytes, the limit of LittleFS; seeking beyond it
  fails. 32-bit additions wrap around; that the iterator's offsets do not is
  proved from that limit.
- `fw_info_find` of the nRF Connect SDK returns the first allowed offset where
  the magic stands; allowed structures do not overlap and the magic does not end
  in 0xFF. `fw_info_invalidate` programs the validity word.
- Where installed image versions are compared, loading a partition's header
  depends on the size of the partition and on its first 32 bytes, and yields
  those; and the validity word of a structure lies behind the image header.
- Two boots in a row find the shared buffer as the first one left it. Memory
  that changes between them is an event of its own.
- Partition sizes are multiples of four, and s0 and s1 have the same size (as
  the static assertions at src/mcuboot_fw_update.c:32-38 say).

## Model

| member | source | states |
|---|---|---|
| Devices.LoadImageData | src/file_tlv_priv.h:430-444 | success means all requested bytes were there and are in the buffer, and without faults it succeeds whenever they are there |
| TlvIter.FindAreasIff | src/file_tlv.c:56-97 | the areas are found exactly when a protected area header with the header's total stands behind the body, if the header names one, and an unprotected area header behind that size; their ends follow |
| ImageFormat.HeaderRoundTrip | src/mcuboot_fw_update.c:146-165 | the header fields of an encoded header are read back from the offsets of the format |
| ImageFormat.LayoutBytes | src/file_tlv.c:120-155 | records and areas start with kind or magic and length or total, in little-endian order |
| TlvIter.TlvIterator.Begin | src/file_tlv.c:43-98 | starts exactly on files whose area headers are in order, with the end of the protected area and of all records, none of them wrapped around |
| TlvIter.TlvIterator.Next | src/file_tlv.c:112-156 | takes the first record off what the iterator has still to report; says 1 only when nothing is left and -1 only when the file ends too early |
| TlvIter.TlvIterator.IsProt | src/file_tlv.c:168-177 | -1 for an iterator that was not started, else whether the offset lies before the end of the protected area |
| TlvIter.ReportIsPicked | src/file_tlv.c:120-155 | on any file the iterator reports the walk along the record headers, filtered by kind and cut at the protected area |
| TlvIter.WalkIsChain | src/file_tlv.c:120-155 | on any file each record header stands where the previous record ends, behind the second area header if that is there; the walk ends at the end of all records or where no header is left |
| TlvIter.PickedUpToCut | src/file_tlv.c:140-144 | on any file the protected-only iterator reports the wanted records up to the first header behind the protected area, and ends there |
| TlvIter.WalkVisitsRecords | src/file_tlv.c:93-155 | in a well-formed image the walk meets every record at its place, in order, and nothing else, across the seam between the areas |
| TlvIter.IteratorRoundTrip | src/file_tlv.c:56-155 | laying out any record lists and iterating reports exactly the records of the wanted kind, only protected ones on request, and ends without an error |
| TlvIter.EmptyUnprotectedOverruns | src/file_tlv.c:120-132 | without unprotected records behind a protected area the walk fails, or takes the four bytes behind the image for a record |
| TlvIter.ProtectedFixedByPrefix | src/file_tlv.c:120-177 | in any two files that agree up to the end of the protected area the records classified as protected are the same |
| TlvIter.ProtectedClassification | src/file_tlv.c:140-177 | the classification is membership in the protected list, except for a last record without payload, and covers the payload |
| Validator.ImgHash | src/file_img_validate.c:71-128 | for every buffer size the digest is that of seed and covered bytes; it fails exactly when the file is shorter |
| Validator.HashCoversProtected | src/file_img_validate.c:101-105 | the hash ends where the iterator's protected area ends, inside the file and without wrap-around |
| Validator.FindKeyFromIsFirst | src/file_img_validate.c:199-212 | the key found is the first whose hash starts with the record's bytes, and none is found only if no key does |
| Validator.FindKey | src/file_img_validate.c:188-213 | finds that key, or none for more than 32 bytes |
| Validator.UsableIff | src/file_img_validate.c:575-585 | the key of a key record is usable exactly when some key of the table has a hash that starts with the record's bytes |
| Validator.SigLenOkIff | src/file_img_validate.c:469-473 | a signature fills its buffer if its size is fixed, else it fits it |
| Validator.AllowedUnprotectedIff | src/file_img_validate.c:363-383 | the record kinds allowed outside the protected area, as numbers |
| Validator.IsAllowed | src/file_img_validate.c:529-544 | whether the kind is in the list before its end mark |
| Validator.ValidateHash | src/file_img_validate.c:386-416 | passes exactly when the payload is there and is the digest |
| Validator.ValidateKey | src/file_img_validate.c:418-457 | the key found for a payload that is there and short enough becomes pending; otherwise the pending key stays |
| Validator.ValidateSig | src/file_img_validate.c:459-502 | takes the verdict on the payload for the pending key and clears the key; fails on a bad length or missing payload |
| Validator.ValidateRecord | src/file_img_validate.c:523-598 | the effect of one record: continue, stop, or refuse the image |
| Validator.ValidateTlv | src/file_img_validate.c:504-599 | one step keeps the outcome of the remaining records unless it ends the pass with that outcome |
| Validator.ValidateRecords | src/file_img_validate.c:671-708 | accepts exactly when the pass ends with a hash seen and a verified signature |
| Validator.ImgValidate | src/file_img_validate.c:605-717 | faults can only make it refuse; without faults it accepts exactly the acceptable files |
| Validator.PassIsAcceptable | src/file_img_validate.c:523-709 | following the records one by one accepts exactly the record lists that meet the acceptance condition |
| Validator.AcceptsIff | src/file_img_validate.c:605-717 | on any file, even malformed: acceptance is hashed bytes present, area headers in order, areas fitting the partition, and the condition on the records met |
| Validator.AcceptsWellFormed | src/file_img_validate.c:605-717 | on a well-formed image acceptance depends on its record lists and the digest only |
| Validator.SignedImageAccepted | src/file_img_validate.c:605-717 | an image with any other protected records, the hash of what it covers, the hash of a key of the table and a signature that verifies is accepted, whatever follows it |
| Validator.RogueRecordRefused | src/file_img_validate.c:530-548 | an examined unprotected record of any other kind, such as a security counter or a vendor record, refuses the image |
| Validator.TrailingBytesIrrelevant | src/file_img_validate.c:605-717 | what follows a well-formed image in the file does not change the verdict |
| Validator.FirstSignatureDecides | src/file_img_validate.c:575-585 | an image whose first signature of all has no usable key is refused whatever follows |
| Validator.SkippingPassIsAcceptable | src/file_img_validate.c:451-454 | the pass that skips signatures without a usable key accepts exactly complete lists in order whose hash is there and whose last tried signature verifies |
| Validator.BeforeStopDecides | src/file_img_validate.c:575-585 | with a first signature without a usable key, the code accepts exactly when all is in order up to it and a hash and a verifying signature stand before it |
| Validator.WholeListDecides | src/file_img_validate.c:451-454 | on the same list the skipping pass accepts exactly when the records behind are in order too and the whole list proves the image |
| Validator.PassesAgreeIff | src/file_img_validate.c:575-687 | on any record list, exactly when the code and the skipping pass give the same verdict |
| Validator.LaterSignatureNotTried | src/file_img_validate.c:575-585 | a hash, an unknown key, its signature, a known key and a verifying signature: refused, though the skipping pass accepts |
| Validator.TwoSignaturesRefused | src/file_img_validate.c:605-717 | an image with these five records is refused whatever follows it, though the skipping pass accepts its records |
| Validator.RecordsBehindStopIgnored | src/file_img_validate.c:682-687 | lists that agree up to a signature without a usable key end the pass alike, complete or not |
| Validator.UnexaminedRecordsIrrelevant | src/file_img_validate.c:605-717 | two images that differ only in records behind such a signature are accepted alike |
| Validator.AcceptsGrows | src/file_img_validate.c:605-717 | any accepted file, even a malformed one, is accepted with more bytes behind it |
| Validator.ProtectedRecordsAreHashed | src/file_img_validate.c:101-105 | two files with the same hashed bytes report the same records as protected |
| Validator.HashBindsImage | src/file_img_validate.c:386-416 | accepted images with equal hash records have the same header, body and protected records, or exhibit a collision |
| Validator.GetSecurityCounter | src/file_img_validate.c:267-319 | without faults exactly the counter or the error that belongs to the first failing step; a fault never changes a counter |
| Validator.CounterOfImage | src/file_img_validate.c:281-318 | in a well-formed image the counter is the first record of its kind in the protected list if that has four bytes; else the error says whether there is none or a bad one |
| Validator.StoredCounterIsRead | src/file_img_validate.c:312-318 | a counter stored in little-endian order in the protected records is the counter that is read |
| ImgOp.ReadChunk | src/mcuboot_img_op.c:90-116 | the next bytes of the file padded with 0xFF to whole words, inside the buffer |
| ImgOp.ProgramChunk | src/mcuboot_img_op.c:112-125 | programming a padded chunk behind a prefix on erased cells leaves the longer prefix |
| ImgOp.ProgramPart | src/mcuboot_img_op.c:118-122 | a write that stops early leaves a shorter prefix |
| ImgOp.ImgWrite | src/mcuboot_img_op.c:132-146 | called on whole words of erased cells inside the partition only; programs the whole chunk, or a part of it when it fails; without faults a whole-word write inside the partition succeeds |
| ImgOp.ImgCmp | src/mcuboot_img_op.c:148-172 | whether the cells hold the chunk |
| ImgOp.WriteChunk | src/mcuboot_img_op.c:112-125 | extends the copied prefix, or leaves some prefix when it fails |
| ImgOp.CompareChunk | src/mcuboot_img_op.c:112-125 | extends the matching prefix, and does not fail on a matching partition |
| ImgOp.ProcessChunk | src/mcuboot_img_op.c:86-126 | one round: the processed prefix grows by the chunk, or the operation ends with the reason stated |
| ImgOp.ImgProcess | src/mcuboot_img_op.c:20-130 | success processes the whole file; without faults it fails only on a file that is too large or does not match |
| ImgOp.ImgCopy | src/mcuboot_img_op.c:174-178 | success leaves the file followed by erased cells; failure leaves the old cells or a prefix; without faults it succeeds exactly when the file fits |
| ImgOp.ImgCompare | src/mcuboot_img_op.c:180-184 | true exactly when the partition starts with the padded file, and no cell changes |
| ImgOp.MatchesPaddedBytes | src/mcuboot_img_op.c:107-116 | what a match means byte by byte |
| ImgOp.CopyThenCompare | src/mcuboot_img_op.c:174-184 | a comparison after a successful copy succeeds |
| HwRev.U32FromBytesBe | src/fw_img_hw_rev.c:25-34 | or-ing the shifted bytes gives the big-endian number |
| HwRev.EncodedIdIsRead | src/fw_img_hw_rev.c:280-288 | an id stored in big-endian order is read back |
| HwRev.HandleTlvInFile | src/fw_img_hw_rev.c:258-316 | the effect of a record on the revision, payload read from the position; a short read works as if the file ended there |
| HwRev.FindTlvsInFile | src/fw_img_hw_rev.c:66-100 | where the scan starts and ends; the end lies four bytes past the area |
| HwRev.ScanFileRound | src/fw_img_hw_rev.c:361-377 | one round reads a header over the previous one and handles it from the position behind what was read |
| HwRev.ScanFileFrom | src/fw_img_hw_rev.c:356-391 | the scan in a file comes to the outcome of its specification |
| HwRev.ReadHeader | src/fw_img_hw_rev.c:331-341 | the header exactly when the file has 32 bytes |
| HwRev.FindHwRevInFile | src/fw_img_hw_rev.c:318-392 | without faults verdict and revision of the file search, also on failure; always a found revision is complete and its name terminated |
| HwRev.HandleTlvInFlash | src/fw_img_hw_rev.c:102-168 | the effect of a record in flash; a payload outside the partition fails, and a fault can only make it fail |
| HwRev.ReadPair | src/fw_img_hw_rev.c:203-208 | a header exactly when it lies in the partition |
| HwRev.ScanFlashFrom | src/fw_img_hw_rev.c:198-233 | the scan in flash comes to the outcome of its specification; a fault can only make it fail |
| HwRev.FindHwRevInFlash | src/fw_img_hw_rev.c:170-256 | verdict and revision of the flash search; a fault can only make it fail |
| HwRev.SearchesAgree | src/fw_img_hw_rev.c:170-392 | a file and a partition that starts with it give the same verdict and revision when the scanned records lie in the file |
| HwRev.PhantomRecord | src/fw_img_hw_rev.c:96-97 | the header of the unprotected area, which the scan may take for a record, changes nothing |
| HwRev.FindInFileIsLookup | src/fw_img_hw_rev.c:318-392 | on a well-formed image the file search is the lookup in the protected list |
| HwRev.NoProtectedAreaNotFound | src/fw_img_hw_rev.c:343-355 | an image without protected records has no revision |
| HwRev.FirstRecordStoredIff | src/fw_img_hw_rev.c:265-314 | a first name is stored if it has at most 15 bytes, a first id if it has four, and other records change nothing |
| HwRev.StoredName | src/fw_img_hw_rev.c:291-314 | a stored name is terminated in its buffer and is the record's C string |
| HwRev.LookupIff | src/fw_img_hw_rev.c:359-391 | it succeeds exactly when an id and a name stand in order without repetition up to the later one, and returns those two |
| FwInfo.FwInfoCheckInFile | src/mcuboot_fw_update.c:369-397 | whether the whole structure stands at the offset |
| FwInfo.FwInfoFindInFile | src/mcuboot_fw_update.c:399-419 | the version of the first whole structure at an allowed offset; under faults of some whole structure at an allowed offset |
| FwInfo.FileFindIsFirst | src/mcuboot_fw_update.c:399-419 | the structure found is the first whole one at an allowed offset whose magic stands there byte by byte, and none is found only if there is none |
| FwInfo.StoredVersionIsRead | src/mcuboot_fw_update.c:553-595 | a version stored in little-endian order is the version that is compared, in files and in flash |
| FwInfo.FindAfterCopy | src/mcuboot_fw_update.c:399-419 | after copying a prefix the flash search finds the file's structure if its magic was copied, else nothing |
| FwInfo.VersionAfterCopy | src/mcuboot_fw_update.c:553-595 | a copied file shows its version in flash; a cut copy shows none or none that is lower |
| FwInfo.FileAndFlashSearchAgree | src/mcuboot_fw_update.c:399-419 | on files that could hold every allowed structure both searches agree |
| FwInfo.InvalidatedKeepsVersion | src/mcuboot_fw_update.c:51-76 | marking an image invalid keeps its version |
| FwInfo.MarkedCells | src/mcuboot_fw_update.c:51-76 | the mark clears the bits of the validity word that the invalid word lacks and changes no other cell |
| FwInfo.MarkedErasedWord | src/mcuboot_fw_update.c:51-76 | a validity word of all ones becomes the invalid word |
| VersionGate.VersionCmpIff | src/mcuboot_fw_update.c:435-478 | newer means a larger major, then minor, then revision and, in some builds, build number |
| VersionGate.VersionCmpIsOrder | src/mcuboot_fw_update.c:435-478 | the comparison is that of one number per version, lexicographic in its fields |
| VersionGate.VersionCmpTransitive | src/mcuboot_fw_update.c:435-478 | not older is transitive |
| UpdateSpec.SafeAdd | src/file_tlv_priv.h:281-297 | the sum exactly when it fits 32 bits |
| FwUpdate.Device.IsFileExist | src/btldr_fs.c:138-165 | true only for a file that is there, and then always unless the status call fails |
| FwUpdate.Device.OpenFile | src/btldr_fs.c:167-182 | the file's bytes at position zero |
| FwUpdate.Device.UnlinkFile | src/btldr_fs.c:190-205 | removes this file and no other, or nothing when it fails |
| FwUpdate.Device.GetFileSize | src/btldr_fs.c:207-220 | the size, position kept; zero when the end cannot be found; under faults the position is the old one or the end |
| FwUpdate.Device.GetAddressAndSize | src/mcuboot_fa_utils.c:25-39 | the partition's address and size |
| FwUpdate.Device.ValidateB0Signature | src/mcuboot_fw_update.c:78-144 | the first stage's verdict on the file at the start of the shared buffer with the buffer's old bytes behind it, and the buffer it leaves; under faults acceptance means this verdict or the one on the old buffer alone |
| FwUpdate.Device.LoadHeaderFromFile | src/mcuboot_fw_update.c:146-202 | the header of a bootable image that lies in the file |
| FwUpdate.Device.ReadResetAddress | src/mcuboot_fw_update.c:259-283 | the second word of the body |
| FwUpdate.Device.ValidateBody | src/mcuboot_fw_update.c:248-324 | verdict, header and revision after size, reset address, revision search and validation |
| FwUpdate.Device.ValidateFile | src/mcuboot_fw_update.c:223-325 | accepts only files MCUboot's checks accept, also under faults |
| FwUpdate.Device.CheckFile | src/mcuboot_fw_update.c:327-367 | passes exactly the files that pass the first stage's or MCUboot's check, under faults also a loader file in whose place the old buffer was judged; others are removed |
| FwUpdate.Device.FindFwInfo | src/mcuboot_fw_update.c:399-419 | the firmware version in a file; under faults that of some whole structure in it |
| FwUpdate.Device.CheckDowngradePrevention | src/mcuboot_fw_update.c:481-528 | passes only what the downgrade check as written allows, also when the area does not open, and all of it when it opens |
| FwUpdate.Device.ContentsFit | src/mcuboot_fw_update.c:553-603 | version, revision name and downgrade checks against the partition's contents; the reported name fits and the downgrade check holds under every fault |
| FwUpdate.Device.CheckContents | src/mcuboot_fw_update.c:553-603 | the same, removing a refused file |
| FwUpdate.Device.CheckBeforeCopy | src/mcuboot_fw_update.c:538-603 | passes exactly the files that pass the whole gate; a refused file is gone |
| FwUpdate.Device.CopyFile | src/mcuboot_fw_update.c:605-623 | copies as far as the flash permits and removes the file in any case |
| FwUpdate.Device.CheckFileAndUpdate | src/mcuboot_fw_update.c:531-624 | one file's update as a relation between the states before and after, with the contents of the shared buffer |
| FwUpdate.Device.HandoffChecks | src/mcuboot_fw_update.c:649-689 | first stage's verdict, firmware structure and revision name |
| FwUpdate.Device.CheckBeforeHandoff | src/mcuboot_fw_update.c:626-690 | keeps exactly the files that pass the handoff checks; a refused file is gone |
| FwUpdate.Device.CheckUpdateForMcuboot | src/mcuboot_fw_update.c:626-690 | the same as a relation between states, with the shared buffer; no flash changes |
| FwUpdate.Device.ImgInvalidate | src/mcuboot_fw_update.c:51-76 | the image's validity word is programmed and the answer says whether there was a structure, unless the area does not open |
| FwUpdate.Device.MarkS0Invalid | src/mcuboot_fw_update.c:708-713 | only s0 changes |
| FwUpdate.Device.CheckLoaderFiles | src/mcuboot_fw_update.c:697-732 | the other slot's file is installed, the own slot's is checked for the handoff |
| FwUpdate.Device.CheckImageFiles | src/mcuboot_fw_update.c:733-749 | the loader image goes to the secondary and the application to the primary partition |
| FwUpdate.Device.CheckUpdatesOnFs | src/mcuboot_fw_update.c:692-751 | one pass over the four files, ending early with a reboot on a handoff |
| FwUpdate.Device.FwUpdate | src/mcuboot_fw_update.c:753-764 | one boot is a step of the run model; a file system that does not mount may be erased |
| Runs.UpdateEffect | src/mcuboot_fw_update.c:531-624 | a call changes only its file and its partition, which keeps its bytes or gets a prefix of a file that passed its gate, or of a loader file in whose place the old buffer was judged when reads fail |
| Runs.EventEffect | src/mcuboot_fw_update.c:692-764 | a boot leaves a partition alone, marks s0 invalid on a handoff, or copies the partition's own file from another slot |
| Runs.UnmountedBoot | src/mcuboot_fw_update.c:753-764 | a boot that does not mount the file system changes no flash and does not reboot |
| Runs.EveryPartitionHasProvenance | src/mcuboot_fw_update.c:692-764 | over all runs with any faults: initial bytes or a prefix of the partition's own file on erased flash, s0 possibly marked invalid; the file passed its whole gate if the checks work, and otherwise at least the downgrade check and MCUboot's check, or for loaders the first stage's check of the file or of the buffer it was to be read to |
| Runs.CheckGrows | src/mcuboot_fw_update.c:223-325 | a file that passes MCUboot's check passes it with more bytes behind it, and shows the same header |
| Runs.InstalledImageValidates | src/mcuboot_fw_update.c:356-365 | a partition that received any accepted image file passes the check that the file passed |
| Runs.ImagesStayValid | src/mcuboot_fw_update.c:356-365 | over all runs whose flash operations complete an image partition that passes the check keeps passing it |
| Runs.VersionsNeverDecrease | src/mcuboot_fw_update.c:585-595 | over all runs whose file reads succeed no partition ever shows a lower version, whatever flash operations fail |
| Runs.FirmwareNeverLost | src/mcuboot_fw_update.c:553-617 | when flash operations succeed too, firmware once present stays present with no lower version |
| Runs.HandoffDecided | src/mcuboot_fw_update.c:692-732 | when the checks work, a boot hands over exactly when the state before it has a file of its slot that passes the handoff checks |
| Runs.WorkingBoot | src/mcuboot_fw_update.c:692-764 | when everything works, flash, files, shared buffer and reboot after a boot as a function of the state before it |
| Gates.CheckImageIff | src/mcuboot_fw_update.c:146-325 | exactly which files pass MCUboot's check: magic, no non-bootable flag, a body in the file that fits the partition, a reset address in the partition, and acceptance |
| Gates.CheckImageReports | src/mcuboot_fw_update.c:248-307 | the header and revision that the check reports, also for files that fail it |
| Gates.SignedFilePasses | src/mcuboot_fw_update.c:223-325 | a file with an encoded header, a reset address in the partition and a proper signature passes, and its header is reported |
| Gates.OnePartitionOnly | src/mcuboot_fw_update.c:284-293 | no image passes for two partitions |
| Gates.B0AcceptsIff | src/mcuboot_fw_update.c:122-141 | the first stage judges the buffer at the address its structure names, which must lie in the slot |
| Gates.OneSlotOnly | src/mcuboot_fw_update.c:129-135 | no loader passes for two slots |
| Gates.LoadedBytes | src/mcuboot_fw_update.c:104-104 | the buffer that is judged holds the file and behind it its old bytes |
| Gates.ImageGateIff | src/mcuboot_fw_update.c:531-603 | exactly which files an image partition takes: the check, the revision name, a firmware version not below the installed one, and a destination header that loads |
| Gates.LoaderGateIff | src/mcuboot_fw_update.c:531-603 | exactly which files a loader slot takes, with the built-in loader version as the lower bound |
| Gates.HandoffGateIff | src/mcuboot_fw_update.c:626-690 | exactly which files a loader hands over: no installed version is asked for |
| Gates.ReinstallAllowed | src/mcuboot_fw_update.c:585-595 | the installed firmware may be installed again |
| Gates.WrongNameRefused | src/mcuboot_fw_update.c:577-583 | a file whose name record differs from the running loader's name is neither installed nor handed over |
| Gates.EachFileHasItsPartition | src/mcuboot_fw_update.c:692-751 | without faults or a handoff each of the four files goes to its partition, and none is left |
| Slots.S1StaysBootable | src/mcuboot_fw_update.c:697-732 | over all runs whose flash operations complete a bootable s1 stays bootable, as long as a file of s1 that would be installed is accepted with erased flash behind it too |
| Slots.SelfContainedInstallsBootable | src/mcuboot_fw_update.c:104-140 | that condition holds of a file on which the first stage's verdict does not depend on the bytes behind it |
| Slots.S0LostOnlyByHandoff | src/mcuboot_fw_update.c:708-713 | with that condition on the file of s0, s0 stops being bootable only in a handoff, with the update's file still there |
| Slots.OtherSlotBootableIff | src/mcuboot_fw_update.c:697-732 | after a boot without faults the other slot is bootable exactly when its passing file is accepted on erased flash, or there is none and it was bootable before |
| Slots.TruncatedFilePasses | src/mcuboot_fw_update.c:104-140 | a truncated loader passes the first stage's check over a buffer that holds the whole one |
| Slots.TruncatedFileLosesS1 | src/mcuboot_fw_update.c:104-140 | such a file of s1 is installed without any fault and s1 is not bootable, unless the first stage accepts the truncated loader |
| Slots.HandoffOutcome | src/mcuboot_fw_update.c:697-732 | all partitions and files after a handoff of either slot and a boot of the other: the file is installed exactly when it passes the version and downgrade checks, otherwise the slot keeps its contents, s0 with the mark; the others are updated as usual |
| Slots.RunningSlotUntouched | src/mcuboot_fw_update.c:697-732 | whatever fails, a boot does not change its own slot except for the handoff mark |
| Slots.SlotRemainsIff | src/mcuboot_fw_update.c:697-713 | whatever flash operations fail, every boot of a bootable s0 leaves a bootable slot if and only if the state before it has nothing to hand over, or a mark that the first stage ignores, or an s1 that survives: bootable and not replaced, or replaced with succeeding writes by a file accepted on erased flash |
| Slots.BothSlotsCanBeLost | src/mcuboot_fw_update.c:617-713 | from every other state one boot loses both slots |
| Slots.WorkingBootKeepsSlotIff | src/mcuboot_fw_update.c:697-713 | without any fault a boot of a bootable s0 leaves a bootable slot exactly from those states |
| Slots.InstallsCheckedOnlyIff | src/mcuboot_fw_update.c:78-144 | every loader file that a boot installs had passed its check, unless reading can fail, the file fails the check, the old buffer passes it and the file has the version to get in; from exactly those states a boot installs it |
| Slots.UncheckedBoot | src/mcuboot_fw_update.c:78-144 | from those states there is a boot that installs the file whole |
| Quiescence.BootRemoves | src/mcuboot_fw_update.c:692-751 | a boot that does not reboot leaves no update file; one without files does not reboot |
| Quiescence.Converges | src/mcuboot_fw_update.c:692-763 | from any files and either slot, also when reads fail: at most two reboots, then all four files are gone |
| Quiescence.ConvergesIff | src/mcuboot_fw_update.c:692-763 | after any number of boots a file is left if and only if the first boot had a file to hand over and all were boots of its slot; memory may change between boots if the file does not depend on it |
| Quiescence.RunsFromS0Converge | src/mcuboot_fw_update.c:708-713 | a run that starts in s0 comes to rest after two boots when the first stage starts bootable slots only |
| Quiescence.HandoffWaitsForever | src/mcuboot_fw_update.c:727-731 | an update of s1 reboots without end while the first stage keeps starting s1, with flash and files unchanged |
| Quiescence.WaitingBootExists | src/mcuboot_fw_update.c:727-731 | in such a state a boot of s1 can reboot and leave flash and files as they were |
| Downgrade.DowngradeAllowedIff | src/mcuboot_fw_update.c:503-521 | the check accepts loaders not older than the built-in version and every other image once the destination header loads |
| Downgrade.DowngradeCheckGap | src/mcuboot_fw_update.c:503 | the exact inputs on which the check differs from one against the destination's version |
| Downgrade.EventKeepsImageVersion | src/mcuboot_fw_update.c:481-528 | one boot with any faults under the check against the destination's version: the loaded image version does not decrease, also after a cut copy or the handoff mark |
| Downgrade.IntendedCheckIsMonotone | src/mcuboot_fw_update.c:481-528 | over all runs whose installed files that check had allowed, loaded image versions do not decrease |
| Downgrade.VersionLoweredIff | src/mcuboot_fw_update.c:503-623 | a boot without faults lowers the image version of a partition, loader slots included, exactly when it installs a file that passes the gate with a header of a lower version that loads |
| Downgrade.DowngradeExists | src/mcuboot_fw_update.c:503-623 | from every state with only such an application file there is a boot that installs it and reboots |

## Left out

- GPIO, LED, button, supercapacitor, external flash power, logging and startup hooks: no update logic in them.
- Real LittleFS, mounting and mutexes: replaced by a map of files; reading, status, unlinking and mounting may fail.
- Cryptography, fault-injection hardening, `bl_validate_firmware` and the first stage's choice of a slot: parameters, the choice being any sequence of slots.
- Pure signatures, hardware and built-in keys, rollback counters, encryption and loading to RAM: build variants that are not used together with the one modelled.
- Swap status and sector accessors of src/file_tlv_priv.h: not used by the code modelled.
- Flash contents are values of a field, not an array: the aliasing of memory-mapped reads is not modelled.
- Power loss inside an operation: a boot is one step; a cut copy is a failing write.
- HwRev.ScanFileRound: says nothing of the revision when file reads fail, except that its name stays terminated, because any part of it may be missing.
- HwRev.ScanFileFrom: the same; a found revision is complete in any case.
- HwRev.FindHwRevInFile: the same; which bytes of the id and the name were read is left open when file reads fail.
- FwUpdate.Device.FindFwInfo: says not which structure was found when file reads fail, because an earlier one may have been overlooked.
- Runs.UpdateEffect: the revision name check is stated for calls whose checks work only, because a failing read may leave any name.
- Runs.EveryPartitionHasProvenance: the same for the boots of a run.
- Slots.InstallsCheckedOnlyIff: for the same reason the boot that it constructs may need such a name.
- HwRev.ScanFlashFrom: partitions of 2 GiB and more are excluded, because flash offsets are signed 32-bit numbers.
- HwRev.FindHwRevInFlash: the same partitions are excluded.
- Null arguments: only the iterator that was not started is modelled; the other references cannot be null.
- Applications that write flash partitions themselves: between boots only files and memory change.
