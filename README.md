# Binary update test, NTP client command and kernel heap placement

This project models three pieces of a TinyAra-style embedded OS in Dafny and proves properties of them.

- **Binary update test application** (`BinaryUpdate`, with `BinaryHeader`, `Crc`, `CString` and `ByteOrder`). It makes a copy of the stored image of the application `micom` in a new slot of the binary manager. The steps are:
  1. read the image's fixed-size header;
  2. either rewrite the version as the old version plus one, or rename the copy to `newapp` version `20200421`;
  3. stream the payload through a 512-byte buffer, folding every chunk into the running `crc32part` checksum;
  4. back-patch the checksum field. For the invalid-binary scenario the checksum is patched plus one.

  A class holds the failure counter `fail_cnt`. Every scenario of the fixed six-step sequence adds to it, and `show_success_ratio` reports and clears it. Files are byte sequences behind small handle classes. A read returns what is left when the file ends. A write returns fewer bytes once the slot is full, and -1 when no byte fits. Seek results and all binary-manager answers are values supplied by the caller.
- **NTP client shell command** (`NtpClient`). The model classifies `argv` into start/stop/status/date/link or a rejection. For start it fills the server table `g_server_conn` in place: zero everything, then one host per entry on port 123. It maps the NTP library's answer to the exit value. It also gives the daemon-state names, the link-state texts and the time-zone shift used for `date`.
- **Kernel heap placement** (`KernelHeap`). `up_allocate_kheap` rounds the idle stack top down to 8 bytes and clamps it into `[KREGION_START, KREGION_END]`. The heap size is the 32-bit distance to the region's end. `up_add_kregion` gives every further region to its heap: `mm_initialize` when the heap is still empty, `mm_addregion` otherwise.

## Behaviour the model follows as the code is written

- `fail_cnt` is cleared by `show_success_ratio` at the end of a batch. It is not cleared at the start of one.
- `binary_update_same_version_test` counts a failure only when `binary_manager_open_new_entry` returns exactly 0. Any other non-negative descriptor is not counted.
- A download adds to `fail_cnt` only when it stops before a slot exists, or when its last `ret` is negative. A short header or payload write therefore counts as a failure only when the write returned -1. A payload read cut short by the end of the source never counts.
- `bin_size` is assigned to an `int`, so a value of 2^31 or more gives a negative total and an empty copy loop.
- `binary_update_download_new_binary` takes the image's size from `ftell` after seeking to the end of the same file. A size that does not fit a 32-bit `long` reads as -1 and is rejected like an empty image.
- A `header_size` larger than the header record would make `crc32part` read past the record. The model requires that the stored header's `header_size` keeps the checksum scope inside the record (`ScopeFits`).

## Model

| member | source | states |
|---|---|---|
| ByteOrder.Unsigned32 | loadable_apps/loadable_sample/wifiapp/binary_update.c:105 | an `int` printed with `%u` is its value modulo 2^32, and is unchanged when already in range |
| ByteOrder.Signed32 | loadable_apps/loadable_sample/wifiapp/binary_update.c:115 | `bin_size` stored into `int total_size` stays in the 32-bit signed range, agrees with it modulo 2^32, and is non-negative exactly when at most INT32_MAX |
| ByteOrder.Increment32 | loadable_apps/loadable_sample/wifiapp/binary_update.c:137-140 | `crc_hash++` adds one with wrap-around and always changes the value |
| ByteOrder.TruncDiv | loadable_apps/loadable_sample/wifiapp/binary_update.c:133 | C division of an `int` by a positive divisor truncates toward zero: the remainder lies between 0 and the divisor for a non-negative dividend, and between minus the divisor and 0 for a negative one |
| ByteOrder.LeValueOfBytes | loadable_apps/loadable_sample/wifiapp/binary_update.c:85-108 | a multi-byte header field read back from its little-endian image is the value written |
| ByteOrder.LeBytesOfValue | loadable_apps/loadable_sample/wifiapp/binary_update.c:85-108 | the image of a field read from bytes is those bytes again |
| Crc.Crc32Part | loadable_apps/loadable_sample/wifiapp/binary_update.c:116-131 | no contract of its own: a left fold of the byte step over the buffer from the running value. Crc32PartAppend and ChunkedIsWhole state its properties |
| Crc.Crc32PartAppend | loadable_apps/loadable_sample/wifiapp/binary_update.c:116-131 | feeding a buffer and then another is feeding their concatenation, so the running checksum can be resumed after any chunk |
| Crc.FeedChunksIsWhole | loadable_apps/loadable_sample/wifiapp/binary_update.c:119-134 | one `crc32part` call per chunk, each resuming the last, gives the checksum of all the chunks' bytes |
| Crc.Chunks | loadable_apps/loadable_sample/wifiapp/binary_update.c:119-121 | splitting into at most BUFFER_SIZE bytes per round loses nothing: the chunks flatten back to the data, all are non-empty, all but the last are full |
| Crc.ChunkedIsWhole | loadable_apps/loadable_sample/wifiapp/binary_update.c:119-134 | the chunked checksum equals the whole-buffer checksum |
| CString.Utoa32Length | loadable_apps/loadable_sample/wifiapp/binary_update.c:105 | a 32-bit unsigned value prints in at most ten digits, so it fits the version field with its NUL |
| CString.Utoa | loadable_apps/loadable_sample/wifiapp/binary_update.c:105 | `%u` prints only digits, at least one, with no leading zero |
| CString.Atoi | loadable_apps/loadable_sample/wifiapp/binary_update.c:93 | no contract of its own: leading white space, an optional sign, then the digits up to the first non-digit. DigitPrefixStops, AtoiOfUtoa and AtoiOfSnprintfUnsigned state its properties |
| CString.DigitsValueOfUtoa | loadable_apps/loadable_sample/wifiapp/binary_update.c:93-105 | the digits `%u` prints have the printed number as their value |
| CString.DigitPrefixStops | loadable_apps/loadable_sample/wifiapp/binary_update.c:93 | `atoi` reads the digits up to the first non-digit and no further |
| CString.AtoiOfUtoa | loadable_apps/loadable_sample/wifiapp/binary_update.c:93-105 | `atoi` reads back what `%u` printed, whatever non-digit follows |
| CString.SnprintfUnsigned | loadable_apps/loadable_sample/wifiapp/binary_update.c:105 | `snprintf(bin_ver, BIN_VER_MAX, "%u", v)` keeps the field's size and, when the digits fit, puts them first, then a NUL, leaving the rest of the field as it was |
| CString.AtoiOfSnprintfUnsigned | loadable_apps/loadable_sample/wifiapp/binary_update.c:93-105 | the rewritten version field reads back through `atoi` as the version printed into it |
| CString.Strncpy | loadable_apps/loadable_sample/wifiapp/binary_update.c:223-224 | `strncpy` keeps the field's size, copies a shorter source and pads with NULs, or copies exactly the first size characters |
| CString.CStrOfStrncpy | loadable_apps/loadable_sample/wifiapp/binary_update.c:223-224 | a name shorter than the field is the field's C string after `strncpy` |
| CString.CStr | loadable_apps/loadable_sample/wifiapp/binary_update.c:223-224 | the C string of a fixed-size field is no longer than the field and holds no NUL |
| BinaryHeader.Encode | loadable_apps/loadable_sample/wifiapp/binary_update.c:108 | the header image written is HEADER_SIZE bytes: the checksum's four bytes, then the rest of the record |
| BinaryHeader.Decode | loadable_apps/loadable_sample/wifiapp/binary_update.c:85-86 | a header is read exactly when HEADER_SIZE bytes arrive, and is then well formed |
| BinaryHeader.DecodeEncode | loadable_apps/loadable_sample/wifiapp/binary_update.c:85-108 | reading back a written header gives the same header |
| BinaryHeader.EncodeDecode | loadable_apps/loadable_sample/wifiapp/binary_update.c:85-108 | writing back a header that was read gives the same bytes |
| BinaryHeader.ChecksumScope | loadable_apps/loadable_sample/wifiapp/binary_update.c:116 | the checksummed header bytes are `header_size` bytes of the image starting right after the checksum field |
| BinaryHeader.ScopeIgnoresChecksum | loadable_apps/loadable_sample/wifiapp/binary_update.c:116-148 | the checksummed bytes do not depend on the checksum field, so back-patching it does not change them |
| BinaryHeader.PatchChecksumBytes | loadable_apps/loadable_sample/wifiapp/binary_update.c:143-148 | storing a new checksum changes the first four bytes of the image and nothing else |
| BinaryHeader.ReplaceVersionBytes | loadable_apps/loadable_sample/wifiapp/binary_update.c:105 | rewriting the version changes exactly the BIN_VER_MAX bytes of the version field |
| BinaryHeader.ReplaceNameBytes | loadable_apps/loadable_sample/wifiapp/binary_update.c:223 | rewriting the name changes exactly the BIN_NAME_MAX bytes of the name field |
| BinaryHeader.ReplaceNameAndVersionBytes | loadable_apps/loadable_sample/wifiapp/binary_update.c:223-224 | rewriting name and version changes those two fields and keeps every other byte |
| BinaryUpdate.SourceFile.Read | loadable_apps/loadable_sample/wifiapp/binary_update.c:121 | a read returns min(n, bytes left), advances by that much and yields exactly the next bytes |
| BinaryUpdate.SourceFile.Open | loadable_apps/loadable_sample/wifiapp/binary_update.c:77 | `open(filepath, O_RDONLY)` on a stored image gives an open handle at offset 0 over its bytes |
| BinaryUpdate.SourceFile.Close | loadable_apps/loadable_sample/wifiapp/binary_update.c:157 | `close(read_fd)` leaves the handle closed |
| BinaryUpdate.WriteResult | loadable_apps/loadable_sample/wifiapp/binary_update.c:108 | a write of n bytes returns -1 exactly when some byte is asked for and the slot is full; otherwise a count of at most n that stays within the slot; something is written whenever there is room; a short count fills the slot exactly |
| BinaryUpdate.Overwrite | loadable_apps/loadable_sample/wifiapp/binary_update.c:148 | writing at an offset keeps the bytes before it, puts the new bytes there, keeps the bytes after them, and grows the file only when the write runs past its end |
| BinaryUpdate.SlotFile.Create | loadable_apps/loadable_sample/wifiapp/binary_update.c:96 | `binary_manager_open_new_entry` hands back an open, empty slot at offset 0 with the given capacity and seek result |
| BinaryUpdate.SlotFile.Close | loadable_apps/loadable_sample/wifiapp/binary_update.c:156 | `close(write_fd)` leaves the slot closed and its contents as they were |
| BinaryUpdate.SlotFile.Write | loadable_apps/loadable_sample/wifiapp/binary_update.c:126 | a write stores what fits at the current position and returns its count, or -1 when nothing fits |
| BinaryUpdate.SlotFile.SeekStart | loadable_apps/loadable_sample/wifiapp/binary_update.c:143 | `lseek(fd, 0, SEEK_SET)` returns the slot's seek result and moves to offset 0 only when that is 0 |
| BinaryUpdate.ChunkSize | loadable_apps/loadable_sample/wifiapp/binary_update.c:120 | each round reads between 1 and BUFFER_SIZE bytes and never past the total; a short chunk is the last one |
| BinaryUpdate.ProgressBounds | loadable_apps/loadable_sample/wifiapp/binary_update.c:133 | the printed percentage stays within 0..100 and is 100 exactly when everything is copied |
| BinaryUpdate.Progress | loadable_apps/loadable_sample/wifiapp/binary_update.c:133 | no contract of its own: the percentage in unbounded integers. ProgressBounds states its properties |
| BinaryUpdate.ProgressAsWritten | loadable_apps/loadable_sample/wifiapp/binary_update.c:133 | the percentage as the 32-bit `int` expression computes it; it agrees with Progress as long as `copy_size * 100` does not overflow |
| BinaryUpdate.ProgressOverflows | loadable_apps/loadable_sample/wifiapp/binary_update.c:252 | a 21474837-byte payload makes the last chunk print -99 where Progress gives 100 |
| BinaryUpdate.CopiedBeforeStop | loadable_apps/loadable_sample/wifiapp/binary_update.c:119-134 | the loop moves all the bytes when there is room, otherwise whole buffers up to the first chunk that does not fit |
| BinaryUpdate.CopyExpectedBounds | loadable_apps/loadable_sample/wifiapp/binary_update.c:119-134 | the copy completes exactly when the payload fits both files; it stops after whole buffers otherwise; the checksum covers exactly the bytes copied, and the bytes appended are a prefix of the source's payload |
| BinaryUpdate.CopyExpected | loadable_apps/loadable_sample/wifiapp/binary_update.c:114-134 | no contract of its own: the copy loop in closed form. CopyExpectedBounds, ReadStopOutcome, WriteStopOutcome and DoneOutcome state its properties, and CopyPayload proves the loop equal to it |
| BinaryUpdate.CopyChecksumByChunks | loadable_apps/loadable_sample/wifiapp/binary_update.c:119-131 | the copy's checksum is the running `crc32part` resumed on each chunk of at most BUFFER_SIZE bytes of what it moved |
| BinaryUpdate.ReadStopOutcome | loadable_apps/loadable_sample/wifiapp/binary_update.c:121-125 | a short read ends the loop with the bytes left as `ret` and everything before that chunk copied |
| BinaryUpdate.WriteStopOutcome | loadable_apps/loadable_sample/wifiapp/binary_update.c:126-130 | a short or failed write ends the loop with the slot full and -1 or the room left as `ret` |
| BinaryUpdate.DoneOutcome | loadable_apps/loadable_sample/wifiapp/binary_update.c:119-135 | a loop that ran out of bytes to copy has copied and checksummed the whole payload |
| BinaryUpdate.CopyRound | loadable_apps/loadable_sample/wifiapp/binary_update.c:120-133 | one round either copies and checksums the next chunk or ends the loop as the closed form says |
| BinaryUpdate.WriteChunk | loadable_apps/loadable_sample/wifiapp/binary_update.c:126-132 | writing the chunk just read appends it and folds it into the checksum, or ends the loop with the slot full |
| BinaryUpdate.CopyPayload | loadable_apps/loadable_sample/wifiapp/binary_update.c:114-134 | the copy loop ends as the closed form CopyExpected says, with the slot holding the header followed by the appended payload bytes |
| BinaryUpdate.PayloadLength | loadable_apps/loadable_sample/wifiapp/binary_update.c:115 | the loop copies `bin_size` bytes when it fits an `int`, and none when it does not |
| BinaryUpdate.Patched | loadable_apps/loadable_sample/wifiapp/binary_update.c:137-140 | the back-patched checksum is the computed one plus one (with wrap-around) for the invalid-binary download and the computed one otherwise; it differs exactly for the invalid-binary download |
| BinaryUpdate.WrittenImageStages | loadable_apps/loadable_sample/wifiapp/binary_update.c:107-161 | the header write fails only in a slot smaller than a header; the download completes exactly when the payload fits both files and the seek succeeds; the slot never holds more than its capacity |
| BinaryUpdate.WrittenImage | loadable_apps/loadable_sample/wifiapp/binary_update.c:107-161 | no contract of its own: what the slot holds and how the download ends after the header write, the copy and the back-patch. WrittenImageStages and WrittenImageContents state its properties, and WriteImage proves the write path equal to it |
| BinaryUpdate.WrittenImageContents | loadable_apps/loadable_sample/wifiapp/binary_update.c:107-152 | the slot holds the rewritten header and then payload bytes in order; once complete it holds the header with the patched checksum and the whole payload |
| BinaryUpdate.ChecksumOfImage | loadable_apps/loadable_sample/wifiapp/binary_update.c:116-148 | a header-plus-payload image passes the checksum test exactly when its checksum field is the checksum of its scope and payload |
| BinaryUpdate.CompletedHeader | loadable_apps/loadable_sample/wifiapp/binary_update.c:142-152 | a completed download's slot reads back as the rewritten header carrying the patched checksum |
| BinaryUpdate.CompletedChecksum | loadable_apps/loadable_sample/wifiapp/binary_update.c:116-152 | a completed download passes the checksum test exactly when it is not the invalid-binary download |
| BinaryUpdate.PatchedImage | loadable_apps/loadable_sample/wifiapp/binary_update.c:143-148 | writing four bytes at offset 0 of the image is storing them as the header's checksum |
| BinaryUpdate.WrittenImageAfterCopy | loadable_apps/loadable_sample/wifiapp/binary_update.c:135-161 | after the copy loop, the download stops with the loop's outcome, fails at the seek, or completes with the patched header |
| BinaryUpdate.FinishImage | loadable_apps/loadable_sample/wifiapp/binary_update.c:137-152 | after a full copy: patch the checksum after a successful seek and return 4; after a failed seek leave the slot unchanged and return the seek result |
| BinaryUpdate.CopyAndPatch | loadable_apps/loadable_sample/wifiapp/binary_update.c:114-152 | copy then back-patch, ending in the stage and slot contents the closed form gives |
| BinaryUpdate.WriteImage | loadable_apps/loadable_sample/wifiapp/binary_update.c:107-152 | the whole write path into an open slot yields exactly WrittenImage |
| BinaryUpdate.CopyIntoSlot | loadable_apps/loadable_sample/wifiapp/binary_update.c:107-157 | the write path followed by closing both handles |
| BinaryUpdate.StoredHeaderEncodes | loadable_apps/loadable_sample/wifiapp/binary_update.c:85 | the header read from a stored image is its first HEADER_SIZE bytes |
| BinaryUpdate.StoredHeader | loadable_apps/loadable_sample/wifiapp/binary_update.c:85 | the header read from a stored image is well formed |
| BinaryUpdate.NextVersion | loadable_apps/loadable_sample/wifiapp/binary_update.c:93-94 | no contract of its own: `atoi` of the stored version plus one. VersionRewrittenFacts and DownloadedVersion state what it is used for |
| BinaryUpdate.ReadHeader | loadable_apps/loadable_sample/wifiapp/binary_update.c:84-91 | the header read returns min(HEADER_SIZE, file size) and, when complete, the stored header |
| BinaryUpdate.VersionRewritten | loadable_apps/loadable_sample/wifiapp/binary_update.c:105 | the version rewrite keeps the header well formed and keeps its checksum scope inside the record |
| BinaryUpdate.VersionRewrittenFacts | loadable_apps/loadable_sample/wifiapp/binary_update.c:93-105 | the rewrite changes only the version bytes, and the new version reads back as the number requested from the binary manager |
| BinaryUpdate.Onboarded | loadable_apps/loadable_sample/wifiapp/binary_update.c:222-224 | renaming keeps the header well formed and keeps its checksum scope inside the record |
| BinaryUpdate.OnboardedFacts | loadable_apps/loadable_sample/wifiapp/binary_update.c:214-224 | renaming changes only name and version bytes; the C strings are `newapp` and `20200421`; that version reads as the number the slot was requested with |
| BinaryUpdate.NewAppVersionValue | loadable_apps/loadable_sample/wifiapp/binary_update.c:214-224 | `atoi` of the copied version field and of NEW_APP_VERSION are both 20200421 |
| BinaryUpdate.DownloadedVersion | loadable_apps/loadable_sample/wifiapp/binary_update.c:93-153 | a completed version-bump download leaves a header whose version reads back as the version requested |
| BinaryUpdate.DownloadedNewBinary | loadable_apps/loadable_sample/wifiapp/binary_update.c:214-270 | a completed onboarding leaves a header named `newapp` version `20200421` with a valid checksum |
| BinaryUpdate.DownloadResult | loadable_apps/loadable_sample/wifiapp/binary_update.c:62-162 | the outcome of `binary_update_download_binary` from its inputs alone: no image gives OpenFailed, a short image HeaderReadFailed, a refused slot EntryFailed, and otherwise the download into the slot at the stored version plus one |
| BinaryUpdate.DownloadResultFailures | loadable_apps/loadable_sample/wifiapp/binary_update.c:62-162 | the download counts one failure when it stops before a slot exists and none when it completes; it completes exactly when the image exists and holds a header, the slot is granted, the seek succeeds and the payload fits both files |
| BinaryUpdate.FileSize | loadable_apps/loadable_sample/wifiapp/binary_update.c:187-188 | `ftell` after seeking to the end gives the image's length, or -1 exactly when that length does not fit a 32-bit `long` |
| BinaryUpdate.FileSizeAsWritten | loadable_apps/loadable_sample/wifiapp/binary_update.c:186-189 | the unchecked size probe gives FileSize of the image, and is defined only when the image exists |
| BinaryUpdate.SizeProbeUndefinedWithoutImage | loadable_apps/loadable_sample/wifiapp/binary_update.c:186-189 | a run the download accepts in which the image is missing, so the unchecked probe hands NULL to `fseek` |
| BinaryUpdate.OnboardResult | loadable_apps/loadable_sample/wifiapp/binary_update.c:164-279 | the outcome of `binary_update_download_new_binary` from its inputs alone, with the size probe's stream checked: no image, a size the free space rejects, a short image, a refused slot, or the download into the slot for `newapp` version `20200421` |
| BinaryUpdate.OnboardResultFailures | loadable_apps/loadable_sample/wifiapp/binary_update.c:186-196 | a missing image counts one failure; an empty image or one at least as large as the free space is rejected with one failure; a completed onboarding counts none and its image has 1 .. available_size - 1 bytes |
| BinaryUpdate.TestPassed | loadable_apps/loadable_sample/wifiapp/binary_update.c:305-335 | no contract of its own: a valid image must change the running version and an invalid one must keep it. CheckTestResult is proved to return OK exactly when it holds |
| BinaryUpdate.ExpectedReport | loadable_apps/loadable_sample/wifiapp/binary_update.c:494-515 | no contract of its own: the report one round produces, from the round's answers alone. RunTests is proved equal to it |
| BinaryUpdate.ExpectedReports | loadable_apps/loadable_sample/wifiapp/binary_update.c:539-550 | there is one report per run |
| BinaryUpdate.ExpectedReportsAt | loadable_apps/loadable_sample/wifiapp/binary_update.c:539-550 | report k of a batch is ExpectedReport of rounds(k + 1) |
| BinaryUpdate.RepeatedScenarios | loadable_apps/loadable_sample/wifiapp/binary_update.c:539-550 | k runs make 6k scenario steps |
| BinaryUpdate.RepeatedScenariosAt | loadable_apps/loadable_sample/wifiapp/binary_update.c:494-515 | step i of k runs is the scenario at position i modulo 6 of the fixed order |
| BinaryUpdate.RepeatedOnce | loadable_apps/loadable_sample/wifiapp/binary_update.c:555-558 | one run is the scenario order itself |
| BinaryUpdate.RoundFailures | loadable_apps/loadable_sample/wifiapp/binary_update.c:494-515 | no contract of its own: the sum of what each of the six scenarios adds to `fail_cnt`. CleanRound states when it is 0 |
| BinaryUpdate.TotalFailures | loadable_apps/loadable_sample/wifiapp/binary_update.c:539-550 | no contract of its own: the failures of a batch, run by run. CleanRunsTotal states when it is 0 |
| BinaryUpdate.CleanRound | loadable_apps/loadable_sample/wifiapp/binary_update.c:494-515 | a run counts no failure exactly when every status answer is as expected, no download counts one, the invalid image kept the version and the valid one changed it |
| BinaryUpdate.CleanRunsTotal | loadable_apps/loadable_sample/wifiapp/binary_update.c:539-550 | a batch counts no failure exactly when each of its runs counts none |
| BinaryUpdate.BinaryUpdateTest.constructor | loadable_apps/loadable_sample/wifiapp/binary_update.c:53 | `fail_cnt` starts at 0 and no scenario has run |
| BinaryUpdate.BinaryUpdateTest.WriteNewEntry | loadable_apps/loadable_sample/wifiapp/binary_update.c:96-161 | a refused slot counts one failure and closes the source; otherwise the slot ends as WrittenImage, both handles are closed, and a failure counts exactly when the last `ret` is negative |
| BinaryUpdate.BinaryUpdateTest.DownloadBinary | loadable_apps/loadable_sample/wifiapp/binary_update.c:62-162 | the result is DownloadResult of the inputs; every exit path: what stage ends it, what it adds to `fail_cnt`, that every opened handle is closed, and the slot's exact contents with the stored version plus one |
| BinaryUpdate.BinaryUpdateTest.DownloadNewBinary | loadable_apps/loadable_sample/wifiapp/binary_update.c:164-279 | the result is OnboardResult of the inputs; the size checked against the free space is the image's own length as `ftell` reports it; every exit path, its `fail_cnt` increment, the closed handles, and the slot's contents with the renamed header |
| BinaryUpdate.BinaryUpdateTest.CheckTestResult | loadable_apps/loadable_sample/wifiapp/binary_update.c:305-335 | OK exactly when a valid image changed the version or an invalid one did not; counts a failure otherwise |
| BinaryUpdate.BinaryUpdateTest.GetInfo | loadable_apps/loadable_sample/wifiapp/binary_update.c:352-364 | the record is the binary manager's; a non-OK answer counts a failure |
| BinaryUpdate.BinaryUpdateTest.GetInfoAll | loadable_apps/loadable_sample/wifiapp/binary_update.c:337-350 | a non-OK answer counts a failure |
| BinaryUpdate.BinaryUpdateTest.Reload | loadable_apps/loadable_sample/wifiapp/binary_update.c:366-378 | a non-OK answer counts a failure |
| BinaryUpdate.BinaryUpdateTest.RegisterCallback | loadable_apps/loadable_sample/wifiapp/binary_update.c:380-392 | a non-OK answer counts a failure; the step is appended to the scenario trace |
| BinaryUpdate.BinaryUpdateTest.UnregisterCallback | loadable_apps/loadable_sample/wifiapp/binary_update.c:394-406 | a non-OK answer counts a failure; the step is appended to the scenario trace |
| BinaryUpdate.BinaryUpdateTest.SameVersionTest | loadable_apps/loadable_sample/wifiapp/binary_update.c:408-425 | asks for the current version's slot; counts a failed query and a slot granted as descriptor 0; appends its step to the trace |
| BinaryUpdate.BinaryUpdateTest.InvalidBinaryTest | loadable_apps/loadable_sample/wifiapp/binary_update.c:453-470 | its download is DownloadResult of the round's answers for the invalid image; passes exactly when the running version is unchanged; adds the query, download, reload and verdict failures; appends its step to the trace |
| BinaryUpdate.BinaryUpdateTest.NewVersionTest | loadable_apps/loadable_sample/wifiapp/binary_update.c:427-451 | its download is DownloadResult of the round's answers for the valid image; passes exactly when the running version changed; the old version's file is unlinked exactly then; appends its step to the trace |
| BinaryUpdate.BinaryUpdateTest.NewBinaryTest | loadable_apps/loadable_sample/wifiapp/binary_update.c:472-492 | its download is OnboardResult of the round's answers; onboard, reload, query, list, then always unlink `newapp_20200421`; appends its step to the trace |
| BinaryUpdate.BinaryUpdateTest.RunTests | loadable_apps/loadable_sample/wifiapp/binary_update.c:494-515 | the trace grows by the six scenarios in their fixed order; the report is ExpectedReport of the round's answers; `fail_cnt` grows by RoundFailures of that report |
| BinaryUpdate.BinaryUpdateTest.ShowSuccessRatio | loadable_apps/loadable_sample/wifiapp/binary_update.c:517-522 | reports `rep_cnt - fail_cnt` and `fail_cnt`, then clears the counter |
| BinaryUpdate.BinaryUpdateTest.ExecuteNTimes | loadable_apps/loadable_sample/wifiapp/binary_update.c:539-550 | runs max(n, 0) rounds, round k answered by rounds(k); the reports are ExpectedReports of the rounds; the trace is that many repetitions of the scenario order; the success figure is n minus the old counter and all failures the reports count; the counter ends at 0 |
| BinaryUpdate.BinaryUpdateTest.BinaryUpdateMain | loadable_apps/loadable_sample/wifiapp/binary_update.c:555-558 | a single round: its report is ExpectedReport of rounds(1), the trace grows by the scenario order once, and the success figure is 1 minus the old counter and that round's failures |
| NtpClient.ShowDate | apps/examples/ntpclient_test/ntpclient_main.c:134-158 | a time is shown exactly for a time-zone index inside the table |
| NtpClient.ShowDateResult | apps/examples/ntpclient_test/ntpclient_main.c:134-158 | the function returns 0 or -1 |
| NtpClient.ShowDateOffsets | apps/examples/ntpclient_test/ntpclient_main.c:100-103 | UTC is shown unshifted, KST 32400 seconds ahead, any index past the table gives -1 |
| NtpClient.ShowDateShift | apps/examples/ntpclient_test/ntpclient_main.c:145-146 | the shown time is a whole number of hours, at most nine, ahead of UTC |
| NtpClient.DaemonStatusName | apps/examples/ntpclient_test/ntpclient_main.c:160-187 | a name is printed exactly for the five daemon states, and each name fits the 16-byte buffer with its NUL |
| NtpClient.DaemonStatusNameRoundTrip | apps/examples/ntpclient_test/ntpclient_main.c:165-180 | each state's name identifies the state |
| NtpClient.DaemonStatusNameOfState | apps/examples/ntpclient_test/ntpclient_main.c:165-180 | each of the five names is the name of the state it stands for |
| NtpClient.DaemonStatusOfName | apps/examples/ntpclient_test/ntpclient_main.c:165-180 | no contract of its own: the state a printed name stands for. DaemonStatusNameRoundTrip and DaemonStatusNameOfState state that it inverts the name table |
| NtpClient.LinkStatusText | apps/examples/ntpclient_test/ntpclient_main.c:290-307 | a link text is printed exactly for the three link states; any other value is "Unknown" and fails |
| NtpClient.Command.CmdType | apps/examples/ntpclient_test/ntpclient_main.c:205 | `cmdtype` is 1 exactly for start, 2 for stop, 3 for status, 4 for date and 5 for link |
| NtpClient.Classify | apps/examples/ntpclient_test/ntpclient_main.c:211-248 | arguments are accepted exactly as `start` with 4..3+MAX_NTP_SERVER_NUM arguments, or as one of the four keywords alone; start takes `atoi(argv[2])` and the hosts after it |
| NtpClient.Render | apps/examples/ntpclient_test/ntpclient_main.c:211-248 | no contract of its own: the command line that selects a command. ClassifyRender and RenderClassify state that it inverts Classify |
| NtpClient.ClassifyRender | apps/examples/ntpclient_test/ntpclient_main.c:211-248 | each command is selected by its own command line |
| NtpClient.RenderClassify | apps/examples/ntpclient_test/ntpclient_main.c:211-248 | an accepted line is the rendering of the command it selects, up to how the interval is spelled |
| NtpClient.ServerTableEntries | apps/examples/ntpclient_test/ntpclient_main.c:214-220 | the first argc-3 entries name the hosts in order on port 123; every other entry is zeroed |
| NtpClient.ServerTable | apps/examples/ntpclient_test/ntpclient_main.c:214-220 | the filled table always has MAX_NTP_SERVER_NUM entries |
| NtpClient.TableHostsOfServerTable | apps/examples/ntpclient_test/ntpclient_main.c:214-220 | the hosts can be read back from the filled table in order |
| NtpClient.ExitValue | apps/examples/ntpclient_test/ntpclient_main.c:250-314 | the exit value is 0 or -1 |
| NtpClient.ExitValueCases | apps/examples/ntpclient_test/ntpclient_main.c:250-314 | the result is 0 exactly when: start and stop get `ret >= 0`, status a known state, link a known link state; date always succeeds; rejected arguments give -1 |
| NtpClient.Accepted | apps/examples/ntpclient_test/ntpclient_main.c:250-311 | no contract of its own: whether the library's answer lets the command succeed. ExitValueCases states how it decides the exit value |
| NtpClient.CallFor | apps/examples/ntpclient_test/ntpclient_main.c:251-291 | no contract of its own: the one library call each command makes. NtpClientApp.Run is proved to make exactly that call |
| NtpClient.NtpClientApp.constructor | apps/examples/ntpclient_test/ntpclient_main.c:96 | the global server table starts zeroed |
| NtpClient.NtpClientApp.FillServerTable | apps/examples/ntpclient_test/ntpclient_main.c:214-220 | the `memset` and the fill loop leave exactly ServerTable(hosts) |
| NtpClient.NtpClientApp.Run | apps/examples/ntpclient_test/ntpclient_main.c:201-315 | the exit value is ExitValue; exactly one library call is made for accepted arguments and none for rejected ones; only start touches the server table |
| KernelHeap.AlignDown8 | os/arch/arm/src/common/up_allocateheap.c:130 | the candidate start is 8-aligned, at most the stack top and within 7 below it |
| KernelHeap.AlignDown8Idempotent | os/arch/arm/src/common/up_allocateheap.c:130 | an aligned address is kept; rounding twice is rounding once |
| KernelHeap.AllocateKheap | os/arch/arm/src/common/up_allocateheap.c:124-141 | the start is the aligned stack top or KREGION_START, and start plus size is KREGION_END modulo 2^32 |
| KernelHeap.KheapStartChoice | os/arch/arm/src/common/up_allocateheap.c:136-138 | the candidate is replaced by KREGION_START exactly when it lies outside the region |
| KernelHeap.KheapInRegion | os/arch/arm/src/common/up_allocateheap.c:136-140 | in a well-formed region the start lies inside it, start + size is KREGION_END, and the size is at most the region's |
| KernelHeap.KheapAtRegionEnd | os/arch/arm/src/common/up_allocateheap.c:136-140 | a candidate equal to KREGION_END is kept and gives size 0 |
| KernelHeap.KheapInvertedRegion | os/arch/arm/src/common/up_allocateheap.c:136-140 | a region ending below its start is not rejected: the size wraps around in `size_t` |
| KernelHeap.Dispatch | os/arch/arm/src/common/up_allocateheap.c:155-159 | a round acts on region k's heap with region k's start and size; it initializes exactly when the heap is empty; that heap's recorded size grows by the region's and every other heap's is unchanged |
| KernelHeap.AddKregions | os/arch/arm/src/common/up_allocateheap.c:154-160 | the loop makes one call per region 1..n-1 and keeps one size per heap |
| KernelHeap.AddKregion | os/arch/arm/src/common/up_allocateheap.c:149-161 | the loop's calls and the heaps' recorded sizes are those of the fold AddKregions |
| KernelHeap.AddKregionsVisits | os/arch/arm/src/common/up_allocateheap.c:154-160 | call i is about region i+1, never region 0, with that region's heap, start and size; it is an initialize exactly when that heap was empty at that moment |
| KernelHeap.AddKregionsSizes | os/arch/arm/src/common/up_allocateheap.c:154-160 | each heap ends with its old size plus the sizes of all the regions given to it |
| KernelHeap.AddKregionsNoReinit | os/arch/arm/src/common/up_allocateheap.c:154-160 | with non-empty regions, every call on a heap after its first is an `mm_addregion` |
| KernelHeap.AddKregionsFirstCall | os/arch/arm/src/common/up_allocateheap.c:155-157 | an `mm_initialize` happens only on a heap that was empty before the loop |

## Findings

| source | as written | input that shows it | evidently intended | confidence | as-written member | corrected member |
|---|---|---|---|---|---|---|
| loadable_apps/loadable_sample/wifiapp/binary_update.c:186-189 | the stream `fopen` returns is passed to `fseek`, `ftell` and `fclose` unchecked | no stored image `micom_<version>` for the version the binary manager reports: `fopen` returns NULL and `fseek(NULL, ...)` is undefined | a missing image counts one failure and ends the download, as the `open` failure at lines 198-202 does | not executed | BinaryUpdate.FileSizeAsWritten (defined only when the image exists; BinaryUpdate.SizeProbeUndefinedWithoutImage gives an accepted run where it is not) | BinaryUpdate.OnboardResult, with BinaryUpdate.OnboardResultFailures; BinaryUpdate.BinaryUpdateTest.DownloadNewBinary follows it |
| loadable_apps/loadable_sample/wifiapp/binary_update.c:133 | `copy_size * 100 / total_size` is computed in 32-bit `int` (also at line 252) | a payload of 21474837 bytes: after the last chunk the product 2147483700 wraps to -2147483596 and the line prints -99% | the percentage copied, within 0..100 and 100 at the end | not executed | BinaryUpdate.ProgressAsWritten, with BinaryUpdate.ProgressOverflows | BinaryUpdate.Progress, with BinaryUpdate.ProgressBounds; BinaryUpdate.CopyRound computes it |

## Left out

- File I/O is modelled only as byte sequences with the results described above. Open errors other than a missing file are left out. So are `errno`, the path strings and `unlink`'s effect on the directory.
- The binary manager (slot allocation, reload and activation, info queries, the callback registry) is a foreign service. Its answers are oracle values, and the slot's capacity and seek result are parameters.
- The `crc32part` table and step are not part of this model. Every checksum fact holds for any byte step function.
- The layout of `binary_header_t` is not part of this model. The model assumes the checksum comes first, then `header_size` (2 bytes), 4 attribute bytes and `bin_size` (4 bytes). Then `bin_name[16]`, `bin_ver[16]` and 20 further bytes, packed and little-endian.
- `sleep(2)`, the asynchronous reload wait and the `inf_flag`/`is_running` infinite mode are left out. They depend on timing and on signals from another context.
- All `printf`, `dbg` and `fprintf` output and the `print_binary_info*` and `show_usage` helpers are left out. Only the texts the library's answers select are modelled.
- CString.Atoi: overflow of `int`, which C leaves undefined, is not modelled. The result is the mathematical value.
- The `ntpc_*` daemon, the network, `time`, `gmtime` and `strftime` are left out. The library's answers and the current UTC second are parameters, and the date shown is a number of seconds.
- NtpClient: MAX_NTP_SERVER_NUM (5) and the daemon- and link-state values (declaration order from 0) come from the library's header, which is not part of this model.
- KernelHeap.Dispatch: the internals of `mm_initialize` and `mm_addregion` are left out. Each is modelled as adding the region's size to the heap's recorded `mm_heapsize`, with no deduction for the allocator's own bookkeeping.
- KernelHeap: KREGION_START, KREGION_END, `g_idle_topstack` and the region tables are configuration values and appear as parameters.
- BinaryUpdate.BinaryUpdateTest.DownloadNewBinary: for a missing stored image the model follows the corrected size probe (one failure, then return). The code as written passes a NULL stream to `fseek`, and the model gives that no meaning (see Findings).
- BinaryUpdate.ProgressAsWritten: signed overflow is undefined in C. The model takes the two's-complement wrap-around a 32-bit ARM build gives. The percentage is only printed, so the output line itself is left out.
- BinaryUpdate.BinaryUpdateTest.SameVersionTest: descriptors are not modelled. The `close(ret)` after a slot granted as descriptor 0 closes descriptor 0 whatever it is. A slot granted with a positive descriptor is never closed. Neither the close nor the leak is modelled.
