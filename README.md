# AZP archive codec — a verified model

This project models the archive codec of azptool. azptool packs and unpacks the `.AZP` archives of the
game "7,62 High Caliber". An archive has three parts:

1. A 16-byte header: the magic `'A','Z','P',0x01`, the data offset, the format version and the file count.
2. A table of contents (TOC), one record per file. Each record is five fields: the name length, the name,
   the payload offset, the compressed size and the uncompressed size. Every field is ciphered by
   `azp_cipher`, a byte-at-a-time stream cipher. Its 32-bit key is threaded from `0xF69DA025` through
   every field of every record.
3. The zlib-compressed payloads, one after another.

Modules, one per part of the program:

- `Bytes`, `Format` (format.dfy): the constants and layouts of azp.h and azp.c, little-endian words,
  the header as four words, and `uint32_t` wrap-around (`Wrap32`).
- `TocCipher` (cipher.dfy): `azp_cipher` over `bv32` words, exactly as the C computes it, and its
  self-inverse law.
- `Toc` (toc.dfy): the TOC record layout. The writer and the reader are both stated over any
  length-keeping field cipher.
- `Unpack` (unpack.dfy): `azp_check_header`, `azp_get_file_list`, the path split of
  `azp_extract_file`, and `azp_extract_all`.
- `Pack` (pack.dfy): `azp_make_file_list` and `azp_compress_files`. The TOC loop works in place on the
  entry array, as the source does.
- `RoundTrip` (roundtrip.dfy): an archive the writer produces passes the header check and the reader
  with a size check measured in on-disk records. Its TOC decodes to the packed entries, and each payload
  sits at its entry's offset. The reader's size check as written also demands 272 bytes per entry, so it
  accepts such an archive only when the archive is at least that long.
- `Tool` (main.c helpers, tool.dfy): `sizeUnit`, the listing totals and the `.azp` extension rule.
- `Seqs` (seqs.dfy): small sequence lemmas.

Inputs that come from outside the program are parameters:

- what `stat` reports for each path (`Pack.FileStat`, `None` when it fails);
- what `azp_compress_file` did for each entry (`Pack.Compression`);
- the contents of each `".tmp"` file as the payload loop finds it (`None` when it does not open);
- whether each `azp_extract_file` call succeeds.

Files are sequences of bytes, and the archive written so far is the sequence returned.

azp.h, as it stands, declares an older interface than azp.c uses. It documents `azpCheckHeader` as
returning 0 or -1 and taking a `FILE*`; azp.c's `azp_check_header` returns a `bool` and reads from a
buffer. It names the records `azpHeader` and `azpEntry` where azp.c uses `azpHeader_t` and `azpEntry_t`.
The model follows azp.c for behaviour and takes the field layout and widths from azp.h's records.

## Model

| member | source | states |
|---|---|---|
| `Format.MagicIsAzp` | azp.c:10 | the magic `0x01505A41`, written little-endian, is the bytes 'A','Z','P',0x01, and those bytes read back as the magic |
| `Format.MagicOnlyFromAzp` | azp.c:22 | four bytes assemble to the magic exactly when they are 'A','Z','P',0x01 |
| `Format.FromLE32OfLE32` | azp.c:51 | the reader's `b[3]<<24 \| b[2]<<16 \| b[1]<<8 \| b[0]`, applied to a word's little-endian bytes, gives back the word |
| `Format.LE32OfFromLE32` | azp.c:61 | four bytes assembled into a word and written back give the same four bytes |
| `Format.LittleEndianOfBytes` | azp.c:66 | any value below 256^n written as n little-endian bytes reads back as itself |
| `Format.BytesOfLittleEndian` | azp.c:71 | n bytes read as a value and written back as n bytes are the same bytes |
| `Format.HeaderBytes` | azp.c:153 | the 16 bytes the header is written as, four little-endian words; its meaning is given by `Format.HeaderBytesSplit` and `Format.ParseHeaderBytes` |
| `Format.ParseHeader` | azp.c:21 | the header the `memcpy` of the first 16 bytes gives; `Format.ParseHeaderBytes` proves it inverts `HeaderBytes`, and `Unpack.CheckHeader` uses it |
| `Format.HeaderBytesSplit` | azp.c:153 | `fwrite(header, 4, 4)` writes the magic, the data offset, the version and the file count, in that order |
| `Format.ParseHeaderBytes` | azp.c:21 | the header `memcpy`'d from the front of a written header, followed by anything, is that header |
| `TocCipher.Mix` | azp.c:280-283 | the product `x * y` folded as `((tmp & 0xFFFF) - 1) ^ (tmp >> 16)` in `uint32_t` arithmetic |
| `TocCipher.Splice` | azp.c:284-287 | the input byte replaces the low byte of the mixed word, the high byte is kept, and the output byte is the XOR with the replaced low byte; `TocCipher.SpliceMask` and `TocCipher.SpliceInverse` give its meaning |
| `TocCipher.Step` | azp.c:280-287 | one pass of the cipher loop's body; `TocCipher.StepMask`, `TocCipher.StepSwap` and `TocCipher.StepInverse` give its meaning |
| `TocCipher.Run` | azp.c:279-288 | the cipher loop over a run of bytes, one output byte per input byte; `TocCipher.RunInverse`, `TocCipher.RunBounded` and `TocCipher.RunAppend` give its meaning |
| `TocCipher.Cipher` | azp.c:269-292 | one `azp_cipher` call: the output, as long as the input, and the key written back; `TocCipher.CipherBuffer` ties it to the C loop, and `TocCipher.CipherInvolution`, `TocCipher.CipherInverse` and `TocCipher.CipherAppend` give its meaning |
| `TocCipher.CipherBuffer` | azp.c:269-292 | a zero-length run gives NULL and leaves the key unchanged; otherwise the output has as many bytes as the input and the key becomes `(x << 16) \| y` of the final state |
| `TocCipher.StepMask` | azp.c:280-287 | each output byte is the input byte XOR a mask that depends only on the state before that byte; the kept high byte of `x` does not depend on the input byte |
| `TocCipher.StepSwap` | azp.c:280 | one step does not depend on the order of the two halves of the state, since it starts from the product `x * y` |
| `TocCipher.RunBounded` | azp.c:281-286 | after at least one byte, both halves of the state fit in 16 bits |
| `TocCipher.RunInverse` | azp.c:279-288 | a second run of the loop from the same state over its own output restores the input and ends with the two halves exchanged |
| `TocCipher.CipherInvolution` | azp.c:276-290 | ciphering a run and then ciphering the result from the same key gives back the run; for a non-empty run the two final keys are each other's halves swapped |
| `TocCipher.CipherSwap` | azp.c:276-290 | a key and its half-swap produce the same bytes and, for a non-empty run, the same final key |
| `TocCipher.CipherInverse` | azp.c:276-290 | deciphering a non-empty run from the enciphering key, or from its swap, restores the run and leaves the swap of the encipher's final key |
| `TocCipher.CipherAppend` | azp.c:290 | two successive calls that share the key cipher the concatenated run as one call would, and end with the same key |
| `Toc.CipherSelfInverse` | azp.c:269-292 | `azp_cipher` satisfies the self-inverse law that the round-trip lemmas rely on |
| `Toc.UntilNul` | azp.c:56 | the name `snprintf("%s")` copies is a prefix of the deciphered bytes, holds no NUL, and stops only at a NUL |
| `Toc.UntilNulWhole` | azp.c:56 | a deciphered name with no NUL byte is copied whole |
| `Toc.Fields` | azp.c:173-208 | the five fields of one record in the order the writer ciphers them: length, the first `filename_length` bytes of the name, offset, compressed size, uncompressed size; `Toc.DecodeEncodeEntry` shows the reader takes them apart in the same order |
| `Toc.Thread` | azp.c:158-208 | the fields ciphered one call after another, each call from the key the previous one left; its output is as long as the fields, and `Toc.ThreadAppend` gives its meaning |
| `Toc.EncodeEntry` | azp.c:173-208 | one record takes 16 bytes plus the name length |
| `Toc.EncodeToc` | azp.c:162-209 | the TOC written for a run of entries has the size of four words plus the name for each entry |
| `Toc.ThreadAppend` | azp.c:158-209 | ciphering two runs of fields in succession, with the key carried over, is ciphering their concatenation |
| `Toc.DecodeEntry` | azp.c:49-72 | the decoded length is the first deciphered word, and the read position moves 16 + length bytes |
| `Toc.DecodeToc` | azp.c:46-73 | exactly `file_count` entries are decoded |
| `Toc.ReadableSize` | azp.c:46-73 | every readable record takes at least 17 bytes, so `file_count` records need at least 17 × `file_count` bytes |
| `Toc.DecodeEncodeEntry` | azp.c:49-72 | a record written from a key is read back as its entry from that key or its swap, and the reader ends with the swap of the writer's key |
| `Toc.DecodeEncodeToc` | azp.c:41-73 | a TOC written from `CIPHER_KEY` for entries that round-trip is read back, entry for entry, by the reader starting from the same key |
| `Toc.DecodeTocCons` | azp.c:46 | a readable record in front of readable records is a readable TOC, and it decodes to that record followed by the rest |
| `Toc.EncodeTocCons` | azp.c:162 | the TOC of a run of entries is the first record followed by the rest, ciphered from the key the first record left |
| `Unpack.CheckHeader` | azp.c:17-26 | an archive under 16 bytes is refused and the header is left alone; otherwise the header is the first 16 bytes (copied even when the magic is wrong), and the archive is accepted exactly when its first four bytes are 'A','Z','P',0x01 |
| `Unpack.CheckWrittenHeader` | azp.c:17-26 | an archive that starts with a written header is accepted exactly when that header carries the magic, and the check returns that header |
| `Unpack.ReadEntry` | azp.c:49-72 | one pass of the reader decodes the record at the read position, with five cipher calls each using the key the previous call left |
| `Unpack.DecodeEntries` | azp.c:41-73 | the reader loop decodes `file_count` entries in order, from `CIPHER_KEY` at byte 16 |
| `Unpack.GetFileList` | azp.c:32-75 | NULL when the archive is shorter than `file_count` in-memory entry records; otherwise the decoded entries |
| `Unpack.GetFileListChecked` | azp.c:33 | the reader with the size check measured in on-disk records: NULL only when the TOC is shorter than 17 bytes per entry; otherwise the decoded entries |
| `Unpack.SizeCheckKeepsReadable` | azp.c:33 | the on-disk size check never refuses an archive whose records can be read |
| `Unpack.AsWrittenRejectsReadable` | azp.c:33 | the size check as written refuses a one-file archive with a one-byte name and a short payload, though its record reads back whole |
| `Unpack.FirstIndex` | azp.c:316 | `strchr` finds the first position of the byte, or reports it absent |
| `Unpack.ExtractTarget` | azp.c:316-331 | a name with a backslash is split at the first one: the prefix is the directory created and the file goes to `"./" + prefix + "/" + suffix`; any other name is opened as it is |
| `Unpack.ReplaceFirstAt` | azp.c:316-331 | replacing the first occurrence of a byte changes exactly the byte at its `strchr` position |
| `Unpack.ExtractPathReplacesFirst` | azp.c:323 | the extraction path of a name with a backslash is `"./"` followed by the name with its first backslash turned into a slash |
| `Unpack.ExtractAll` | azp.c:77-86 | extraction succeeds exactly when every entry extracts; on failure, every entry before the failing one succeeded and nothing after it was started |
| `Pack.Folders` | azp.c:103-114 | the paths that are not regular files are never more than all the paths |
| `Pack.CountFolders` | azp.c:103-114 | the first loop fails exactly when some path among the first `file_count` cannot be `stat`ed; otherwise it counts the non-regular ones |
| `Pack.ListPaths` | azp.c:117-135 | the entries are those of the first `count` paths, and the running offset is the `uint32_t` sum 16 × count + the name lengths |
| `Pack.MakeFileList` | azp.c:92-142 | magic, version 6 and count n; NULL when a `stat` fails; otherwise count = n − non-regular paths, entries from the first count paths, and data offset 16 + the TOC size, as a `uint32_t` |
| `Pack.TocSizeNames` | azp.c:117-126 | the TOC size is 16 bytes per entry plus the name lengths, which is what the offset loop adds up |
| `Pack.FoldersAppend` | azp.c:104-113 | the count of non-regular paths adds up over consecutive runs of paths |
| `Pack.ListRoundTrips` | azp.c:122-123 | entries built from non-empty C-string paths satisfy the round-trip conditions of the TOC |
| `Pack.FolderFirstDropsFile` | azp.c:103-135 | with a folder listed in front of a file, the count is one and the single entry is the folder's: the regular file is dropped |
| `Pack.RegularIndices` | azp.c:103-135 | the positions of the regular files among the paths, as many as `file_count - folders`, each a regular file |
| `Pack.RegularIndicesExact` | azp.c:103-135 | those positions increase, and every regular file is among them, so they are exactly the regular files in path order |
| `Pack.RegularEntries` | azp.c:117-135 | the intended list: `file_count - folders` entries, each the entry of a regular file |
| `Pack.NoFoldersAgree` | azp.c:117-135 | when no path is a folder, the list as written and the intended list are the same |
| `Pack.WriteField` | azp.c:174-175 | one cipher call and its `fwrite` write the ciphered field, or nothing for a zero-length field, and advance the key |
| `Pack.WriteRecord` | azp.c:166-208 | after the compression renames the entry to its `".tmp"` file and sets its size, the five fields are ciphered in order, the offset is recorded, and the running offset advances by the compressed size |
| `Pack.ReadChunk` | azp.c:230 | `fread` delivers as many of the requested bytes as the file still holds, and leaves the rest of the block untouched |
| `Pack.CopyPayload` | azp.c:221-239 | the chunk loop appends exactly `compressed_size` bytes when the file holds them; otherwise it appends the whole 16 KiB chunks it read before the short read, and fails |
| `Pack.WriteToc` | azp.c:152-209 | the entry array becomes `Settle` of the old one; the archive is the header followed by the records up to the first failed compression; it succeeds exactly when every compression succeeds |
| `Pack.AppendPayloads` | azp.c:213-250 | succeeds exactly when every `".tmp"` file opens and holds its payload, and appends what `PayloadOut` describes |
| `Pack.CompressFiles` | azp.c:144-260 | the whole writer: header, TOC and, when every compression succeeds, the payloads; it succeeds exactly when every compression succeeds and every payload can be read |
| `Pack.Settle` | azp.c:158-209 | the entry array after the TOC loop, one entry per entry; `Pack.SettleShape` gives its meaning and `Pack.WriteToc` is proved to leave it |
| `Pack.TocOut` | azp.c:158-209 | the bytes the TOC loop writes and the key it leaves; `Pack.TocOutEncodes` gives its meaning and `Pack.WriteToc` is proved to write it |
| `Pack.PayloadOut` | azp.c:213-250 | the bytes the payload loop appends, up to the first missing or short file; `Pack.PayloadOutReadable` and `RoundTrip.PayloadsAtOffsets` give its meaning, and `Pack.AppendPayloads` is proved to append it |
| `Pack.SettlePlaced` | azp.c:159-201 | every entry before the first failed compression gets the `".tmp"` name, its compressed size, and the offset `data_offset` plus the sizes before it, as a `uint32_t` sum |
| `Pack.SettleStopped` | azp.c:166-168 | at the first failed compression the loop stops: that entry is as the failure left it and every later entry is untouched |
| `Pack.SettleShape` | azp.c:158-209 | the whole entry array after the TOC loop, both of the above together |
| `Pack.TocOutEncodes` | azp.c:158-209 | the records written are exactly the TOC encoding of the placed entries, as one keyed run from `CIPHER_KEY`; none is written past the first failure |
| `Pack.PayloadBytesCons` | azp.c:214-239 | the payloads, concatenated, start with the first one |
| `Pack.PayloadOutReadable` | azp.c:214-250 | when every file opens and holds its payload, the payload loop appends every payload in entry order |
| `RoundTrip.Recorded` | azp.c:181-182 | the writer ciphers only `filename_length` bytes of the name, so the `".tmp"` suffix never reaches the TOC |
| `RoundTrip.TocFieldsRecorded` | azp.c:181-182 | cutting every name to its length field leaves the TOC bytes unchanged |
| `RoundTrip.PackedRecord` | azp.c:186-201 | one record of a packed list is its entry with the offset and compressed size filled in, and it round-trips |
| `RoundTrip.PackedRecords` | azp.c:162-209 | the records of a packed list are the entries of the list with their offsets and sizes filled in |
| `RoundTrip.PackThenRead` | azp.c:153-209 | an archive written for entries that round-trip, with every compression succeeding, passes the header check and the on-disk size check; its TOC decodes to the entries with their `".tmp"`-free names, running offsets and compressed sizes |
| `RoundTrip.TocOutLength` | azp.c:162-209 | with every compression succeeding, the records written take 16 bytes per entry plus the name lengths, the TOC size `azp_make_file_list` computes |
| `RoundTrip.PackThenReadAsWritten` | azp.c:32-75 | the same written archive is readable, and the size check as written lets it through exactly when header, TOC and payloads hold 272 bytes per entry; then `GetFileList` returns the packed entries |
| `RoundTrip.PayloadsFrom` | azp.c:214-239 | after a prefix as long as the first offset, each appended payload sits at its entry's offset |
| `RoundTrip.PayloadsAtOffsets` | azp.c:201-239 | when the data offset is right after the TOC and no sum wraps, the bytes at each entry's offset, where the extractor starts to read, are that entry's payload |
| `Tool.SizeUnit` | main.c:46-61 | up to 1024 bytes stays in B, exactly 1024 included; above that KiB up to 1024², MiB up to 1024³ and GiB beyond, each with the integer quotient; the count never exceeds the byte count |
| `Tool.SizeUnitRoundsDown` | main.c:46-61 | the count is the byte count rounded down to whole units, and the unit is the largest one the byte count exceeds |
| `Tool.Total` | main.c:75-77 | the sum of the compressed or uncompressed sizes of the entries; `Tool.TotalAppend` and `Tool.TotalBound` give its meaning, and `Tool.ListTotals` is proved to compute it |
| `Tool.TotalAppend` | main.c:75-77 | the listing totals add up over consecutive runs of entries |
| `Tool.TotalBound` | main.c:65-66 | a total is at most the entry count times the largest `uint32_t` |
| `Tool.TotalFits` | main.c:65-66 | with fewer than 2^32 entries, the `size_t` sums cannot wrap |
| `Tool.ListTotals` | main.c:75-87 | the loop's sums are the totals of compressed and uncompressed sizes over all `file_count` entries, and the summary prints them scaled by `sizeUnit` |
| `Tool.Find` | main.c:197 | when `strstr` reports a position, the searched text occurs there and at no earlier position |
| `Tool.FindOccurs` | main.c:197 | `strstr` finds the text exactly when it occurs somewhere in the name |
| `Tool.ArchiveName` | main.c:197-199 | ".azp" is appended exactly when neither ".azp" nor ".AZP" occurs anywhere in the name; otherwise the name is unchanged |
| `Tool.ArchiveNameIdempotent` | main.c:197-199 | every resulting name contains an extension, so applying the rule again changes nothing |
| `Tool.InnerExtensionKept` | main.c:197-199 | "x.azp.bak" is left alone and "x" becomes "x.azp" |

## Left out

- zlib is not modelled. This covers deflate in `azp_compress_file` and the inflate loop of `azp_extract_file`. Compression outcomes and compressed sizes are parameters, and so is each extraction's success. The inflate loop's own faults are not modelled either: it hands zlib `archive_sz` bytes from the offset onwards and counts `chunksize` rather than the bytes produced.
- File and OS calls are parameters or are not modelled: `fopen`, `fwrite`, `fread`, `stat`, `mkdir`, `remove`, `mmap` and `printf`. A failed `fwrite` of the header or a TOC field is not modelled, and neither is a failure to open the archive. The removal of the `".tmp"` files is not modelled. Nor is the archive handle that stays open when a payload file does not open (azp.c:216-218).
- The host is taken to be 64-bit and little-endian: words are written low byte first, and `size_t` has 64 bits. `Tool.ListTotals` and `Tool.TotalFits` rely on the 64-bit `size_t`; on a 32-bit host the listing sums would wrap at 2^32.
- `azp_cipher` returns a fresh sequence rather than its static shared buffer, and the NUL it writes after the output is not modelled.
- `Unpack.GetFileList` and `Unpack.GetFileListChecked` require the records to lie inside the archive, each with a name length from 1 to 254. This is a model assumption: the source reads without checking, and its `uint32_t` read position could wrap.
- `Unpack.DecodeEntries` returns the entries as a sequence rather than a `calloc`'d array. The failure of `calloc` is not modelled.
- `Unpack.ReadEntry` applies the cipher as a function rather than through the NULL-returning call. `TocCipher.CipherBuffer` states that the two agree for non-empty runs, and the reader reads only non-empty fields.
- `Unpack.ExtractTarget` requires a name with a backslash to be shorter than the 32-byte `dirname` buffer. The source's `strcpy` and `sprintf` into `dirname[32]` and `path[64]` are not bounds-checked.
- `Pack.MakeFileList` requires every path that is copied, the first `file_count - folders`, to be a C string shorter than `NAME_MAX`, since `sprintf` into the name buffer is not checked. `Pack.ListPaths` requires the same of the paths it copies. It also assumes the second `stat` of a path reports what the first did. A failing `calloc` is not modelled.
- `Pack.WriteRecord` stores the compressed size only in `compressed_size`. `azp_compress_file` stores a `size_t` through that field's address (azp.c:167, 464). With azp.h's `uint32_t` fields on the 64-bit host above, this also overwrites `uncompressed_size` with the high half of the size, which is 0 below 4 GiB. Whether azp.c is built against azp.h's layout is not settled by the source, since the names differ. The model keeps the `stat` size in `uncompressed_size`, as if the field were as wide as `size_t`.
- `Pack.CopyPayload` models `written` and `chunksize` as unbounded naturals. In the source they are `int`, so payloads of 2 GiB or more are not modelled.
- `Pack.WriteRecord` appends `".tmp"` to the name without a bound. In the source, `strcat` into the 255-byte name buffer overflows for names of 251 bytes or more.
- The `strcat` of ".azp" onto the command-line argument (main.c:198) writes past the argument's storage. The model returns a new string.
- The printed listing rows, the compression ratio (floating point, main.c:89), the command-line dispatch of `main`, and strlist.c are not modelled.

## Findings

| source | as written | input that shows it | evidently intended | confidence | as-written member | corrected member |
|---|---|---|---|---|---|---|
| azp.c:33 | `azp_get_file_list` refuses an archive shorter than `file_count * sizeof(azpEntry_t)`, 272 bytes per entry with the azp.h layout, though an on-disk record takes only 16 bytes plus the name | a one-file archive with a one-byte name and a payload under 239 bytes: 16 + 17 + payload < 272, so the tool cannot list or extract an archive it wrote itself | refuse only archives too short to hold `file_count` on-disk records, at least 17 bytes each | not executed | `Unpack.AsWrittenRejectsReadable` | `Unpack.GetFileListChecked` |
| azp.c:114-123 | `azp_make_file_list` counts the paths that are not regular files and then keeps the first `file_count - folders` paths, whatever they are | `azptool -c x d a` with `d` a folder and `a` a file: the list holds `d` and drops `a` | list the regular files, in the order given | not executed | `Pack.FolderFirstDropsFile` | `Pack.RegularEntries` |

The writer is modelled as written: `Pack.MakeFileList` returns the first `file_count - folders` entries, as azp.c does. `Pack.RegularEntries` states the intended list, and `Pack.NoFoldersAgree` shows the two agree when no folder is given. The `RoundTrip` lemmas hold for any list whose entries round-trip, so they cover the intended list as much as the written one.
