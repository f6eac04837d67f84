# detect_efi_boot_partition — a verified model of the decoding chain

`detect_efi_boot_partition` finds the block device the machine booted from. It reads the
UEFI variable `BootCurrent` through efivarfs and derives the name of the current boot
entry, `Boot####-8be4df61-93ca-11d2-aa0d-00e098032b8c`. It then reads that `EFI_LOAD_OPTION`
(section 3.1.3 of the UEFI Specification), skipping efivarfs' 4-byte attribute word, the
flags, the path-list length and the UTF-16 description. Next it walks the device path
(section 10.3.1) until it reaches a Hard-Drive media node (section 10.3.5.1). From that
node's partition signature it formats a PARTUUID: `%08x-%02d` for MBR, or the RFC 4122
text form of the mixed-endian GUID for GPT. Last, it asks libblkid for the device with
that PARTUUID.

The model follows the source's own split between imperative and pure code:

- `byte_reader.dfy` holds the cursor reads. `ByteReader.Reader` is a class with the
  variable's bytes and a file offset `pos`. Its `Read`, `ReadU8` and `ReadLe16/32/64`
  methods advance the offset and fail with `Truncated` on a short read.
- `endian.dfy` and `format.dfy` hold pure functions: little- and big-endian values
  (`LE`, `BE`), `%0Nx` (`Hex`) and `%02d` (`Dec02`).
- `partition_signature.dfy` has the Hard-Drive payload `HardDrive` and its decoder, the
  PARTUUID texts, and the method `GetPartUuidFromHardDrive`, which reads from a `Reader`.
- In `device_path.dfy`, the function `Walk` states what the device-path loop computes on
  the remaining bytes. `NodeStep` is one turn of that loop. The methods `ReadNode` and
  `WalkDevicePath` run the loop on a `Reader` and are proved equal to it.
- `boot_entry.dfy` covers the rest. It has the `Boot%04X` name, `BootCurrent`, the
  preamble and description skip, and `Detect`, the whole computation as a function. The
  method `DetectEfiBootPartition` is proved equal to `Detect`.
- `errors.dfy` replaces the C++ exceptions with a `Result` carrying the error kinds:
  - `NoEfiVars`: BootCurrent cannot be opened;
  - `BootOptionUnavailable`;
  - `Truncated`: "Boundary exceeded";
  - `Malformed`: a node length below 4;
  - `NotInDevicePath`;
  - `PartitionNotFound`.

The efivars directory is a map from file name to contents; a missing name is a variable
that cannot be opened. The libblkid lookup is a map from PARTUUID to device path.

A Hard-Drive node whose signature type is neither 1 nor 2 does not end the loop: the
PARTUUID stays empty and the walk resumes after the node's 38-byte payload
(`detect_efi_boot_partition.cpp:147-164`). `NodeStep`, `WalkHardDrive` and
`WalkPassesUnrecognisedHardDrive` state this.

## Model

| member | source | states |
|---|---|---|
| ByteReader.Reader.Read | detect_efi_boot_partition.cpp:54-59 | with n bytes left, returns exactly the next n bytes and advances the offset by n; with fewer, fails with Truncated and leaves the offset at the end; never a partial value |
| ByteReader.Reader.ReadU8 | detect_efi_boot_partition.cpp:61-66 | `read<uint8_t>`: the next byte and offset + 1, or Truncated |
| ByteReader.Reader.ReadLe16 | detect_efi_boot_partition.cpp:68 | the little-endian value of the next 2 bytes and offset + 2, or Truncated |
| ByteReader.Reader.ReadLe32 | detect_efi_boot_partition.cpp:69 | the little-endian value of the next 4 bytes and offset + 4, or Truncated |
| ByteReader.Reader.ReadLe64 | detect_efi_boot_partition.cpp:70 | the little-endian value of the next 8 bytes and offset + 8, or Truncated |
| Endian.LE | detect_efi_boot_partition.cpp:68-70 | the value read from n bytes is below 256^n, so the 16/32/64-bit results fit their types |
| Endian.LeIsSum | detect_efi_boot_partition.cpp:68-70 | the little-endian value is the sum of b[i]·256^i |
| Endian.LeOfLeBytes | detect_efi_boot_partition.cpp:68-70 | decoding the n-byte little-endian encoding of v < 256^n gives v back |
| Endian.LeBytesOfLe | detect_efi_boot_partition.cpp:68-70 | encoding the decoded value in the same width gives the bytes back |
| Endian.LeInjective | detect_efi_boot_partition.cpp:68-70 | equal little-endian values of equal-length byte strings come from equal bytes |
| Endian.BeInjective | detect_efi_boot_partition.cpp:113-114 | equal big-endian values of equal-length byte strings come from equal bytes |
| Endian.LeIsBeOfReverse | detect_efi_boot_partition.cpp:113-114 | `le*toh` of some bytes is `be*toh` of the reversed bytes |
| Endian.BE | detect_efi_boot_partition.cpp:113-114 | `be16toh`/`be32toh` of stored bytes: the value of n bytes, first byte most significant, is below 256^n; `BeInjective` and `HexOfBe` give its meaning |
| Format.Hex | detect_efi_boot_partition.cpp:100-118 | `%0Nx`/`%0NX` yields exactly N digits of the requested case; this agrees with `printf` only for values below 16^N, which is all the source passes (a 16-bit index for 4 digits, 32-bit or 4-byte values for 8); for larger values `Hex` keeps the low N digits where `printf` would print more |
| Format.HexRoundTrip | detect_efi_boot_partition.cpp:100-118 | N hex digits of v < 16^N read back as v |
| Format.HexInjective | detect_efi_boot_partition.cpp:100-118 | two values below 16^N with the same N-digit text are equal |
| Format.HexOfBe | detect_efi_boot_partition.cpp:112-114 | the hex digits of a big-endian value are the bytes' hex pairs in stored order |
| Format.HexOfLe | detect_efi_boot_partition.cpp:112-113 | the hex digits of a little-endian value are the bytes' hex pairs in reversed order |
| Format.DecimalRoundTrip | detect_efi_boot_partition.cpp:101 | decimal text reads back as the number and starts with '0' only for zero |
| Format.Decimal | detect_efi_boot_partition.cpp:101 | the `%d` digits of a natural number: at least one, each a decimal digit; `DecimalRoundTrip` and `DecimalLengthBound` give its value and length |
| Format.Dec02Meaning | detect_efi_boot_partition.cpp:101 | `%02d`: for x ≥ 0, digits reading back as x, with a leading '0' exactly when x < 10 and length 2 exactly when x < 100; for x < 0, '-' and then the digits of -x |
| Format.Dec02 | detect_efi_boot_partition.cpp:101 | `%02d` of a signed number is at least 2 characters; `Dec02Meaning` gives the padding and sign |
| Format.DecimalLengthBound | detect_efi_boot_partition.cpp:101 | the decimal text of n has at most k digits exactly when n < 10^k |
| PartitionSignature.ParseEncodeHardDrive | detect_efi_boot_partition.cpp:74-99 | decoding an encoded Hard-Drive payload gives every field back |
| PartitionSignature.ParseHardDrive | detect_efi_boot_partition.cpp:74-99 | the decoder of the 38-byte payload, read in the order of the source; `PayloadAt` gives each field's offset and `ParseEncodeHardDrive`/`EncodeParseHardDrive` make it the inverse of `EncodeHardDrive` |
| PartitionSignature.EncodeParseHardDrive | detect_efi_boot_partition.cpp:74-99 | the 38 payload bytes are exactly the encoding of what is decoded from them |
| PartitionSignature.PayloadAt | detect_efi_boot_partition.cpp:74-99 | the decoded fields are the little-endian u32/u64/u64, the 16 signature bytes and the two tag bytes at offsets 0, 4, 12, 20, 36 and 37 of the payload |
| PartitionSignature.AsInt32 | detect_efi_boot_partition.cpp:101 | the `(int)` cast lies in the signed 32-bit range and is congruent to the unsigned value mod 2^32 |
| PartitionSignature.PartUuid | detect_efi_boot_partition.cpp:99-120 | a PARTUUID exists exactly when the signature type is 1 (MBR) or 2 (GPT) |
| PartitionSignature.MbrPartUuidText | detect_efi_boot_partition.cpp:100-106 | the MBR text is the hex pairs of signature bytes 3,2,1,0, '-', and `%02d` of the partition number; below 2^31 that is `%02d` of the number itself |
| PartitionSignature.MbrPartUuid | detect_efi_boot_partition.cpp:100-106 | the MBR `%08x-%02d` text; `MbrPartUuidText`, `MbrExample` and `MbrBufferFits` give its characters, a worked value and when it fits `char buf[16]` |
| PartitionSignature.MbrExample | detect_efi_boot_partition.cpp:100-106 | signature bytes 78 56 34 12 on partition 1 give "12345678-01" |
| PartitionSignature.MbrBufferFits | detect_efi_boot_partition.cpp:101-102 | the text and its terminator fit the 16-byte buffer exactly when the partition number is below 10^6 or at least 2^32 − 99999 |
| PartitionSignature.MbrBufferOverflow | detect_efi_boot_partition.cpp:101-102 | partition number 1000000 makes `sprintf` store 17 bytes into the 16-byte buffer |
| PartitionSignature.GptPartUuidText | detect_efi_boot_partition.cpp:109-118 | the GPT text is bytes 3..0, 5,4 and 7,6 reversed, then bytes 8-9 and 10-15 in stored order, as hex pairs in the 8-4-4-4-12 layout |
| PartitionSignature.GptPartUuid | detect_efi_boot_partition.cpp:109-118 | the GPT `%08x-%04x-%04x-%04x-%04x%08x` text; `GptPartUuidText`, `GptPartUuidShape`, `GptPartUuidInjective` and `GptExample` give its characters, layout, injectivity and a worked value |
| PartitionSignature.GptPartUuidShape | detect_efi_boot_partition.cpp:109-118 | the GPT text is 36 characters, '-' at positions 8, 13, 18 and 23 and lower-case hex digits elsewhere |
| PartitionSignature.GptPartUuidInjective | detect_efi_boot_partition.cpp:109-118 | distinct GPT signatures give distinct PARTUUIDs |
| PartitionSignature.GptExample | detect_efi_boot_partition.cpp:109-118 | 01 02 03 04 05 06 07 08 AA BB CC DD EE FF 00 11 gives "04030201-0605-0807-aabb-ccddeeff0011" |
| PartitionSignature.GetPartUuidFromHardDrive | detect_efi_boot_partition.cpp:72-121 | with 38 bytes left, consumes exactly those 38 bytes and returns the PARTUUID that the decoded payload names, or none; with fewer, fails with Truncated |
| DevicePath.NodeStep | detect_efi_boot_partition.cpp:147-164 | a node that does not end the walk consumes at least its 4-byte header and never more than the bytes left |
| DevicePath.Walk | detect_efi_boot_partition.cpp:146-165 | the device-path loop on the bytes left; `WalkStopsAtEnd`, `WalkRejectsShortLength`, `WalkSkipsNode(s)`, `WalkHardDrive`, `WalkPassesUnrecognisedHardDrive` and the `WalkTruncated*` lemmas give each way it ends |
| DevicePath.WalkStopsAtEnd | detect_efi_boot_partition.cpp:151-152 | 0x7F/0xFF ends the walk with nothing found, before any length is read |
| DevicePath.WalkRejectsShortLength | detect_efi_boot_partition.cpp:154-155 | any node other than End-Entire that declares a length below 4 is Malformed |
| DevicePath.WalkSkipsNode | detect_efi_boot_partition.cpp:156-160 | a node other than End-Entire and Hard-Drive is skipped by exactly its declared length, including 0x7F with another sub-type; the walk resumes at the next node |
| DevicePath.WalkSkipsNodes | detect_efi_boot_partition.cpp:147-160 | any run of such nodes is skipped as a whole |
| DevicePath.WalkHardDrive | detect_efi_boot_partition.cpp:163-164 | a Hard-Drive node consumes exactly 4 + 38 bytes whatever length it declares; with signature type 1 or 2 the walk yields its PARTUUID, otherwise it goes on with the following bytes |
| DevicePath.WalkFindsHardDrive | detect_efi_boot_partition.cpp:147-165 | skipped nodes followed by a recognised Hard-Drive node yield that node's PARTUUID |
| DevicePath.WalkSkipsToEnd | detect_efi_boot_partition.cpp:147-165 | skipped nodes followed by End-Entire yield nothing found |
| DevicePath.WalkPassesUnrecognisedHardDrive | detect_efi_boot_partition.cpp:147-165 | skipped nodes, a Hard-Drive node with a signature type other than 1 or 2, and End-Entire yield nothing found, not an error |
| DevicePath.WalkTruncatedNode | detect_efi_boot_partition.cpp:148-159 | a skipped node cut at any point fails with Truncated, never with a defaulted value |
| DevicePath.WalkTruncatedPrefix | detect_efi_boot_partition.cpp:147-160 | a path of skipped nodes closed by End-Entire, cut at any point before End-Entire's type and sub-type, fails with Truncated |
| DevicePath.WalkTruncatedHardDrive | detect_efi_boot_partition.cpp:148-163 | a Hard-Drive node cut at any point before the end of its payload fails with Truncated |
| DevicePath.ReadNode | detect_efi_boot_partition.cpp:148-163 | one turn of the loop on the reader computes `NodeStep` of the bytes left and advances the offset by what it consumed |
| DevicePath.WalkDevicePath | detect_efi_boot_partition.cpp:146-165 | the `while (!partuuid)` loop on the reader returns `Walk` of the bytes left |
| BootEntry.BootVarNameShape | detect_efi_boot_partition.cpp:134 | for every 16-bit index the name is "Boot", four upper-case hex digits that read back as the index, and "-8be4df61-93ca-11d2-aa0d-00e098032b8c" |
| BootEntry.BootVarName | detect_efi_boot_partition.cpp:134 | the `Boot%04X-<GUID>` variable name; `BootVarNameShape` and `BootVarNameInjective` give its characters and that it is one-to-one |
| BootEntry.BootVarNameInjective | detect_efi_boot_partition.cpp:134 | distinct indices name distinct variables |
| BootEntry.BootVarNameFirst | detect_efi_boot_partition.cpp:134 | index 0x0001 gives "Boot0001-8be4df61-…" |
| BootEntry.BootVarNameLast | detect_efi_boot_partition.cpp:134 | index 0xFFFF gives "BootFFFF-8be4df61-…" |
| BootEntry.BootCurrent | detect_efi_boot_partition.cpp:126-131 | BootCurrent fails with Truncated exactly when it holds fewer than 4 + 2 bytes; otherwise the index is the little-endian u16 after the attribute word |
| BootEntry.BootCurrentOfEncoding | detect_efi_boot_partition.cpp:126-131 | an attribute word followed by an encoded index reads back as that index |
| BootEntry.DescriptionLengthMeaning | detect_efi_boot_partition.cpp:144 | the description skip ends right after the first zero unit and consumes no other zero unit; when no zero unit is present it fails with Truncated |
| BootEntry.DescriptionLength | detect_efi_boot_partition.cpp:144 | the bytes the `read_le16` loop consumes: at least 2 and at most the bytes left, and the only error is Truncated; `DescriptionLengthMeaning` says where it stops |
| BootEntry.DescriptionOfUnits | detect_efi_boot_partition.cpp:144 | a description of non-zero units and its zero terminator occupy exactly 2·units + 2 bytes |
| BootEntry.PreambleLength | detect_efi_boot_partition.cpp:141-144 | the preamble skip consumes at least 4 + 4 + 2 + 2 bytes and never runs past the variable |
| BootEntry.PreambleOfLoadOption | detect_efi_boot_partition.cpp:141-144 | in an encoded load option the preamble ends exactly where the device path begins |
| BootEntry.SkipDescription | detect_efi_boot_partition.cpp:144 | the `while (read_le16(fd) != 0)` loop advances the offset by the description length, or fails with Truncated |
| BootEntry.SkipPreamble | detect_efi_boot_partition.cpp:141-144 | the three fixed reads and the description loop advance the offset by the preamble length, or fail with its error |
| BootEntry.ReadBootCurrent | detect_efi_boot_partition.cpp:126-131 | NoEfiVars when BootCurrent is missing; otherwise the index decoded from its contents |
| BootEntry.DetectFindsHardDrive | detect_efi_boot_partition.cpp:123-169 | for a well-formed BootCurrent and current entry whose path holds skipped nodes and then a recognised Hard-Drive node, the result is the device under that PARTUUID, or PartitionNotFound with the PARTUUID |
| BootEntry.DetectWithoutHardDrive | detect_efi_boot_partition.cpp:147-165 | for an entry whose path holds skipped nodes and then End-Entire, the result is NotInDevicePath |
| BootEntry.Detect | detect_efi_boot_partition.cpp:123-169 | the whole detection from the efivars map and the PARTUUID map; `DetectFindsHardDrive`, `DetectWithoutHardDrive` and `DetectGptExample` give its results, and `DetectEfiBootPartition` is proved equal to it |
| BootEntry.DetectInOption | detect_efi_boot_partition.cpp:138-169 | the detection from the contents of the Boot#### variable on; `DetectReachesPath` shows it continues at the device path |
| BootEntry.DetectInPath | detect_efi_boot_partition.cpp:146-169 | the detection from the device path on; `DetectInPathFindsHardDrive`, `DetectInPathWithoutHardDrive` and `DetectInPathUnrecognisedHardDrive` give its results |
| BootEntry.DetectInPathUnrecognisedHardDrive | detect_efi_boot_partition.cpp:146-165 | a path of skipped nodes, a Hard-Drive node with an unrecognised signature type and End-Entire ends in NotInDevicePath |
| BootEntry.DetectGptExample | detect_efi_boot_partition.cpp:123-169 | description "Linux", an ACPI node, a GPT Hard-Drive node with the example signature and End-Entire give the device under "04030201-0605-0807-aabb-ccddeeff0011" |
| BootEntry.DetectEfiBootPartition | detect_efi_boot_partition.cpp:123-169 | the whole imperative body computes `Detect`: its errors, in source order, and the device found |

## Left out

- `search_partition`, the libblkid probe of all block devices, is a foreign library. It
  is modelled as a map from PARTUUID to device path, looked up once.
- `open` and `auto_fd` are file-descriptor plumbing. A variable is its byte sequence, and
  "cannot be opened" is a name missing from the efivars map. The "File descriptor
  invalid" branch of `read` cannot be reached after a successful open, so it is not
  modelled.
- `main` is left out: argument parsing, the efivars directory check, stdout/stderr and
  the exit codes are process I/O. The efivars directory argument is the map itself.
- The `sprintf() failed` branches (lines 102-104, 111-115 and 134-136) cannot happen for
  these formats and are not modelled.
- `MbrPartUuid` is stated as the full `%08x-%02d` text for every partition number. C
  overflows the 16-byte buffer once the text needs more than 15 characters, and that is
  undefined behaviour. The overflow itself is stated separately, under Findings.
- The stack buffer `uint8_t buf[skip_len]` is modelled only by its effect: `length - 4`
  bytes are skipped.
- On a short read the file offset is taken to move to the end of the variable. This is
  what `::read` does on a regular file. Nothing reads the offset after the error, so the
  choice does not affect any result.

## Findings

| source | as written | input that shows it | evidently intended | confidence | as-written member | corrected member |
|---|---|---|---|---|---|---|
| detect_efi_boot_partition.cpp:101-102 | `char buf[16]` receives `sprintf("%08x-%02d", …)`, whose text is 9 characters plus the decimal partition number plus a NUL | partition number 1000000 (or any number from 10^6 up to 2^31 − 1, or one whose `(int)` cast is below −99999): 17 or more bytes are written to a 16-byte buffer | the whole `%08x-%02d` text is returned for every partition number | not executed; the overflow follows from the format width, though MBR partition numbers that large do not occur in practice | PartitionSignature.MbrBufferOverflow | PartitionSignature.MbrPartUuidText |
