# mboot boot-image codec, modelled in Dafny

`mboot` unpacks an Intel Android `boot.img` into artifact files and packs
the artifacts back into an image. The image is laid out as:

- an optional 512-byte header;
- an optional signature of 480, 728 or 1024 bytes;
- a 4096-byte info block. It holds a 1024-byte NUL-padded cmdline, the kernel
  and ramdisk lengths as little-endian uint32 fields at offsets 1024 and 1028,
  and an 8-byte parameter at 1032;
- a 4096- or 8192-byte bootstub;
- the kernel;
- the ramdisk;
- `0xFF` padding up to a 512-byte sector.

Nothing in the image records where the header, the signature or the bootstub
end. `unpack` finds them with a content probe, `check_byte`.

This project models the three parts of the codec and proves what they
promise:

- **`check_byte`** (`probe.dfy`): a method over a file cursor (`stream.dfy`).
  It is proved to leave the cursor where it found it. Its verdict is proved
  to depend only on the one byte it keeps.
  - It is sometimes described as counting alphanumeric bytes. The code
    (mboot.c:64-68) calls `isalnum` once and compares the VALUE it returns with
    its bounds; the model follows the code.
  - C only promises that this value is nonzero for alphanumeric bytes, so
    `isalnum` is a parameter of the model. `WideAlnumFixesLayout` shows that
    with a C library whose `isalnum` answers 0 or a flag value of at least 4,
    no probe can fire. The layout is then always header 512, signature 1024,
    bootstub 4096.
  - The first signature candidate is offset 0, so the signature loop first
    probes the window the header probe just looked at (`HeaderlessUnsigned`).
    An image without a header is never found to carry a signature; a
    headerless signed image packed by `pack` does not unpack along its own
    layout.
- **`unpack`** (`unpack.dfy`): a cursor method (seek, read, probe) proved equal
  to a pure specification, `Layout.Split` (`layout.dfy`). Both take the
  region sizes from the probes and cut the artifacts. The kernel and ramdisk
  sizes are then range-checked, kernel first, and the first failure returns 1.
  Lemmas prove:
  - which artifacts are written and what status results;
  - that a successful split tiles the image;
  - that the info-block fields read back as written.
- **`pack`** (`pack.dfy`): a method that fills an `array<bv8>` in place with
  the writes of the source, in the source's order: `memcpy`, `memset` and the
  XOR checksum loop.
  - Each step is proved to produce a pure function of the buffer it found
    (`LeadingWrites`, `InfoWrites`, `PayloadWrites`, `PadWrites`,
    `HeaderFixWrites`).
  - The composition is proved to satisfy `PackedImage`: regions contiguous
    and in order, size fields equal to the artifact lengths, `0xFF` padding,
    the signed-image marker or the incremented image type, the sector count,
    and a header whose first 56 bytes XOR to zero.
  - The buffer starts with arbitrary contents, as `malloc` leaves it.
    `PackedImage` says nothing about the bytes `pack` never writes.
- **Round trip** (`roundtrip.dfy`): suppose the probes of `unpack` find the
  regions that `pack` laid down. Then splitting `pack`'s output gives back
  the signature, bootstub, kernel and ramdisk unchanged. The parameter and a
  NUL-free cmdline come back at the front of their slots, the parameter whole
  when it fills its 8 bytes. The header comes back unchanged except at bytes
  7 and 48..55, and with its image type too when the image is signed.

Shared byte-level facts (`bytes.dfy`):

- the little-endian uint32 codec and its two round trips;
- the XOR fold;
- the C-string view of the cmdline buffer.

Integers are unbounded. uint32 wrap-around is written out where the source
relies on it: the image-type increment. C `int` sizes are kept below 2^31 by
`Pack.Admissible`.

## Model

| member | source | states |
|---|---|---|
| Probe.CheckByte | mboot.c:45-73 | skips one leading NUL when the window is longer than one byte; true iff `min < isalnum(kept byte) < original size`; the cursor ends where it started |
| Probe.KeptByte | mboot.c:51-61 | the byte the probe classifies: the second byte of the window when the window is longer than one byte and starts with NUL, otherwise the first |
| Probe.ProbeAt | mboot.c:45-73 | the verdict of `check_byte` with the cursor at a given offset of the image: `LooksTextual` of the `size` bytes there |
| Probe.LooksTextual | mboot.c:64-72 | a positive verdict needs a window of at least `min + 2` bytes and, for `min >= 0`, a kept byte that `isalnum` calls alphanumeric |
| Probe.ProbeSilentForWideAlnum | mboot.c:64-68 | if `isalnum` only answers 0 or at least the window length, the probe never fires |
| Stream.ImageFile.constructor | mboot.c:101 | opening the image puts the cursor at its first byte |
| Stream.ImageFile.Seek | mboot.c:118 | a relative seek moves the cursor by the delta |
| Stream.ImageFile.Read | mboot.c:83 | a read returns the next n bytes and advances the cursor by n |
| Bytes.LeU32 | mboot.c:153 | a four-byte field decodes to a value below 2^32 |
| Bytes.U32Le | mboot.c:248-249 | the stored field is four bytes long and decodes to the stored value |
| Bytes.DecodeEncode | mboot.c:248 | decoding the n-byte encoding of a value below 256^n gives the value back |
| Bytes.EncodeDecode | mboot.c:161 | re-encoding a decoded byte string gives the same bytes |
| Bytes.U32LeOfLeU32 | mboot.c:153 | a four-byte field is determined by its decoded value |
| Bytes.Xor | mboot.c:265-271 | the XOR of a byte string, accumulated from the first byte on as the checksum loop does |
| Bytes.XorUpdate | mboot.c:269-271 | replacing one byte changes the XOR by exactly the old byte XOR the new one |
| Bytes.CString | mboot.c:131-133 | the cmdline text is the prefix before the first NUL, holds no NUL, and is followed by a NUL or by the end of the 1024 bytes |
| Bytes.CStringKeepsText | mboot.c:133 | NUL-free text at the front of a buffer is the front of the buffer's C string |
| Layout.CandidatesAccumulate | mboot.c:115-118 | the signature candidates 0, 480, 728, 1024 are the running sums of the seek deltas 0, 480, 248, 296 |
| Layout.HeaderSize | mboot.c:107-111 | the header is 0 or 512 bytes, and 512 exactly when the 4-byte probe at offset 0 does not fire |
| Layout.SigFrom | mboot.c:114-123 | the signature size is one of 0, 480, 728, 1024: the first candidate whose probe fires, no earlier candidate firing, or 1024 when none fires |
| Layout.SigSize | mboot.c:114-123 | the signature size of the whole probe loop: `SigFrom` its first candidate |
| Layout.SigReach | mboot.c:117-122 | every window the signature loop probes lies inside the image, following the loop past a candidate only when its probe does not fire |
| Layout.SilentSignature | mboot.c:117-122 | with an `isalnum` answering 0 or at least 4 the loop passes every candidate and the signature is 1024 bytes |
| Layout.HeaderlessUnsigned | mboot.c:108-119 | the first signature probe looks at the window of the header probe, so an image found to have no header is found to have no signature |
| Layout.BootstubSize | mboot.c:143-148 | the bootstub is 4096 or 8192 bytes, and 8192 exactly when the 2-byte probe 8192 bytes into the info block fires |
| Layout.PlanOf | mboot.c:107-161 | header 0 or 512, signature in {0, 480, 728, 1024}, bootstub 4096 or 8192, both size fields below 2^32, and every probe inside the image |
| Layout.LeadingReadable | mboot.c:107-127 | the image holds the header probe window, the header when it is read, and every window the signature loop probes |
| Layout.PlanReadable | mboot.c:107-149 | the image also holds the info block and the 2-byte bootstub probe window 8192 bytes into it |
| Layout.Readable | mboot.c:99-167 | the image holds every byte `unpack` reads on the path it takes through this image, up to the kernel or ramdisk read the size checks allow |
| Layout.TextualStartStopsEarly | mboot.c:108-156 | an image whose first four bytes look textual has no header and no signature; with its kernel size out of range it is readable as soon as it holds the info block and the bootstub, and the split returns 1 |
| Layout.Leading | mboot.c:107-127 | the header artifact when the plan has a header, the signature artifact when it has a signature, cut from the front of the image |
| Layout.Carved | mboot.c:107-150 | the artifacts written before the size checks: header, signature, the cmdline as a C string, the 8-byte parameter at offset 1032 and the bootstub |
| Layout.SplitWith | mboot.c:152-167 | the carved artifacts, then the kernel check, the kernel, the ramdisk check and the ramdisk, the first failing check ending with status 1 |
| Layout.Split | mboot.c:99-171 | `SplitWith` along the plan the probes and size fields of the image give |
| Layout.SplitArtifacts | mboot.c:152-167 | cmdline, parameter and bootstub are always written, header and signature when found; the kernel iff its size is in [500000, 15000000]; the ramdisk iff the ramdisk size is also in [10000, 300000000], exactly when the status is 0, otherwise 1; the artifact lengths follow the plan |
| Layout.SplitTilesImage | mboot.c:130-167 | on success header + signature + info block + bootstub + kernel + ramdisk is exactly the image up to the end of the ramdisk; the info block carries the kernel and ramdisk lengths as little-endian uint32 at 1024 and 1028, the parameter at 1032, and the cmdline as its leading C string |
| Layout.TilesAlong | mboot.c:130-167 | the tiling of `SplitTilesImage` along any plan whose size fields are the ones the info block holds |
| Layout.CarvedContents | mboot.c:107-166 | each artifact of a split is the slice of the image that the plan assigns to it |
| Layout.CarvedFiles | mboot.c:107-150 | the artifacts written before the size checks are the header, signature, cmdline, parameter and bootstub slices |
| Layout.SplitKeepsCarved | mboot.c:152-167 | the size checks only add the kernel and the ramdisk, each cut right after the previous region |
| Layout.LeadingContents | mboot.c:107-127 | header and signature artifacts are the bytes they were cut from, and nothing else is written with them |
| Layout.TilesInfo | mboot.c:130-141 | the cmdline, size fields and parameter are read at offsets 0, 1024, 1028 and 1032 of the info block |
| Layout.WideAlnumFixesLayout | mboot.c:64-68 | with an `isalnum` answering 0 or at least 4, the layout is header 512, signature 1024, bootstub 4096 whatever the image |
| Unpack.ReadHeader | mboot.c:107-111 | reads the first 512 bytes as the header iff the probe does not fire; the cursor ends after what was read |
| Unpack.SkipSignature | mboot.c:114-123 | the probe loop stops at the first candidate whose probe fires, or after the last; the cursor ends at the end of the signature |
| Unpack.SizeBootstub | mboot.c:143-149 | the bootstub size comes from the cursor after the probe seeks, and the cursor returns to the bootstub's start |
| Unpack.ReadLeading | mboot.c:107-127 | header and signature sizes are the probed ones; the artifacts are their bytes; the cursor ends at the info block |
| Unpack.ReadInfo | mboot.c:130-150 | cmdline, both size fields, parameter and bootstub are read at their offsets; the cursor ends after the bootstub |
| Unpack.ReadPayloads | mboot.c:152-170 | the kernel and ramdisk checks and reads give the specification's artifacts and status |
| Unpack.Unpack | mboot.c:99-171 | for every image that holds the bytes read on its own path, the artifacts written and the status returned are those of `Layout.Split` |
| Pack.Padding | mboot.c:223-225 | the padding is below 512 and brings the image size to a multiple of 512 |
| Pack.HasRequired | mboot.c:205-215 | cmdline, parameter, bootstub, kernel and ramdisk are all present |
| Pack.FirstMissing | mboot.c:209-214 | the named artifact is absent and every required artifact loaded before it is present |
| Pack.ImageSize | mboot.c:224 | header, signature, the 4096-byte info block, bootstub, kernel and ramdisk lengths added up, absent header and signature counting 0 |
| Pack.HeaderChecksum | mboot.c:265-271 | the XOR of bytes 0..55 with byte 7 taken as 0 |
| Pack.PackedImage | mboot.c:223-273 | what `pack` promises of its image: regions in order at their offsets, size fields, marker or incremented image type, 0xFF padding to a 512-byte sector, sector count and checksum |
| Pack.Splice | mboot.c:231 | a memcpy keeps the buffer length and puts the source at its offset |
| Pack.Repeat | mboot.c:258 | memset's fill is n copies of the byte |
| Pack.HeaderWrites | mboot.c:229-232 | the header, when present, over the buffer from offset 0; the length is kept |
| Pack.MarkWrites | mboot.c:234-244 | the signature and the marker when signed, else the image type read back plus one modulo 2^32 when there is a header, else nothing; the length is kept |
| Pack.LeadingWrites | mboot.c:229-244 | the header writes followed by the mark writes; the length is kept |
| Pack.InfoWrites | mboot.c:246-250 | cmdline, kernel length, ramdisk length and parameter at the info block in source order; the length is kept |
| Pack.PayloadWrites | mboot.c:252-255 | bootstub, kernel and ramdisk back to back after the info block; the length is kept |
| Pack.PadWrites | mboot.c:257-258 | 0xFF from the image size to the end of the buffer; the length is kept |
| Pack.HeaderFixWrites | mboot.c:260-273 | the sector count at byte 48, then the checksum of the result at byte 7; the length is kept |
| Pack.PackWrites | mboot.c:223-273 | all the writes of `pack` in source order over an arbitrary starting buffer, the fix-up only with a header; the length is kept |
| Pack.ChecksumZeroesHeader | mboot.c:265-272 | storing the checksum at byte 7 makes the XOR of bytes 0..55 zero |
| Pack.ChecksumIdempotent | mboot.c:265-272 | recomputing the checksum of a header that carries it gives the same byte |
| Pack.ChecksumDetectsByteChange | mboot.c:265-271 | changing any covered byte other than byte 7 changes the checksum |
| Pack.SignedMarks | mboot.c:234-237 | with a signature, the signature follows the header and the marker `BD 02 BD 02 BD 12 BD 12` sits 1040 bytes into the info block; the header bytes stay as copied |
| Pack.UnsignedMarks | mboot.c:238-244 | with a header and no signature only bytes 52..55 change, to the copied image type plus one modulo 2^32 |
| Pack.LeadingFacts | mboot.c:229-244 | after the leading writes the header is copied and the signature and marker, or the incremented image type, are in place |
| Pack.InfoFacts | mboot.c:246-250 | the cmdline sits at the info block, the kernel and ramdisk lengths as uint32 at +1024 and +1028, the parameter at +1032 |
| Pack.InfoFrame | mboot.c:246-250 | the info-block writes touch nothing before the info block or from its offset 1040 on |
| Pack.PayloadFacts | mboot.c:252-255 | bootstub, kernel and ramdisk sit back to back after the info block; nothing before them or past the image size changes |
| Pack.HeaderFixFacts | mboot.c:260-273 | the fix-up stores the padded size in sectors minus one at byte 48 and a checksum that zeroes the XOR of bytes 0..55; it touches only bytes 7 and 48..51 |
| Pack.FrontPlaced | mboot.c:229-250 | header, signature, marker and info fields are all in place after the first two groups of writes |
| Pack.PayloadsOverFront | mboot.c:252-255 | the payload writes keep what the front writes placed |
| Pack.PaddingOverPayloads | mboot.c:257-258 | the padding fills from the image size to the end with 0xFF and keeps everything before |
| Pack.LaidOut | mboot.c:229-258 | every write before the fix-up leaves the info fields, payloads, padding and copied header in place |
| Pack.HeaderComposed | mboot.c:260-273 | after the fix-up the header is the artifact except at bytes 7 and 48..55; the image type is kept when signed and incremented otherwise |
| Pack.PackWritesPlaced | mboot.c:223-273 | whatever the buffer held, the writes of `pack` produce an image satisfying `PackedImage` |
| Pack.HeaderlessLeading | mboot.c:234-237 | without a header, the leading writes put only the signature below the marker |
| Pack.InfoBeforeSizes | mboot.c:247 | before the size fields, the info-block writes put only the cmdline |
| Pack.BackMissesFront | mboot.c:252-258 | payload and padding writes leave every byte before the bootstub alone |
| Pack.HeaderlessKeepsHeaderSpan | mboot.c:261 | without a header no header field is written: each of bytes 0..55 holds the signature byte, the cmdline byte or the buffer's own byte |
| Pack.CopyInto | mboot.c:231 | the buffer after a memcpy is the splice of the source into the old contents |
| Pack.Fill | mboot.c:258 | the buffer after a memset is the old contents with n copies of the byte at the offset |
| Pack.ComputeChecksum | mboot.c:265-271 | the XOR loop over the 56-byte copy with byte 7 zeroed returns `HeaderChecksum` of the buffer |
| Pack.PlaceHeader | mboot.c:229-232 | the header, when present, is copied to offset 0 |
| Pack.PlaceSignature | mboot.c:235-237 | the signature after the header, then the marker 1040 bytes past the signature's end |
| Pack.BumpImageType | mboot.c:240-243 | the image type is read back from bytes 52..55 and stored again plus one, modulo 2^32 |
| Pack.PlaceMarks | mboot.c:234-244 | signature and marker when signed, else the image-type increment when there is a header |
| Pack.PlaceLeading | mboot.c:229-244 | the buffer becomes `LeadingWrites` of what it held |
| Pack.PlaceInfo | mboot.c:246-250 | the buffer becomes `InfoWrites` of what it held |
| Pack.PlacePayloads | mboot.c:252-255 | the buffer becomes `PayloadWrites` of what it held |
| Pack.PlacePadding | mboot.c:257-258 | the buffer becomes `PadWrites` of what it held |
| Pack.FixHeader | mboot.c:260-273 | the buffer becomes `HeaderFixWrites` of what it held |
| Pack.Assemble | mboot.c:223-276 | the assembled image satisfies `PackedImage` |
| Pack.Pack | mboot.c:197-279 | fails iff a required artifact is missing, naming the first one in load order, before any buffer is made; otherwise returns an image satisfying `PackedImage` |
| RoundTrip.PackedPlan | mboot.c:153-161 | on a packed image the inferred plan finds the info block where `pack` put it and reads back the true kernel and ramdisk lengths, and every read of `unpack` stays in the image |
| RoundTrip.StatusRecovered | mboot.c:152-167 | splitting a packed image succeeds iff both artifact lengths are in range, writing the kernel iff its length is in range |
| RoundTrip.SigBootstubRecovered | mboot.c:123-150 | the signature and bootstub come back as packed |
| RoundTrip.KernelRamdiskRecovered | mboot.c:158-166 | the kernel and ramdisk, when written, come back as packed |
| RoundTrip.HeaderRecovered | mboot.c:260-273 | the recovered header equals the artifact except at bytes 7 and 48..55, keeps the image type when signed, and XORs to zero over bytes 0..55 |
| RoundTrip.InfoRecovered | mboot.c:130-140 | the parameter is the front of the recovered parameter (all of it at 8 bytes); a NUL-free cmdline is the front of the recovered cmdline, and all of it at 1024 bytes in the model (see `Bytes.CString` under Left out) |
| RoundTrip.FrontRecovered | mboot.c:107-140 | header, cmdline and parameter come back along the plan `pack` laid down: the parameter whole at 8 bytes, the header except at bytes 7 and 48..55 and with its image type when signed |
| RoundTrip.SplitRecoversPacked | mboot.c:99-279 | when the probes find the packed regions, unpacking the output of pack returns the signature, bootstub, kernel and ramdisk unchanged, the parameter at the front of its slot and whole at 8 bytes, a NUL-free cmdline at the front of its slot, and the header except at bytes 7 and 48..55, with its image type when signed; the status is 0 iff both lengths are in range |

## Left out

- Argument parsing, usage text, the working-directory check and `main` (mboot.c:30-43, mboot.c:281-326): command-line glue.
- The file wrappers `write_buffer`, `write_string` and `read_file`. The working directory is a map from artifact to bytes, and `unpack` returns what it writes.
- `read_file` also writes the file's bytes back to the read handle (mboot.c:188). This has no effect on the data and is not modelled.
- Progress and error messages (`printf`/`fprintf`).
- Failure to open the input image or the output file (mboot.c:101-105, mboot.c:217-221): an I/O outcome.
- Writing the assembled buffer to the file (mboot.c:275): `Pack` returns the bytes.
- Short reads and EOF: every `fread` result is discarded by the source. `Unpack.Unpack` requires `Layout.Readable`: the image holds every byte read on the path this image takes (the probe windows actually probed, the info block, the bootstub probe, and the kernel and ramdisk only when their checks pass).
- The numeric value of `isalnum` is library-specific, so it is a parameter.
- The native-endian casts (mboot.c:153, mboot.c:161, mboot.c:242, mboot.c:248, mboot.c:263) are modelled as little-endian uint32 fields.
- Pack.Pack: requires `Admissible` once every required artifact is present (a missing one fails before any size matters):
  - the header is at least 56 bytes, the cmdline at most 1024 and the parameter at most 8;
  - the padded image size stays below 2^31.

  Longer artifacts make the C writes overlap, and larger sizes overflow `int`. Neither case is modelled.
- Empty artifact files: `read_file` returns `malloc(0)`, which a C library may make NULL. The model treats an existing empty file as present in both `Pack` and `Unpack`.
- Bytes `pack` never writes come from `malloc`. They are the rest of the info block, and the rest of the cmdline and parameter slots. `Pack.PackedImage` leaves them unconstrained.
- `unpack` writes into a directory that may already hold older artifacts. The model returns only what one run writes.
- Bytes.CString: a cmdline with no NUL in its 1024 bytes is cut at 1024. The source reads it into a larger buffer (mboot.c:131), and `strlen` then runs on into its uninitialised bytes (mboot.c:95), so the source gives no such bound; the round trip of a 1024-byte cmdline holds of the model only.
- Memory leaks and the never-freed temporaries of `check_byte` and `pack`.
