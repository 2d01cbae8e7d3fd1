# mp3.rs decoder core in Dafny

This project models the front end of the mp3.rs MPEG audio decoder. It covers these parts:

- **Bit reader.** It hands out 0 to 32 bits of a byte stream, most significant bit first, through an 8-bit cache.
- **Peek.** It reads a big-endian 32-bit word and seeks back four bytes.
- **Frame header.** It covers the version, layer, bitrate, sample-rate and frame-samples tables, the field masks of the 32-bit header word, the frame size, and `read_from`.
- **Layer I side information and samples.** These are 4-bit allocation codes and 6-bit scale-factor codes, read subband by subband and channel by channel into `[2][32]` tables, then 12 granules of samples. Each sample takes as many bits as its allocation code.

Two snapshots of the repository are modelled, each as written:

- the current one under `src/`;
- the older `header.rs` and `layer1.rs` at the repository root.

## Files

- **`bits.dfy` (`BitStrings`).** Bit strings written most significant bit first, and their relation to unsigned integers and byte strings.
- **`source.dfy` (`Source`).** A seekable byte source standing in for `io::Read + io::Seek`. It holds:
  - fixed data;
  - a set of positions where a read fails;
  - a cursor that behaves like `io::Cursor`.

  `PullBytes` is what successive one-byte reads deliver.
- **`bitreader.dfy` (`BitReading`).** The class `BitReader` of `src/bitreader.rs`.
  - Its fields are `cache` and `cacheLength`, plus two ghost histories: the bits handed out (`delivered`) and the bytes pulled from the stream (`fed`).
  - Its invariant says that the bits handed out, followed by the cached bits, are exactly the bits of the bytes pulled.
- **`peeker.dfy` (`Peeking`).** `peek_be_u32` as a method on the byte source, specified by `PeekSpec`.
- **`header.dfy` (`MpegHeader`).** `src/header.rs`.
- **`legacy_header.dfy` (`LegacyMpegHeader`).** The root `header.rs`. Its tables, masks, `slot_size`, `frame_samples` and `frame_size` read the same as those of `src/header.rs` and are shared. Only `from_binary`, where `crc` is not inverted, and `read_from`, which has no seek and no error, are its own.
- **`layer1.dfy` (`Layer1`).** `src/layer1.rs`.
  - The decoders are methods over `array2`/`array3` buffers, like the boxed arrays of the source. Each is proved against ghost functions of the tables it fills.
  - `Grid` reads a table subband by subband. `Flat` is read order.
  - `Packed`/`PackedAt` give the bits consumed.
  - `DecodedFrame` states what each stored sample is.
- **`legacy_layer1.dfy` (`LegacyLayer1`).** The root `layer1.rs`, with its growable lists as sequences.

Samples are floating point in the source. Here a sample records what it is computed from: the code read and its width (or a failed read), and the index of the scale factor it is multiplied by.

The allocation code is used directly as the sample width, as `src/layer1.rs` does. An allocation of 15 therefore indexes past the 14-entry linear scaling table, and that panic is part of the model.

## Model

| member | source | states |
|---|---|---|
| Source.ByteSource.Read | src/peeker.rs:11-14 | A read either fails at a faulty position with nothing changed, or copies the next `min(len, remaining)` bytes to the front of the buffer, advances the cursor by that count and returns it (0 at the end) |
| Source.ByteSource.Seek | src/peeker.rs:16-18 | A relative seek fails, leaving the cursor, exactly when the target would be before the start; otherwise the cursor moves to the target |
| Source.PullBytes | src/bitreader.rs:16-27 | `n` one-byte reads either deliver `n` bytes, or stop at a faulty position with fewer; the cursor never moves back |
| Source.PullInBounds | src/bitreader.rs:19-24 | With no fault in the way and enough data, the reads deliver exactly the next `n` bytes |
| Source.PullPastEnd | src/bitreader.rs:19-24 | At the end of the data every read repeats the byte left in the one-byte buffer and the cursor stays put |
| BitReading.BigEndianU64Exact | src/bitreader.rs:17-21 | Accumulating up to 8 bytes in the 64-bit register gives their big-endian value without wrap-around |
| BitReading.BytesNeeded | src/bitreader.rs:47-48 | The whole bytes pulled to get `k` more bits cover them with fewer than 8 to spare |
| BitReading.BitReader.constructor | src/bitreader.rs:12-14 | A new reader has an empty cache and has handed out and pulled nothing |
| BitReading.BitReader.ReadBytes | src/bitreader.rs:16-27 | `read_bytes` returns the big-endian value of the bytes pulled, or the first read error |
| BitReading.BitReader.ReadBits | src/bitreader.rs:29-64 | A successful read returns a value below `2^n` whose `n` bits are the next `n` bits of the stream; a failed one leaves cache and history unchanged; the cache-hit branch pulls no byte and the miss branch pulls `BytesNeeded` bytes |
| BitReading.BitReader.Serve | src/bitreader.rs:34-45 | With at least `n` bits cached, returns their top `n` (a value below `2^n`), keeps the rest as the cache, pulls no byte and keeps the invariant |
| BitReading.BitReader.Refill | src/bitreader.rs:46-63 | With fewer than `n` bits cached, pulls `BytesNeeded` bytes; on success returns the top `n` bits of the cache followed by those bytes and caches the remaining low bits, keeping the invariant; a read error changes neither cache nor history |
| BitReading.HitStep | src/bitreader.rs:34-45 | Serving a read from the cache keeps the reader's invariant |
| BitReading.MissStep | src/bitreader.rs:46-63 | Placing the pulled bytes below the cache and splitting at `cache_length` returns the next `n` bits and keeps the invariant |
| BitReading.AlignedRoundTrip | src/bitreader.rs:29-64 | After reads totalling whole bytes the cache is empty and the bits handed out decode back to exactly the bytes pulled |
| BitReading.BitsInjective | src/bitreader.rs:58 | A value below `2^k` is determined by its `k` bits |
| BitReading.BitReader.ReadBitsUnwrapped | src/bitreader.rs:29-64 | `read_bits(n).unwrap()` on a source with no faulty position always succeeds, returns a value below `2^n` and hands out exactly its `n` bits next |
| BitReading.RunReads | src/bitreader.rs:29-64 | Unwrapped reads of at most 32 bits each, from a new reader over a fault-free byte stream, return values below `2^width` that concatenate, read by read, to the bits handed out; when the widths add up to the whole stream the values joined in order are its big-endian value |
| BitReading.ShortReads | src/bitreader.rs:67-81 | A reader over FF AA 44, read 8, 4, 2, 1, 1, 3, 3, 2 bits at a time, returns FF, A, 2, 1, 0, 2, 1, 0 |
| BitReading.MediumReads | src/bitreader.rs:83-92 | A reader over FF AA 44 A3, read 16, 12, 4 bits at a time, returns FFAA, 44A, 3 |
| BitReading.LargeReads | src/bitreader.rs:94-102 | A reader over FF AA 44 A3 34 99 44, read 24 then 32 bits, returns FFAA44, A3349944 |
| BitReading.NibbleStream | src/bitreader.rs:104-116 | A reader over EA BD 21, read 4 bits at a time, returns E, A, B, D, 2, 1 |
| BitReading.SixBitReads | src/bitreader.rs:118-128 | A reader over 30 C8 61, read 6 bits at a time, returns 12, 12, 33, 33 |
| BitReading.PackedInjective | src/layer1.rs:47-73 | Codes that fit their widths are determined by the bits they were read from |
| BitReading.PulledBetween | src/bitreader.rs:16-27 | With no faulty position, the bytes a reader pulls between two moments are the source's bytes between the two cursor positions |
| Peeking.NoWrap | src/peeker.rs:20-23 | The `u32` shift-and-add never wraps while assembling four bytes |
| Peeking.PeekBeU32 | src/peeker.rs:9-25 | The peek's result and new cursor are those of `PeekSpec`: a read error first, then a seek error, else the four-byte window (zero-padded) big-endian, with the cursor moved back four |
| Peeking.PeekFullWindow | src/peeker.rs:9-25 | With four bytes available and no fault, the result is the four bytes big-endian, `b0 * 2^24 + b1 * 2^16 + b2 * 2^8 + b3`, and the cursor is unchanged |
| Peeking.PeekCursor | src/peeker.rs:16-18 | After a successful peek the cursor is back where it started exactly when four bytes were available, and never later |
| Peeking.PeekIdempotent | src/peeker.rs:9-25 | Peeking again after a full peek gives the same result and cursor |
| Peeking.PeekShortRead | src/peeker.rs:10-23 | After a short read of `k` bytes the low `4-k` bytes of the result are zero |
| Peeking.ZerosBelow | src/peeker.rs:20-23 | The untouched zero bytes at the end of the buffer shift the value left a byte each |
| Peeking.PeekErrors | src/peeker.rs:11-18 | A read error is returned with the cursor untouched; a seek before the start is returned after the read moved the cursor |
| Peeking.PeekSmallBuf | src/peeker.rs:28-34 | FF AA 44 A3 peeks as FFAA44A3 and leaves the cursor at 0, so a second peek agrees |
| Peeking.PeekMediumBuf | src/peeker.rs:36-42 | FF AA 44 A3 34 99 44 peeks as FFAA44A3 and leaves the cursor at 0 |
| Peeking.PeekShortReadDrifts | src/peeker.rs:16-18 | On 01 02 03 04 05 a peek at 2 returns 03040500 and leaves the cursor at 1, so a second peek differs |
| MpegHeader.VersionLayerCodes | src/header.rs:25-35 | The version and layer lookups invert the standard's code assignment, and every other code is reserved |
| MpegHeader.BitrateDefined | src/header.rs:37-126 | A 4-bit bitrate code has no bitrate exactly for code 0, a reserved version or layer, or code 15 outside MPEG-1 Layer I (which gives 480) |
| MpegHeader.BitrateIncreasing | src/header.rs:37-126 | Within one version and layer the bitrate grows with the code |
| MpegHeader.SamplerateFamilies | src/header.rs:128-141 | No sample rate for code 3 or a reserved version; MPEG-2 is MPEG-1 halved and MPEG-2.5 MPEG-2 halved |
| MpegHeader.FrameSamplesLayout | src/header.rs:143-156 | Frame samples are undefined exactly for a reserved version or layer; Layer I has 12 x 32 |
| MpegHeader.FieldOf | src/header.rs:214-231 | A mask-and-shift recovers a field placed between higher and lower bits |
| MpegHeader.LayoutFields | src/header.rs:158-174 | Each mask of `BinaryHeader` recovers its field from a laid-out word |
| MpegHeader.FromBinaryLayout | src/header.rs:209-233 | Decoding a laid-out header word gives every field, with `crc` the inverse of the protection bit and `emphasis` the `Original` bit |
| MpegHeader.FromBinarySync | src/header.rs:210-212 | There is a header exactly when the top 11 bits are set |
| MpegHeader.EmphasisIgnored | src/header.rs:231 | The two emphasis bits never affect the decoded header |
| MpegHeader.FrameSizeMeaning | src/header.rs:243-252 | The size is defined exactly when bitrate, sample rate and frame samples are, and is `floor(1000*f/8*b/s)` plus a slot when padded |
| MpegHeader.PaddingAddsSlot | src/header.rs:249 | Padding adds exactly one slot (4 bytes in Layer I, 1 otherwise) |
| MpegHeader.FrameSize32k | src/header.rs:243-252 | MPEG-1 Layer I at 32 kbps and 32000 Hz is 48 bytes |
| MpegHeader.FrameSize44k | src/header.rs:243-252 | MPEG-1 Layer I at 32 kbps and 44100 Hz is 34 bytes |
| MpegHeader.PeekIsWord | src/peeker.rs:20-24 | A peeked value fits in 32 bits |
| MpegHeader.ReadFrom | src/header.rs:193-207 | `read_from`'s result and cursor are those of `ReadFromSpec`: a peek error, no header, or the header with the cursor moved 4 bytes on, or 6 when `crc` is set |
| MpegHeader.ReadFromFullWindow | src/header.rs:193-207 | On a full window, a header found is consumed (4 or 6 bytes) and no header leaves the cursor in place |
| LegacyMpegHeader.AgreesButCrc | header.rs:197-222 | The older `from_binary` finds a header exactly when the newer one does, and agrees on every field but `crc`, which is the protection bit itself |
| LegacyMpegHeader.FromBinaryLayout | header.rs:197-222 | Decoding a laid-out header word gives every field, with `crc` equal to the protection bit |
| LegacyMpegHeader.ReadFromMeaning | header.rs:190-195 | The older `read_from` gives a header exactly when the peek succeeds on a synced word, and a peek error is turned into no header |
| LegacyMpegHeader.ReadFromAgainstNewer | header.rs:190-195 | Against the newer `read_from` on the same peek, an error or no header becomes no header and a header found differs only in `crc` |
| Layer1.ChannelCount | src/layer1.rs:38 | One channel exactly in single channel mode (3), two otherwise |
| Layer1.ChannelCountOfWord | src/layer1.rs:38 | A header word gives one channel exactly when both channel-mode bits (`0xc0`) are set |
| Layer1.ReadOrder | src/layer1.rs:50-56 | The `k`-th code read is stored at subband `k / channels`, channel `k % channels` |
| Layer1.FlatInjective | src/layer1.rs:50-56 | Two tables of the same shape read in the same order are equal |
| Layer1.AllocationBitCount | src/layer1.rs:47-59 | The allocations take `4 * subbands * channels` bits |
| Layer1.ScaleFactorBitCount | src/layer1.rs:61-73 | The scale factors take 6 bits per nonzero allocation and none otherwise |
| Layer1.DecodeBitAllocations | src/layer1.rs:47-59 | It panics only on a source with a faulty position; otherwise every entry of the first `subbands x channels` is a 4-bit code, the rest stay 0, and the bits consumed are the codes in read order, 4 bits each |
| Layer1.DecodeScaleFactors | src/layer1.rs:61-73 | It panics only on a source with a faulty position; otherwise the factors are 6-bit codes, 0 wherever the allocation is 0 and outside the decoded part, and the bits consumed are one 6-bit code per nonzero allocation, in read order |
| Layer1.DecodeScaleFactorRow | src/layer1.rs:65-69 | It fails only on a source with a faulty position; otherwise one subband's factors are filled channel by channel: 0 where the allocation is 0, a 6-bit code otherwise, the other cells untouched, and the bits consumed are those codes in channel order |
| Layer1.DecodeChannel | src/layer1.rs:81-87 | One channel's sample either panics, which implies an allocation above 14 or, where allocated, a scale factor above 63; or it is decoded from that cell's allocation and scale factor, stored in its slot, and its bits are consumed; on a fault-free source it is not lost |
| Layer1.CalculateSample | src/layer1.rs:95-110 | A width above 32 panics; a read error gives a lost sample with nothing consumed; a code read at width above 14 panics, and otherwise an `nb`-bit code is returned; a lost sample needs a faulty position, and on a fault-free source it panics exactly when `nb > 14` |
| Layer1.DecodeSample | src/layer1.rs:81-87 | Allocation 0 stores 0.0 with no read; otherwise the quantum for `nb`, scaled by scale factor `sf`, or a panic when `nb > 14` or `sf >= 64`; a lost read needs a faulty position, and on a fault-free source it panics exactly in those cases |
| Layer1.DecodeLine | src/layer1.rs:79-88 | One subband of one granule either panics, which implies some channel with an allocation above 14 or, where allocated, a scale factor above 63; or it stores a decoded line of samples, one per channel, so that the buffer holds the earlier granules and subbands, this line and 0.0 elsewhere, and it consumes exactly that line's bits; on a fault-free source no sample of the line is lost |
| Layer1.DecodeGranule | src/layer1.rs:79-89 | One granule either panics, which implies some cell with an allocation above 14 or, where allocated, a scale factor above 63; or it stores a decoded plane in its slot, so that the buffer holds the earlier granules, this plane and 0.0 elsewhere, and it consumes exactly that plane's bits; on a fault-free source no sample of the plane is lost |
| Layer1.DecodeSamples | src/layer1.rs:75-93 | A panic implies some allocation above 14 or, with nonzero allocation, a scale factor above 63; otherwise the buffer holds 12 decoded granules, is 0.0 outside the channels and subbands decoded, and the bits consumed are the samples' bits in order; on a fault-free source no sample is lost |
| Layer1.DecodeCodes | src/layer1.rs:41-42 | Scale factors then samples: consistent tables and the concatenated bits; on a fault-free source no sample is lost and a panic means some allocation above 14 |
| Layer1.DecodeFrame | src/layer1.rs:40-42 | Allocations, scale factors and samples in that order: each table and each sample is as decoded, and the bits consumed are theirs concatenated; on a fault-free source no sample is lost and a panic means some allocation above 14, and the reader's invariant ties the bytes pulled to the source's bytes |
| Layer1.DecodeLayer1 | src/layer1.rs:35-45 | A fresh reader, one channel in single channel mode (the second channel stays 0.0) and two otherwise; the frame's codes are exactly the bits read, and fewer than 8 bits of the bytes pulled are left unread; with no faulty position and enough data the bytes pulled are the source's bytes from the cursor on; on a fault-free source no sample is lost, and a panic means some allocation above 14 |
| Layer1.SampleBitCount | src/layer1.rs:95-110 | A decoded sample takes at most `nb` bits, exactly `nb` unless its read failed |
| Layer1.LineBitCount | src/layer1.rs:80-88 | A decoded subband line takes at most the sum of its allocations, exactly that with no failed read |
| Layer1.PlaneBitCount | src/layer1.rs:79-89 | A decoded granule takes at most the sum of all allocations, exactly that with no failed read |
| Layer1.FrameBitCount | src/layer1.rs:78-90 | The samples of a frame take at most 12 times the sum of the allocations, exactly that with no failed read |
| Layer1.NibbleRowsBits | src/layer1.rs:113-119 | Reading 4-bit codes row by row from bytes gives each byte's high then low nibble |
| Layer1.NibbleTable | src/layer1.rs:113-119 | A two-channel table of 4-bit codes read from `bs` is exactly its nibble table, and conversely |
| Layer1.PanickingAllocation | src/layer1.rs:81-87 | With every scale factor below 64, a cell on which the samples panic has an allocation above 14 |
| Layer1.GenerateTestAllocations | src/layer1.rs:111-118 | `decode_bit_allocations` over the test's 32 bytes, read as 32 subbands of two channels, gives channel 0 the high nibble and channel 1 the low nibble of each byte |
| Layer1.AllocationVector | src/layer1.rs:120-188 | Of all stereo tables of 4-bit codes, the test's 32 bytes are exactly the codes' bits for one table only, the table of their nibbles |
| LegacyLayer1.ReadAllocation | layer1.rs:18-21 | One entry is the 4-bit code read plus one, consuming its 4 bits, or 0 for a failed read, consuming nothing; 0 needs a faulty position |
| LegacyLayer1.DecodeBitAllocations | layer1.rs:13-27 | `size` entries, each the 4-bit code plus one or 0 for a failed read, at most 16; the bits consumed are 4 per successful read; on a fault-free source no entry is 0 |
| LegacyLayer1.ReadScaleFactor | layer1.rs:33-39 | A 6-bit read appended when it succeeds and dropped when it fails, the bits consumed being the kept factors'; a dropped read needs a faulty position |
| LegacyLayer1.DecodeScaleFactors | layer1.rs:29-43 | Panics exactly when `size` exceeds the allocation list; otherwise one 6-bit read per nonzero allocation, the successful values kept in order (kept plus failed equals nonzero count), and the bits consumed are theirs; on a fault-free source no read fails |
| LegacyLayer1.DecodeLayer1 | layer1.rs:5-11 | 32 allocations, never a panic, at most one scale factor per nonzero allocation, and the bits consumed are the allocation codes then the scale factors; fewer than 8 bits of the bytes pulled are left unread and, with no faulty position and enough data, the bytes pulled are the source's from the cursor on; on a fault-free source every allocation is nonzero and all 32 scale factors are read |
| LegacyLayer1.IncrementedCodes | layer1.rs:18-21 | With no failed read, the legacy allocation list is its codes plus one |
| LegacyLayer1.AllocationsAgainstNewer | layer1.rs:13-27 | With no failed read, the legacy decoder consumes the same bits as `src/layer1.rs` for the same codes and keeps each code plus one |
| LegacyLayer1.EveryScaleFactorRead | layer1.rs:33-39 | With no failed allocation read, every subband gets a scale-factor read, code 0 included, unlike `src/layer1.rs` |
| LegacyLayer1.WithoutFailures | layer1.rs:13-43 | With no failed read, the allocation bits are those of the codes and there is one scale factor per subband |

## Left out

- Floating point is not modelled. A sample is not computed as `s / 2^nb - 0.5`, multiplied by the linear scaling and scale-factor tables. It records the code, the width, the table index and the scale-factor index, so the table values themselves are not modelled.
- I/O is a fixed byte string with a set of positions where a read fails. OS error kinds, `BufReader` buffering and `io::fs::File` are abstracted into one `ReadFault` and one `InvalidSeek`.
- Source.ByteSource.Read: a read that returns fewer bytes than are available before the end is not modelled, because a cursor always fills what it can.
- Panics become `Outcome.Panicked`, or a `requires` where the callers here never trigger them. This covers `unwrap` on a read error, an index past the scaling or scale-factor table, and `read_bits` above 32 bits.
- Layer1.DecodeBitAllocations, Layer1.DecodeScaleFactors and Layer1.DecodeScaleFactorRow: a panic is tied only to the source having some faulty position, not to the read that hit it, and the bits consumed before it are not stated.
- Layer1.DecodeSamples: which cell panicked is stated only as "some cell with a bad allocation or scale factor". The bits consumed before a panic are not stated.
- Layer1.DecodeLayer1: the bits left in the cache when the reader is dropped are only bounded (fewer than 8). Where the next frame starts is not modelled.
- BitReading.BitReader.Serve and BitReading.BitReader.Refill are the two branches of `read_bits`, cut out of its body only to keep each proof small. Likewise BitReading.ReadAll is the loop of BitReading.RunReads and BitReading.ReadJoined one read of it.
- BitReading.PulledBetween: the record of bytes pulled says nothing about which bytes were delivered once the source faults or the cursor passes the end of the data.
- Layer1.DecodeCodes and Layer1.DecodeFrame are cut out of `decode_layer1`'s body only to keep each proof small. Likewise Layer1.DecodeScaleFactorRow is cut out of the subband loop of `decode_scale_factors`; Layer1.DecodeGranule out of the granule loop of `decode_samples`, Layer1.DecodeLine out of its subband loop, and Layer1.DecodeSample out of its cell body. The helper methods `Store` and `StoreSample` each wrap one array store.
- MpegHeader.FrameSizeMeaning: `frame_size` computes in `f64` and truncates. The model uses exact integer division, `floor(1000 * f * b / (8 * s))`. The two agree for the tables' values, but that is not proved for every input.
- Peeking.PeekBeU32: the cursor drift after a short read is modelled as written, and the peek is therefore idempotent only for a full window.
- The scale-factor test vector of `test_scale_factors` (src/layer1.rs:190-266) is not restated. Its 48-byte buffer is covered only by `DecodeScaleFactors`'s general contract.
- `src/main.rs`, `main.rs`, `src/frame.rs`, `frame.rs` and the root `peeker.rs` are not part of this model.
- The root `layer1.rs` uses a bit reader whose source is not among these files. The reader of `src/bitreader.rs` stands in for it.
- The root `layer1.rs`'s `decode_samples` has an empty body and no result, so there is nothing to model.
- The `Header` fields `private`, `copyright`, `original`, `channel_mode_extension` and `emphasis` are decoded, but nothing in the core uses them afterwards.
