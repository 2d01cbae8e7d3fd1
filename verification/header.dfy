/** The frame header of `src/header.rs`: the table lookups that give a version,
    a layer, a bitrate, a sample rate and a samples-per-frame count, the field
    extraction from a 32-bit header word, the frame size, and `read_from`, which
    peeks a word and steps past the header it finds. */
module MpegHeader {
  import opened Source
  import opened Peeking
  import opened BitStrings

  datatype MpegVersion = Mpeg1 | Mpeg2 | Mpeg25 | VersionReserved
  datatype MpegLayer = LayerI | LayerII | LayerIII | LayerReserved

  /** `new_mpeg_version`: the 2-bit version code. */
  function NewMpegVersion(i: nat): MpegVersion
  {
    if i == 0 then Mpeg25 else if i == 2 then Mpeg2 else if i == 3 then Mpeg1 else VersionReserved
  }

  /** `new_mpeg_layer`: the 2-bit layer code. */
  function NewMpegLayer(i: nat): MpegLayer
  {
    if i == 3 then LayerI else if i == 2 then LayerII else if i == 1 then LayerIII else LayerReserved
  }

  /** The codes ISO/IEC 11172-3 (and the "MPEG 2.5" extension) assign to each version and layer. */
  function VersionCode(v: MpegVersion): nat
  {
    match v
    case Mpeg1 => 3
    case Mpeg2 => 2
    case Mpeg25 => 0
    case VersionReserved => 1
  }

  function LayerCode(l: MpegLayer): nat
  {
    match l
    case LayerI => 3
    case LayerII => 2
    case LayerIII => 1
    case LayerReserved => 0
  }

  /** Decoding a version or layer code undoes the code assignment, and every
      2-bit code names exactly one version and one layer. */
  lemma VersionLayerCodes(v: MpegVersion, l: MpegLayer, i: nat)
    ensures NewMpegVersion(VersionCode(v)) == v && NewMpegLayer(LayerCode(l)) == l
    ensures i < 4 ==> VersionCode(NewMpegVersion(i)) == i && LayerCode(NewMpegLayer(i)) == i
    ensures NewMpegVersion(i) == VersionReserved <==> i != 0 && i != 2 && i != 3
    ensures NewMpegLayer(i) == LayerReserved <==> i != 1 && i != 2 && i != 3
  {
  }

  // Bitrates in kbps for codes 1 to 14.
  const Mpeg1LayerII: seq<nat> := [32, 48, 56, 64, 80, 96, 112, 128, 160, 192, 224, 256, 320, 384]
  const Mpeg1LayerIII: seq<nat> := [32, 40, 48, 56, 64, 80, 96, 112, 128, 160, 192, 224, 256, 320]
  const Mpeg2LayerI: seq<nat> := [32, 48, 56, 64, 80, 96, 112, 128, 144, 160, 176, 192, 224, 256]
  const Mpeg2LayerIIandIII: seq<nat> := [8, 16, 24, 32, 40, 48, 56, 64, 80, 96, 112, 128, 144, 160]

  /** A `match bits { 1 => .., ..., 14 => .., _ => return None }` over one of the tables. */
  function Lookup(table: seq<nat>, bits: nat): Option<nat>
    requires |table| == 14
  {
    if 1 <= bits <= 14 then Some(table[bits - 1]) else None
  }

  /** `new_mpeg_bitrate`, in kbps. */
  function NewMpegBitrate(v: MpegVersion, l: MpegLayer, bits: nat): Option<nat>
  {
    if bits == 0 then None       // free format
    else if bits == 16 then None
    else
      match v
      case Mpeg1 =>
        (match l
         case LayerI => Some(32 * bits)
         case LayerII => Lookup(Mpeg1LayerII, bits)
         case LayerIII => Lookup(Mpeg1LayerIII, bits)
         case LayerReserved => None)
      case Mpeg2 | Mpeg25 =>
        (match l
         case LayerI => Lookup(Mpeg2LayerI, bits)
         case LayerII | LayerIII => Lookup(Mpeg2LayerIIandIII, bits)
         case LayerReserved => None)
      case VersionReserved => None
  }

  /** For a 4-bit code: no bitrate for the free-format code 0, for a reserved
      version or layer, or for code 15 except under MPEG-1 Layer I, where the
      `bits == 16` guard never fires and code 15 gives 32 * 15 = 480. */
  lemma BitrateDefined(v: MpegVersion, l: MpegLayer, bits: nat)
    requires bits < 16
    ensures NewMpegBitrate(v, l, bits).None? <==>
      bits == 0 || v == VersionReserved || l == LayerReserved || (bits == 15 && !(v == Mpeg1 && l == LayerI))
    ensures NewMpegBitrate(Mpeg1, LayerI, 15) == Some(480)
  {
  }

  /** Within one version and layer a higher code means a higher bitrate. */
  lemma BitrateIncreasing(v: MpegVersion, l: MpegLayer, a: nat, b: nat)
    requires a < b && NewMpegBitrate(v, l, a).Some? && NewMpegBitrate(v, l, b).Some?
    ensures NewMpegBitrate(v, l, a).value < NewMpegBitrate(v, l, b).value
  {
  }

  /** `new_mpeg_samplerate`, in Hz. */
  function NewMpegSamplerate(v: MpegVersion, bits: nat): Option<nat>
  {
    match v
    case Mpeg1 => if bits == 0 then Some(44100) else if bits == 1 then Some(48000) else if bits == 2 then Some(32000) else None
    case Mpeg2 => if bits == 0 then Some(22050) else if bits == 1 then Some(24000) else if bits == 2 then Some(16000) else None
    case Mpeg25 => if bits == 0 then Some(11025) else if bits == 1 then Some(12000) else if bits == 2 then Some(8000) else None
    case VersionReserved => None
  }

  /** No sample rate for code 3 or a reserved version; MPEG-2 runs at half and
      MPEG 2.5 at a quarter of the MPEG-1 rate for the same code. */
  lemma SamplerateFamilies(v: MpegVersion, bits: nat)
    ensures NewMpegSamplerate(v, bits).None? <==> bits >= 3 || v == VersionReserved
    ensures bits < 3 ==>
      NewMpegSamplerate(Mpeg1, bits).value == 2 * NewMpegSamplerate(Mpeg2, bits).value &&
      NewMpegSamplerate(Mpeg1, bits).value == 4 * NewMpegSamplerate(Mpeg25, bits).value
  {
  }

  /** `new_mpeg_frame_samples`. */
  function NewMpegFrameSamples(v: MpegVersion, l: MpegLayer): Option<nat>
  {
    match v
    case Mpeg1 =>
      (match l
       case LayerI => Some(384)
       case LayerII => Some(1152)
       case LayerIII => Some(1152)
       case LayerReserved => None)
    case Mpeg2 | Mpeg25 =>
      (match l
       case LayerI => Some(384)
       case LayerII => Some(1152)
       case LayerIII => Some(576)
       case LayerReserved => None)
    case VersionReserved => None
  }

  /** A Layer I frame carries 12 samples in each of 32 subbands, whatever the
      version; Layer III halves its frame below MPEG-1. */
  lemma FrameSamplesLayout(v: MpegVersion, l: MpegLayer)
    ensures NewMpegFrameSamples(v, l).None? <==> v == VersionReserved || l == LayerReserved
    ensures v != VersionReserved ==> NewMpegFrameSamples(v, LayerI) == Some(12 * 32)
    ensures v != VersionReserved && v != Mpeg1 ==>
      2 * NewMpegFrameSamples(v, LayerIII).value == NewMpegFrameSamples(Mpeg1, LayerIII).value
  {
  }

  /** A 32-bit header word (`u32`). */
  type Word = w: nat | w < 0x1_0000_0000

  /** `(w & mask) >> shift` for a mask of `width` consecutive bits starting at
      bit `shift` (`unit` is `2^shift`, `span` is `2^width`). */
  function Field(w: Word, unit: nat, span: nat): nat
    requires unit > 0 && span > 0
  {
    (w / unit) % span
  }

  /** `bin.contains(flag)` for a one-bit flag at `unit`. */
  predicate Flag(w: Word, unit: nat)
    requires unit > 0
  {
    Field(w, unit, 2) == 1
  }

  datatype Header = Header(
    version: MpegVersion,
    layer: MpegLayer,
    crc: bool,
    bitrate: Option<nat>,
    samplerate: Option<nat>,
    padding: bool,
    private: bool,
    channelMode: nat,
    channelModeExtension: nat,
    copyright: bool,
    original: bool,
    emphasis: nat)

  /** The `BinaryHeader` masks, by position. */
  const VersionAt := 0x8_0000       // Version     0x00180000
  const LayerAt := 0x2_0000         // Layer       0x00060000
  const CrcAt := 0x1_0000           // CRC         0x00010000
  const BitrateAt := 0x1000         // Bitrate     0x0000f000
  const SamplerateAt := 0x400       // Samplerate  0x00000c00
  const PaddingAt := 0x200          // Padding     0x00000200
  const PrivateAt := 0x100          // Private     0x00000100
  const ChannelModeAt := 0x40       // ChannelMode 0x000000c0
  const ExtensionAt := 0x10         // ChannelModeExtension 0x00000030
  const CopyrightAt := 0x8          // Copyright   0x00000008
  const OriginalAt := 0x4           // Original    0x00000004

  /** `bin.contains(Sync)`: the top 11 bits (mask `0xffe00000`) are all set. */
  predicate HasSync(w: Word)
  {
    w / 0x20_0000 == 0x7ff
  }

  /** The header fields of a synced word; `crc` is the protection bit as given. */
  function Fields(w: Word, crc: bool): Header
  {
    var version := NewMpegVersion(Field(w, VersionAt, 4));
    var layer := NewMpegLayer(Field(w, LayerAt, 4));
    Header(
      version := version,
      layer := layer,
      crc := crc,
      bitrate := NewMpegBitrate(version, layer, Field(w, BitrateAt, 16)),
      samplerate := NewMpegSamplerate(version, Field(w, SamplerateAt, 4)),
      padding := Flag(w, PaddingAt),
      private := Flag(w, PrivateAt),
      channelMode := Field(w, ChannelModeAt, 4),
      channelModeExtension := Field(w, ExtensionAt, 4),
      copyright := Flag(w, CopyrightAt),
      original := Flag(w, OriginalAt),
      emphasis := OriginalAt * Field(w, OriginalAt, 2))  // `bin.bits & Original.bits`
  }

  /** `Header::from_binary`: no header without sync; `crc` is set when the
      protection bit is clear. */
  function FromBinary(w: Word): Option<Header>
  {
    if !HasSync(w) then None else Some(Fields(w, !Flag(w, CrcAt)))
  }

  /** A header word laid out field by field behind the sync pattern. */
  function Layout(version: nat, layer: nat, protection: nat, bitrate: nat, samplerate: nat,
                  padding: nat, private: nat, mode: nat, extension: nat, copyright: nat,
                  original: nat, emphasis: nat): nat
  {
    0xffe0_0000 + version * VersionAt + layer * LayerAt + protection * CrcAt +
    bitrate * BitrateAt + samplerate * SamplerateAt + padding * PaddingAt + private * PrivateAt +
    mode * ChannelModeAt + extension * ExtensionAt + copyright * CopyrightAt +
    original * OriginalAt + emphasis
  }

  /** A field sitting between higher and lower parts is what the mask and the
      shift recover. */
  lemma FieldOf(w: nat, high: nat, f: nat, low: nat, unit: nat, span: nat)
    requires unit > 0 && span > 0 && f < span && low < unit
    requires w == high * (span * unit) + f * unit + low
    ensures (w / unit) % span == f
  {
    MulAssoc(high, span, unit);
    assert w == (high * span + f) * unit + low;
    DivModUnique(w, unit, high * span + f, low);
    DivModUnique(high * span + f, span, high, f);
  }

  /** Each field of a laid-out word is recovered by its mask and shift. */
  lemma LayoutFields(version: nat, layer: nat, protection: nat, bitrate: nat, samplerate: nat,
                     padding: nat, private: nat, mode: nat, extension: nat, copyright: nat,
                     original: nat, emphasis: nat)
    requires version < 4 && layer < 4 && protection < 2 && bitrate < 16 && samplerate < 4
    requires padding < 2 && private < 2 && mode < 4 && extension < 4 && copyright < 2
    requires original < 2 && emphasis < 4
    ensures var w := Layout(version, layer, protection, bitrate, samplerate, padding, private, mode,
                            extension, copyright, original, emphasis);
      w / 0x20_0000 == 0x7ff && w < 0x1_0000_0000 &&
      Field(w, VersionAt, 4) == version && Field(w, LayerAt, 4) == layer &&
      Field(w, CrcAt, 2) == protection && Field(w, BitrateAt, 16) == bitrate &&
      Field(w, SamplerateAt, 4) == samplerate && Field(w, PaddingAt, 2) == padding &&
      Field(w, PrivateAt, 2) == private && Field(w, ChannelModeAt, 4) == mode &&
      Field(w, ExtensionAt, 4) == extension && Field(w, CopyrightAt, 2) == copyright &&
      Field(w, OriginalAt, 2) == original
  {
    var w := Layout(version, layer, protection, bitrate, samplerate, padding, private, mode,
                    extension, copyright, original, emphasis);
    // the parts above each field, from the top
    var h1 := 0x7ff * 4 + version;
    var h2 := h1 * 4 + layer;
    var h3 := h2 * 2 + protection;
    var h4 := h3 * 16 + bitrate;
    var h5 := h4 * 4 + samplerate;
    var h6 := h5 * 2 + padding;
    var h7 := h6 * 2 + private;
    var h8 := h7 * 4 + mode;
    var h9 := h8 * 4 + extension;
    var h10 := h9 * 2 + copyright;
    // the parts below each field, from the bottom
    var t1 := original * 4 + emphasis;
    var t2 := copyright * 8 + t1;
    var t3 := extension * 0x10 + t2;
    var t4 := mode * 0x40 + t3;
    var t5 := private * 0x100 + t4;
    var t6 := padding * 0x200 + t5;
    var t7 := samplerate * 0x400 + t6;
    var t8 := bitrate * 0x1000 + t7;
    var t9 := protection * 0x1_0000 + t8;
    var t10 := layer * 0x2_0000 + t9;
    var t11 := version * 0x8_0000 + t10;
    DivModUnique(w, 0x20_0000, 0x7ff, t11);
    FieldOf(w, 0x7ff, version, t10, 0x8_0000, 4);
    FieldOf(w, h1, layer, t9, 0x2_0000, 4);
    FieldOf(w, h2, protection, t8, 0x1_0000, 2);
    FieldOf(w, h3, bitrate, t7, 0x1000, 16);
    FieldOf(w, h4, samplerate, t6, 0x400, 4);
    FieldOf(w, h5, padding, t5, 0x200, 2);
    FieldOf(w, h6, private, t4, 0x100, 2);
    FieldOf(w, h7, mode, t3, 0x40, 4);
    FieldOf(w, h8, extension, t2, 0x10, 4);
    FieldOf(w, h9, copyright, t1, 0x8, 2);
    FieldOf(w, h10, original, emphasis, 0x4, 2);
  }

  /** Decoding a laid-out word recovers every field: the protection bit comes
      back inverted as `crc`, and `emphasis` holds the original bit (as 4), not
      the emphasis code. */
  lemma FromBinaryLayout(version: nat, layer: nat, protection: nat, bitrate: nat, samplerate: nat,
                         padding: nat, private: nat, mode: nat, extension: nat, copyright: nat,
                         original: nat, emphasis: nat)
    requires version < 4 && layer < 4 && protection < 2 && bitrate < 16 && samplerate < 4
    requires padding < 2 && private < 2 && mode < 4 && extension < 4 && copyright < 2
    requires original < 2 && emphasis < 4
    ensures var w := Layout(version, layer, protection, bitrate, samplerate, padding, private, mode,
                            extension, copyright, original, emphasis);
      var v, l := NewMpegVersion(version), NewMpegLayer(layer);
      w < 0x1_0000_0000 &&
      FromBinary(w) == Some(Header(v, l, protection == 0,
        NewMpegBitrate(v, l, bitrate), NewMpegSamplerate(v, samplerate),
        padding == 1, private == 1, mode, extension, copyright == 1, original == 1,
        4 * original))
  {
    LayoutFields(version, layer, protection, bitrate, samplerate, padding, private, mode,
                 extension, copyright, original, emphasis);
  }

  /** There is a header exactly when the word is at least `0xffe00000`, that is
      when none of the 11 sync bits is clear. */
  lemma FromBinarySync(w: Word)
    ensures FromBinary(w).Some? <==> w >= 0xffe0_0000
  {
  }

  /** The two emphasis bits are never looked at: clearing them changes nothing. */
  lemma EmphasisIgnored(w: Word)
    ensures FromBinary(w - w % 4) == FromBinary(w)
  {
    var u := w - w % 4;
    DivDropLow(w, 0x8_0000);
    DivDropLow(w, VersionAt / 4);
    DivDropLow(w, LayerAt / 4);
    DivDropLow(w, CrcAt / 4);
    DivDropLow(w, BitrateAt / 4);
    DivDropLow(w, SamplerateAt / 4);
    DivDropLow(w, PaddingAt / 4);
    DivDropLow(w, PrivateAt / 4);
    DivDropLow(w, ChannelModeAt / 4);
    DivDropLow(w, ExtensionAt / 4);
    DivDropLow(w, CopyrightAt / 4);
    DivDropLow(w, OriginalAt / 4);
  }

  /** Dropping the low two bits does not change a quotient by a multiple of 4. */
  lemma DivDropLow(w: nat, k: nat)
    requires k > 0
    ensures (w - w % 4) / (4 * k) == w / (4 * k)
  {
    var q, r := w / 4, w % 4;
    var a, b := q / k, q % k;
    assert w - r == (4 * k) * a + 4 * b;
    DivModUnique(w - r, 4 * k, a, 4 * b);
    DivModUnique(w, 4 * k, a, 4 * b + r);
  }

  /** `slot_size`: 4 bytes for Layer I, 1 otherwise. */
  function SlotSize(h: Header): nat
  {
    if h.layer == LayerI then 4 else 1
  }

  /** `frame_samples`. */
  function FrameSamples(h: Header): Option<nat>
  {
    NewMpegFrameSamples(h.version, h.layer)
  }

  /** `frame_size`: `1000 * f / 8 * b / s` bytes, truncated, plus a slot when
      padded. The floating-point steps are exact here (`125 * f` is whole) and the
      truncation of the quotient is integer division. The sample-rate tables
      hold no zero, so the division is never by zero. */
  function FrameSize(h: Header): Option<nat>
    requires h.samplerate != Some(0)
  {
    match (h.bitrate, h.samplerate, FrameSamples(h))
    case (Some(b), Some(s), Some(f)) => Some(125 * f * b / s + if h.padding then SlotSize(h) else 0)
    case _ => None
  }

  /** The size is known exactly when bitrate, sample rate and frame samples
      are; it is then the number of whole bytes in `f / 8` samples' worth of
      bits at `b` kbps and `s` Hz, plus a slot when padded. */
  lemma FrameSizeMeaning(h: Header)
    requires h.samplerate != Some(0)
    ensures FrameSize(h).Some? <==> h.bitrate.Some? && h.samplerate.Some? && FrameSamples(h).Some?
    ensures FrameSize(h).Some? ==>
      var n := FrameSize(h).value - (if h.padding then SlotSize(h) else 0);
      var bits := FrameSamples(h).value * h.bitrate.value * 1000;
      h.samplerate.value * 8 * n <= bits < h.samplerate.value * 8 * (n + 1)
  {
    if FrameSize(h).Some? {
      var b, s, f := h.bitrate.value, h.samplerate.value, FrameSamples(h).value;
      var x := 125 * f * b;
      assert f * b * 1000 == 8 * x;
      ScaledQuotient(x, s, f * b * 1000);
    }
  }

  /** `n = x / s`, rounded down, is the whole number of `s`-sized steps in
      `x`, and so in `8 * x` for steps of `8 * s`. */
  lemma ScaledQuotient(x: nat, s: nat, bits: nat)
    requires s > 0 && bits == 8 * x
    ensures s * 8 * (x / s) <= bits < s * 8 * (x / s + 1)
  {
    var q, r := x / s, x % s;
    assert x == s * q + r;
    assert s * (q + 1) == s * q + s;
    MulAssoc(s, 8, q);
    MulAssoc(s, 8, q + 1);
  }

  /** Padding adds exactly one slot. */
  lemma PaddingAddsSlot(h: Header)
    requires h.samplerate != Some(0) && FrameSize(h).Some?
    ensures FrameSize(h.(padding := true)).value == FrameSize(h.(padding := false)).value + SlotSize(h)
  {
  }

  /** MPEG-1 Layer I, 32 kbps, 32000 Hz, no padding: 48 bytes. */
  lemma FrameSize32k()
    ensures FromBinary(0xffff_1800).Some?
    ensures FrameSize(FromBinary(0xffff_1800).value) == Some(48)
  {
  }

  /** At 44100 Hz the truncation is not to whole Layer I slots: MPEG-1 Layer I,
      32 kbps, no padding gives 34 bytes, not a multiple of the 4-byte slot. */
  lemma FrameSize44k()
    ensures FromBinary(0xffff_1000).Some?
    ensures FrameSize(FromBinary(0xffff_1000).value) == Some(34)
  {
  }

  /** A peeked value is a 32-bit word. */
  lemma PeekIsWord(data: seq<byte>, faults: set<nat>, pos: nat)
    ensures PeekSpec(data, faults, pos).result.Ok? ==> PeekSpec(data, faults, pos).result.value < 0x1_0000_0000
  {
    if PeekSpec(data, faults, pos).result.Ok? {
      var got := Window(data, pos, 4);
      assert |got + Zeros(4 - |got|)| == 4;
      Pow2Add(16, 16);
      Pow2Add(8, 8);
      Pow2Byte();
    }
  }

  /** What `read_from` returns, and where it leaves the cursor. */
  datatype Step = Step(result: Result<Option<Header>>, pos: nat)

  /** `read_from` after the peek `pk`: a peek error is passed on; a word
      without sync gives no header and leaves the cursor where the peek left it; a
      header moves the cursor on by 4 bytes, or by 6 when a 2-byte CRC follows. */
  function ReadFromPeek(pk: Peek): Step
    requires pk.result.Ok? ==> pk.result.value < 0x1_0000_0000
  {
    match pk.result
    case Err(e) => Step(Err(e), pk.pos)
    case Ok(v) =>
      match FromBinary(v)
      case None => Step(Ok(None), pk.pos)
      case Some(h) => Step(Ok(Some(h)), pk.pos + if h.crc then 6 else 4)
  }

  /** `read_from` at `pos`. */
  function ReadFromSpec(data: seq<byte>, faults: set<nat>, pos: nat): Step
  {
    PeekIsWord(data, faults, pos);
    ReadFromPeek(PeekSpec(data, faults, pos))
  }

  /** `Header::read_from`. */
  method ReadFrom(src: ByteSource) returns (r: Result<Option<Header>>)
    modifies src
    ensures Step(r, src.pos) == ReadFromSpec(src.data, src.faults, old(src.pos))
  {
    PeekIsWord(src.data, src.faults, src.pos);
    ghost var pk := PeekSpec(src.data, src.faults, src.pos);
    var peeked := PeekBeU32(src);
    assert pk == Peek(peeked, src.pos);
    if peeked.Err? {
      return Err(peeked.error);
    }
    var header := FromBinary(peeked.value);
    if header.None? {
      return Ok(None);
    }
    var sought := src.Seek(if header.value.crc then 6 else 4);
    match sought {
      case Err(e) => return Err(e);
      case Ok(_) => return Ok(Some(header.value));
    }
  }

  /** With four bytes available and no read error: a header is consumed along
      with its CRC, anything else leaves the cursor in place. */
  lemma ReadFromFullWindow(data: seq<byte>, faults: set<nat>, pos: nat)
    requires pos !in faults && pos + 4 <= |data|
    ensures var st := ReadFromSpec(data, faults, pos);
      st.result.Ok? &&
      (st.result.value.None? ==> st.pos == pos) &&
      (st.result.value.Some? ==> st.pos == pos + if st.result.value.value.crc then 6 else 4)
  {
  }
}
