/** The older frame header of `header.rs`. Its version, layer, bitrate, sample
    rate and frame-samples lookups, its masks, `slot_size`, `frame_samples` and
    `frame_size` read the same as those of `src/header.rs` and are shared with
    `MpegHeader`; what differs is `from_binary`, which takes `crc` from the
    protection bit without inverting it, and `read_from`, which only decodes
    the peeked word and turns a peek error into "no header". */
module LegacyMpegHeader {
  import opened Source
  import opened MpegHeader

  /** `Header::from_binary` of `header.rs`: `crc` is the protection bit itself. */
  function FromBinary(w: Word): Option<Header>
  {
    if !HasSync(w) then None else Some(Fields(w, Flag(w, CrcAt)))
  }

  /** `Header::read_from` of `header.rs`, given what the peek returned. The
      peek of that snapshot is outside this model, so its result is the input. */
  function ReadFrom(peeked: Result<Word>): Option<Header>
  {
    match peeked
    case Err(_) => None
    case Ok(w) => FromBinary(w)
  }

  /** The snapshots agree on when there is a header and on every field but
      `crc`, which is the protection bit here and its inverse in `src/header.rs`. */
  lemma AgreesButCrc(w: Word)
    ensures FromBinary(w).Some? <==> MpegHeader.FromBinary(w).Some?
    ensures FromBinary(w).Some? ==>
      var h := FromBinary(w).value;
      h == MpegHeader.FromBinary(w).value.(crc := h.crc) &&
      h.crc == !MpegHeader.FromBinary(w).value.crc &&
      (h.crc <==> (w / 0x1_0000) % 2 == 1)
  {
  }

  /** Decoding a laid-out word recovers every field, with `crc` equal to the
      protection bit. */
  lemma FromBinaryLayout(version: nat, layer: nat, protection: nat, bitrate: nat, samplerate: nat,
                         padding: nat, private: nat, mode: nat, extension: nat, copyright: nat,
                         original: nat, emphasis: nat)
    requires version < 4 && layer < 4 && protection < 2 && bitrate < 16 && samplerate < 4
    requires padding < 2 && private < 2 && mode < 4 && extension < 4 && copyright < 2
    requires original < 2 && emphasis < 4
    ensures var w := Layout(version, layer, protection, bitrate, samplerate, padding, private, mode,
                            extension, copyright, original, emphasis);
      var v, l := NewMpegVersion(version), NewMpegLayer(layer);
      w < 0x1_0000_0000 &&
      FromBinary(w) == Some(Header(v, l, protection == 1,
        NewMpegBitrate(v, l, bitrate), NewMpegSamplerate(v, samplerate),
        padding == 1, private == 1, mode, extension, copyright == 1, original == 1,
        4 * original))
  {
    LayoutFields(version, layer, protection, bitrate, samplerate, padding, private, mode,
                 extension, copyright, original, emphasis);
  }

  /** A header comes back exactly when the peek succeeded on a word of at least
      `0xffe00000`; a peek error and a missing sync both give nothing. */
  lemma ReadFromMeaning(peeked: Result<Word>)
    ensures ReadFrom(peeked).Some? <==> peeked.Ok? && peeked.value >= 0xffe0_0000
    ensures ReadFrom(peeked).Some? ==> ReadFrom(peeked) == FromBinary(peeked.value)
  {
    if peeked.Ok? {
      FromBinarySync(peeked.value);
      AgreesButCrc(peeked.value);
    }
  }

  /** Against `read_from` of `src/header.rs` on the same peek: both find the
      same header but for `crc`, and where the newer one reports a peek error
      the older one reports no header. */
  lemma ReadFromAgainstNewer(pk: Peeking.Peek)
    requires pk.result.Ok? ==> pk.result.value < 0x1_0000_0000
    ensures var older := ReadFrom(if pk.result.Ok? then Ok(pk.result.value as Word) else Err(pk.result.error));
      var newer := ReadFromPeek(pk).result;
      (newer.Err? ==> older.None?) &&
      (newer == Ok(None) ==> older.None?) &&
      (newer.Ok? && newer.value.Some? ==> older == Some(newer.value.value.(crc := !newer.value.value.crc)))
  {
    if pk.result.Ok? {
      AgreesButCrc(pk.result.value);
    }
  }
}
