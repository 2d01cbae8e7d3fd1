/** The older Layer I decoding of `layer1.rs`: one channel of 32 subbands kept
    in growable lists. An allocation is stored as the 4-bit code plus one, with
    0 standing for a failed read; a 6-bit scale factor is read for every
    nonzero entry and only the successful reads are kept; `decode_samples`
    does nothing. The bit reader is the one of `BitReading`. */
module LegacyLayer1 {
  import opened BitStrings
  import opened Source
  import opened BitReading
  import opened Layer1

  /** The codes behind a legacy allocation list: entry `n > 0` was read as the
      code `n - 1`; an entry 0 stands for a failed read, which took no bits. */
  function Codes(allocations: seq<nat>): (c: seq<nat>)
    ensures |c| == |allocations|
    ensures forall i :: 0 <= i < |c| ==> c[i] == if allocations[i] != 0 then allocations[i] - 1 else 0
  {
    if allocations == [] then []
    else
      var n := allocations[|allocations| - 1];
      Codes(allocations[..|allocations| - 1]) + [if n != 0 then n - 1 else 0]
  }

  /** The bits a legacy allocation list took: 4 per successful read. */
  function AllocationBits(allocations: seq<nat>): seq<bool>
  {
    if allocations == [] then []
    else
      var n := allocations[|allocations| - 1];
      AllocationBits(allocations[..|allocations| - 1]) + if n != 0 then Bits(n - 1, 4) else []
  }

  /** A read that did not fail extends a list without failed reads. */
  lemma NoFailureStep(allocations: seq<nat>, n: nat)
    requires forall k :: 0 <= k < |allocations| ==> allocations[k] != 0
    requires n != 0
    ensures forall k :: 0 <= k < |allocations| + 1 ==> (allocations + [n])[k] != 0
  {
  }

  /** One read of `decode_bit_allocations`: a code read as `n - 1` takes its
      4 bits, a failed read (`n == 0`) none. */
  lemma AllocationStep(allocations: seq<nat>, n: nat, start: seq<bool>, mid: seq<bool>, after: seq<bool>)
    requires mid == start + AllocationBits(allocations)
    requires n != 0 ==> after == mid + Bits(n - 1, 4)
    requires n == 0 ==> after == mid
    ensures after == start + AllocationBits(allocations + [n])
  {
    assert (allocations + [n])[..|allocations|] == allocations;
    Assoc(start, AllocationBits(allocations), if n != 0 then Bits(n - 1, 4) else []);
  }

  lemma NonZeroStep(xs: seq<nat>, i: nat)
    requires i < |xs|
    ensures NonZero(xs[..i + 1]) == NonZero(xs[..i]) + if xs[i] != 0 then 1 else 0
  {
    TakeSnoc(xs, i);
    assert (xs[..i] + [xs[i]])[..i] == xs[..i];
  }

  /** Every entry of `xs` is below `bound`. */
  ghost predicate Below(xs: seq<nat>, bound: nat)
  {
    forall k :: 0 <= k < |xs| ==> xs[k] < bound
  }

  /** A successful scale-factor read appends its 6 bits and a value below 64. */
  lemma FactorStep(factors: seq<nat>, n: nat, start: seq<bool>, after: seq<bool>)
    requires (forall k :: 0 <= k < |factors| ==> factors[k] < 64) && n < 64
    requires after == start + PackedAt(factors, 6) + Bits(n, 6)
    ensures forall k :: 0 <= k < |factors| + 1 ==> (factors + [n])[k] < 64
    ensures after == start + PackedAt(factors + [n], 6)
  {
    forall k | 0 <= k < |factors| + 1
      ensures (factors + [n])[k] < 64
    {
      if k < |factors| {
        assert (factors + [n])[k] == factors[k];
      }
    }
    PackedAtSnoc(factors, 6, n);
    Assoc(start, PackedAt(factors, 6), Bits(n, 6));
  }

  /** One entry of the legacy `decode_bit_allocations`: the 4-bit code read
      plus one, or 0 when the read fails. */
  method ReadAllocation(bitReader: BitReader) returns (n: nat)
    requires bitReader.Valid()
    modifies bitReader, bitReader.src
    ensures bitReader.Valid() && n <= 16
    ensures n != 0 ==> bitReader.delivered == old(bitReader.delivered) + Bits(n - 1, 4)
    ensures n == 0 ==> bitReader.delivered == old(bitReader.delivered)
    ensures bitReader.src.faults == {} ==> n != 0
  {
    assert Pow2(4) == 16;
    var g := bitReader.ReadBits(4);
    n := match g case Ok(v) => v + 1 case Err(_) => 0;
  }

  /** `decode_bit_allocations` of `layer1.rs`: `size` reads of 4 bits, each
      pushed as the code plus one, or as 0 when the read fails. */
  method DecodeBitAllocations(bitReader: BitReader, size: nat) returns (allocations: seq<nat>)
    requires bitReader.Valid()
    modifies bitReader, bitReader.src
    ensures bitReader.Valid()
    ensures |allocations| == size && forall i :: 0 <= i < size ==> allocations[i] <= 16
    ensures bitReader.delivered == old(bitReader.delivered) + AllocationBits(allocations)
    ensures bitReader.src.faults == {} ==> forall i :: 0 <= i < size ==> allocations[i] != 0
  {
    allocations := [];
    ghost var start := bitReader.delivered;
    assert Pow2(4) == 16;
    AppendEmpty(start);
    for i := 0 to size
      invariant bitReader.Valid()
      invariant |allocations| == i && forall k :: 0 <= k < i ==> allocations[k] <= 16
      invariant bitReader.delivered == start + AllocationBits(allocations)
      invariant bitReader.src.faults == {} ==> forall k :: 0 <= k < i ==> allocations[k] != 0
    {
      ghost var mid := bitReader.delivered;
      var n := ReadAllocation(bitReader);
      if bitReader.src.faults == {} {
        NoFailureStep(allocations, n);
      }
      AllocationStep(allocations, n, start, mid, bitReader.delivered);
      allocations := allocations + [n];
    }
  }

  /** `decode_scale_factors` of `layer1.rs`: a 6-bit read for each of the first
      `size` allocations that is nonzero, keeping the value of each successful
      read and dropping each failed one (`failed` counts them); indexing past
      the allocation list panics. */
  method DecodeScaleFactors(bitReader: BitReader, size: nat, allocations: seq<nat>)
    returns (r: Outcome<seq<nat>>, ghost failed: nat)
    requires bitReader.Valid()
    modifies bitReader, bitReader.src
    ensures bitReader.Valid()
    ensures r.Panicked? <==> size > |allocations|
    ensures r.Done? ==>
      (forall i :: 0 <= i < |r.value| ==> r.value[i] < 64) &&
      |r.value| + failed == NonZero(allocations[..size]) &&
      bitReader.delivered == old(bitReader.delivered) + PackedAt(r.value, 6)
    ensures r.Done? && bitReader.src.faults == {} ==> failed == 0
  {
    var factors: seq<nat> := [];
    failed := 0;
    ghost var start := bitReader.delivered;
    assert Pow2(6) == 64;
    AppendEmpty(start);
    for i := 0 to size
      invariant bitReader.Valid()
      invariant i <= |allocations|
      invariant Below(factors, 64)
      invariant |factors| + failed == NonZero(allocations[..i])
      invariant bitReader.delivered == start + PackedAt(factors, 6)
      invariant bitReader.src.faults == {} ==> failed == 0
    {
      if i >= |allocations| {
        return Panicked, failed;
      }
      NonZeroStep(allocations, i);
      if allocations[i] != 0 {
        ghost var lost;
        factors, lost := ReadScaleFactor(bitReader, factors, start);
        if lost {
          failed := failed + 1;
        }
      }
    }
    return Done(factors), failed;
  }

  /** The scale factor of one allocated subband in the legacy
      `decode_scale_factors`: a 6-bit read, appended to `factors` when it
      succeeds and dropped (`lost`) when it fails. */
  method ReadScaleFactor(bitReader: BitReader, factors: seq<nat>, ghost start: seq<bool>)
    returns (grown: seq<nat>, ghost lost: bool)
    requires bitReader.Valid() && Below(factors, 64)
    requires bitReader.delivered == start + PackedAt(factors, 6)
    modifies bitReader, bitReader.src
    ensures bitReader.Valid() && Below(grown, 64)
    ensures |grown| == |factors| + (if lost then 0 else 1) && grown[..|factors|] == factors
    ensures bitReader.delivered == start + PackedAt(grown, 6)
    ensures lost ==> bitReader.src.faults != {}
  {
    assert Pow2(6) == 64;
    var g := bitReader.ReadBits(6);
    if g.Ok? {
      FactorStep(factors, g.value, start, bitReader.delivered);
      grown, lost := factors + [g.value], false;
    } else {
      grown, lost := factors, true;
    }
  }

  /** `decode_layer1` of `layer1.rs`: a fresh bit reader, 32 allocations, then
      the scale factors for them. The list has 32 entries, so the scale factors
      never index past it, and the frame never panics; nothing is returned. The
      ghost results are the two lists and the bits read. */
  method DecodeLayer1(src: ByteSource)
    returns (ghost allocations: seq<nat>, ghost scaleFactors: seq<nat>, ghost read: seq<bool>, ghost fed: seq<byte>)
    modifies src
    ensures |allocations| == 32 && forall i :: 0 <= i < 32 ==> allocations[i] <= 16
    ensures |scaleFactors| <= NonZero(allocations) && forall i :: 0 <= i < |scaleFactors| ==> scaleFactors[i] < 64
    ensures read == AllocationBits(allocations) + PackedAt(scaleFactors, 6)
    ensures |read| <= |BytesBits(fed)| < |read| + 8 && read == BytesBits(fed)[..|read|]
    ensures Pulled(src.data, src.faults, old(src.pos), src.pos, [], fed)
    ensures src.faults == {} ==>
      (forall i :: 0 <= i < 32 ==> allocations[i] != 0) && |scaleFactors| == 32 &&
      read == PackedAt(Codes(allocations), 4) + PackedAt(scaleFactors, 6)
  {
    var bitReader := new BitReader(src);
    var a := DecodeBitAllocations(bitReader, 32);
    assert [] + AllocationBits(a) == AllocationBits(a);
    var f, failed := DecodeScaleFactors(bitReader, 32, a);
    TakeAll(a);
    allocations, scaleFactors, read, fed := a, f.value, bitReader.delivered, bitReader.fed;
    if src.faults == {} {
      WithoutFailures(a, f.value);
    }
    assert read == (read + Bits(bitReader.cache, bitReader.cacheLength))[..|read|];
  }

  // ---------------------------------------------------------------------
  // Against `src/layer1.rs`

  /** The legacy allocation list for codes read without error: each plus one. */
  function Incremented(codes: seq<nat>): (allocations: seq<nat>)
    ensures |allocations| == |codes|
    ensures forall i :: 0 <= i < |codes| ==> allocations[i] == codes[i] + 1
  {
    if codes == [] then [] else Incremented(codes[..|codes| - 1]) + [codes[|codes| - 1] + 1]
  }

  /** A legacy allocation list with no failed read (no 0 entry) is its codes
      plus one. */
  lemma IncrementedCodes(allocations: seq<nat>)
    requires forall i :: 0 <= i < |allocations| ==> allocations[i] != 0
    ensures Incremented(Codes(allocations)) == allocations
  {
    var a := Incremented(Codes(allocations));
    assert forall i :: 0 <= i < |a| ==> a[i] == allocations[i];
  }

  /** When no allocation read fails, the legacy decoder takes exactly the bits
      the newer one does for the same codes (`PackedAt(codes, 4)`), and keeps
      every code plus one. */
  lemma AllocationsAgainstNewer(codes: seq<nat>)
    ensures Codes(Incremented(codes)) == codes
    ensures AllocationBits(Incremented(codes)) == PackedAt(codes, 4)
  {
    var a := Incremented(codes);
    assert Codes(a) == codes by {
      assert forall i :: 0 <= i < |codes| ==> Codes(a)[i] == codes[i];
    }
    IncrementedBits(codes);
  }

  lemma {:induction false} IncrementedBits(codes: seq<nat>)
    ensures AllocationBits(Incremented(codes)) == PackedAt(codes, 4)
  {
    if codes != [] {
      var init := codes[..|codes| - 1];
      IncrementedBits(init);
      assert Incremented(codes)[..|codes| - 1] == Incremented(init);
    }
  }

  /** Unlike the newer decoder, which skips the scale factor of a subband
      whose allocation code is 0, the legacy one reads a scale factor for every
      subband whose allocation was read without error, code 0 included. */
  lemma {:induction false} EveryScaleFactorRead(codes: seq<nat>)
    ensures NonZero(Incremented(codes)) == |codes|
  {
    if codes != [] {
      var init := codes[..|codes| - 1];
      EveryScaleFactorRead(init);
      assert Incremented(codes)[..|codes| - 1] == Incremented(init);
    }
  }

  /** An allocation list without failed reads: its bits are those of its
      codes, and a scale factor is read for every entry. */
  lemma WithoutFailures(allocations: seq<nat>, factors: seq<nat>)
    requires forall i :: 0 <= i < |allocations| ==> allocations[i] != 0
    requires |factors| == NonZero(allocations)
    ensures |factors| == |allocations|
    ensures AllocationBits(allocations) == PackedAt(Codes(allocations), 4)
  {
    IncrementedCodes(allocations);
    AllocationsAgainstNewer(Codes(allocations));
    EveryScaleFactorRead(Codes(allocations));
  }
}
