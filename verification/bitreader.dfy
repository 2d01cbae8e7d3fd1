/** The MSB-first bit reader of `src/bitreader.rs`: it hands out 0 to 32 bits at a
    time from a byte source, keeping the unread low bits of the last byte it pulled
    in a sub-byte cache between calls. */
module BitReading {
  import opened BitStrings
  import opened Source

  const U64: nat := 0x1_0000_0000_0000_0000

  /** The value `read_bytes` accumulates in its 64-bit register: each byte shifts
      the register left by 8 (bits above 64 are lost) and is added at the bottom. */
  function BigEndianU64(s: seq<byte>): nat
  {
    if s == [] then 0 else (BigEndianU64(s[..|s| - 1]) * 256) % 0x1_0000_0000_0000_0000 + s[|s| - 1]
  }

  /** Up to 8 bytes fit in the register, so the accumulated value is the big-endian value. */
  lemma {:induction false} BigEndianU64Exact(s: seq<byte>)
    requires |s| <= 8
    ensures BigEndianU64(s) == BigEndian(s)
  {
    if s != [] {
      var init := s[..|s| - 1];
      BigEndianU64Exact(init);
      RegisterRoom(init);
      NoWrap64(BigEndian(init) * 256);
    }
  }

  /** One more byte shifts the register left by 8 and adds the byte at the bottom. */
  lemma RegisterStep(seen: seq<byte>, b: byte)
    ensures BigEndianU64(seen + [b]) == (BigEndianU64(seen) * 256) % 0x1_0000_0000_0000_0000 + b
  {
    assert (seen + [b])[..|seen|] == seen;
  }

  /** Up to 7 bytes leave room for one more byte in the register. */
  lemma RegisterRoom(init: seq<byte>)
    requires |init| <= 7
    ensures BigEndian(init) * 256 < 0x1_0000_0000_0000_0000
  {
    Pow2Mono(8 * |init|, 56);
    Pow2Add(56, 8);
    Pow2Byte();
    Pow2Of64();
  }

  lemma NoWrap64(x: nat)
    requires x < 0x1_0000_0000_0000_0000
    ensures x % 0x1_0000_0000_0000_0000 == x
  {
  }

  lemma {:induction false} Pow2Mono(a: nat, b: nat)
    requires a <= b
    ensures Pow2(a) <= Pow2(b)
    decreases b
  {
    if a < b {
      Pow2Mono(a, b - 1);
    }
  }

  lemma Pow2Of64()
    ensures Pow2(64) == U64
  {
    Pow2Byte();
    Pow2Add(8, 8);
    assert Pow2(16) == 0x1_0000;
    Pow2Add(16, 16);
    assert Pow2(32) == 0x1_0000_0000;
    Pow2Add(32, 32);
  }

  /** A pull that continues after the bytes `seen` have already been delivered. */
  function Resume(seen: seq<byte>, rest: Pull): Pull
  {
    Pull(seen + rest.bytes, rest.end, rest.ok)
  }

  lemma PullFault(data: seq<byte>, faults: set<nat>, pos: nat, n: nat, last: byte, seen: seq<byte>)
    requires n > 0 && pos in faults
    ensures Resume(seen, PullBytes(data, faults, pos, n, last)) == Pull(seen, pos, false)
  {
    assert seen + [] == seen;
  }

  /** One successful one-byte read moves one byte from the pull to `seen`. */
  lemma PullAdvance(data: seq<byte>, faults: set<nat>, pos: nat, next: nat, n: nat, last: byte,
                    b: byte, seen: seq<byte>)
    requires n > 0 && pos !in faults
    requires var got := Window(data, pos, 1); next == pos + |got| && [b] == got + [last][|got|..]
    ensures Resume(seen, PullBytes(data, faults, pos, n, last))
      == Resume(seen + [b], PullBytes(data, faults, next, n - 1, b))
  {
    var got := Window(data, pos, 1);
    assert b == [b][0] == (got + [last][|got|..])[0];
    assert b == if pos < |data| then data[pos] else last;
    var rest := PullBytes(data, faults, next, n - 1, b);
    assert seen + ([b] + rest.bytes) == (seen + [b]) + rest.bytes;
  }

  lemma PullDone(data: seq<byte>, faults: set<nat>, pos: nat, last: byte, seen: seq<byte>)
    ensures Resume(seen, PullBytes(data, faults, pos, 0, last)) == Pull(seen, pos, true)
  {
    assert seen + [] == seen;
  }

  /** The bytes a reader pulled while its history went from `fed0` to `fed`
      and the cursor from `pos0` to `pos`: the history did not shrink, and when
      no position of the source is faulty and the new bytes do not run past
      the end of the data, the cursor moved over exactly them and `fed` is
      `fed0` followed by the data found there (byte by byte, which keeps the
      predicate cheap to carry through loops). */
  ghost predicate Pulled(data: seq<byte>, faults: set<nat>, pos0: nat, pos: nat, fed0: seq<byte>, fed: seq<byte>)
  {
    |fed0| <= |fed| &&
    (faults == {} && pos0 + (|fed| - |fed0|) <= |data| ==>
      pos == pos0 + (|fed| - |fed0|) &&
      forall i :: 0 <= i < |fed| ==> fed[i] == if i < |fed0| then fed0[i] else data[pos0 + i - |fed0|])
  }

  /** A pull from `pos0` with no fault and within the data, as a slice. */
  lemma PulledSlice(data: seq<byte>, faults: set<nat>, pos0: nat, pos: nat, fed0: seq<byte>, fed: seq<byte>)
    requires Pulled(data, faults, pos0, pos, fed0, fed)
    requires faults == {} && pos0 + (|fed| - |fed0|) <= |data|
    ensures pos0 <= pos <= |data| && fed == fed0 + data[pos0..pos]
  {
    assert fed == fed0 + data[pos0..pos] by {
      forall i | 0 <= i < |fed|
        ensures fed[i] == (fed0 + data[pos0..pos])[i]
      {
      }
    }
  }

  /** Two records from the same starting point, the second at least as long:
      with no faulty position and within the data, the bytes pulled in
      between are the data between the two cursor positions. */
  lemma PulledBetween(data: seq<byte>, faults: set<nat>, origin: nat, pos0: nat, pos1: nat,
                      fed0: seq<byte>, fed1: seq<byte>)
    requires Pulled(data, faults, origin, pos0, [], fed0) && Pulled(data, faults, origin, pos1, [], fed1)
    requires faults == {} && |fed0| <= |fed1| && origin + |fed1| <= |data|
    ensures pos0 <= pos1 && fed1 == fed0 + data[pos0..pos1]
  {
    PulledSlice(data, faults, origin, pos0, [], fed0);
    PulledSlice(data, faults, origin, pos1, [], fed1);
    assert data[origin..pos1] == data[origin..pos0] + data[pos0..pos1];
  }

  /** Pulling nothing. */
  lemma PulledNothing(data: seq<byte>, faults: set<nat>, pos: nat, fed: seq<byte>)
    ensures Pulled(data, faults, pos, pos, fed, fed)
  {
  }

  /** Pulling `more` bytes after `fed0` with a single pull of the source. */
  lemma PulledOnce(data: seq<byte>, faults: set<nat>, pos0: nat, b: nat, fed0: seq<byte>)
    requires PullBytes(data, faults, pos0, b, 0).ok
    ensures var p := PullBytes(data, faults, pos0, b, 0);
      Pulled(data, faults, pos0, p.end, fed0, fed0 + p.bytes)
  {
    ConcatSplit(fed0, PullBytes(data, faults, pos0, b, 0).bytes);
    if faults == {} && pos0 + b <= |data| {
      PullInBounds(data, faults, pos0, b, 0);
    }
  }

  /** Two pulls one after the other are one pull. */
  lemma PulledThen(data: seq<byte>, faults: set<nat>, pos0: nat, pos1: nat, pos2: nat,
                   fed0: seq<byte>, fed1: seq<byte>, fed2: seq<byte>)
    requires Pulled(data, faults, pos0, pos1, fed0, fed1) && Pulled(data, faults, pos1, pos2, fed1, fed2)
    ensures Pulled(data, faults, pos0, pos2, fed0, fed2)
  {
    if faults == {} && pos0 + (|fed2| - |fed0|) <= |data| {
      forall i | 0 <= i < |fed2|
        ensures fed2[i] == if i < |fed0| then fed0[i] else data[pos0 + i - |fed0|]
      {
        if i < |fed1| {
          assert fed2[i] == fed1[i];
        }
      }
    }
  }

  /** The number of whole bytes `read_bits` pulls to obtain `k` more bits: the
      smallest count whose bits cover `k`. */
  function BytesNeeded(k: nat): (b: nat)
    ensures k <= 8 * b < k + 8
  {
    k / 8 + if k % 8 > 0 then 1 else 0
  }

  lemma ConcatBound(hi: nat, lo: nat, a: nat, b: nat)
    requires hi < Pow2(a) && lo < Pow2(b)
    ensures Shl(hi, b) + lo < Pow2(a + b)
  {
    Pow2Add(a, b);
    MulLe(hi + 1, Pow2(a), Pow2(b));
  }

  class BitReader {
    const src: ByteSource
    ghost const origin: nat  // the source's cursor when the reader was made
    var cache: nat        // the unread low bits of the last byte pulled
    var cacheLength: nat  // how many of them there are
    ghost var delivered: seq<bool>  // every bit returned so far, in order
    ghost var fed: seq<byte>        // every byte pulled into the reader so far

    /** The cache holds fewer than 8 bits, the bits handed out followed by
        the cached bits are exactly the bits of the bytes pulled in, and those
        bytes are what the source held from the cursor position the reader
        started at. */
    ghost predicate Valid()
      reads this, src
    {
      cacheLength <= 7 && cache < Pow2(cacheLength) &&
      delivered + Bits(cache, cacheLength) == BytesBits(fed) &&
      Pulled(src.data, src.faults, origin, src.pos, [], fed)
    }

    constructor (src: ByteSource)
      ensures this.src == src && origin == src.pos && cache == 0 && cacheLength == 0
      ensures delivered == [] && fed == [] && Valid()
    {
      this.src := src;
      origin := src.pos;
      cache, cacheLength := 0, 0;
      delivered, fed := [], [];
      new;
      PulledNothing(src.data, src.faults, src.pos, []);
    }

    /** `read_bytes`: `n` one-byte reads accumulated big-endian; a read error is
        passed on unchanged, a read that finds no byte is not noticed. */
    method ReadBytes(n: nat) returns (r: Result<nat>)
      modifies src
      ensures var p := PullBytes(src.data, src.faults, old(src.pos), n, 0);
        src.pos == p.end && r == (if p.ok then Ok(BigEndianU64(p.bytes)) else Err(ReadFault))
    {
      var data: nat := 0;
      var buf := new byte[1](_ => 0);
      ghost var seen: seq<byte> := [];
      ghost var left := n;
      ghost var whole := PullBytes(src.data, src.faults, src.pos, n, 0);
      for i := 0 to n
        invariant left == n - i
        invariant data == BigEndianU64(seen)
        invariant whole == Resume(seen, PullBytes(src.data, src.faults, src.pos, left, buf[0]))
      {
        ghost var pos0, last := src.pos, buf[0];
        var got := src.Read(buf);
        if got.Err? {
          PullFault(src.data, src.faults, pos0, left, last, seen);
          return Err(got.error);
        }
        var b := buf[0];
        assert buf[..] == [b];
        data := (data * 256) % 0x1_0000_0000_0000_0000 + b;
        PullAdvance(src.data, src.faults, pos0, src.pos, left, last, b, seen);
        RegisterStep(seen, b);
        seen, left := seen + [b], left - 1;
      }
      PullDone(src.data, src.faults, src.pos, buf[0], seen);
      return Ok(data);
    }

    /** `read_bits`: the next `n` bits of the stream, most-significant first. */
    method ReadBits(n: nat) returns (r: Result<nat>)
      requires Valid() && n <= 32
      modifies this, src
      ensures Valid()
      ensures r.Ok? ==> r.value < Pow2(n) && delivered == old(delivered) + Bits(r.value, n)
      ensures r.Err? ==>
        cache == old(cache) && cacheLength == old(cacheLength) &&
        delivered == old(delivered) && fed == old(fed)
      // only the source fails, and the bytes pulled are the source's
      ensures src.faults == {} ==> r.Ok?
      ensures Pulled(src.data, src.faults, old(src.pos), src.pos, old(fed), fed)
      // enough cached bits: the top `n` of them, and no byte is read
      ensures n <= old(cacheLength) ==>
        r.Ok? && r.value == Shr(old(cache), old(cacheLength) - n) &&
        cacheLength == old(cacheLength) - n && cache == Low(old(cache), cacheLength) &&
        src.pos == old(src.pos) && fed == old(fed)
      // otherwise: just enough whole bytes go below the cached bits
      ensures n > old(cacheLength) ==>
        var b := BytesNeeded(n - old(cacheLength));
        var p := PullBytes(src.data, src.faults, old(src.pos), b, 0);
        var sum := Shl(old(cache), 8 * b) + BigEndian(p.bytes);
        src.pos == p.end && r.Ok? == p.ok &&
        (p.ok ==>
          fed == old(fed) + p.bytes && cacheLength == 8 * b - (n - old(cacheLength)) &&
          r.value == Shr(sum, cacheLength) && cache == Low(sum, cacheLength))
    {
      if n <= cacheLength {
        r := Serve(n);
      } else {
        r := Refill(n);
      }
    }

    /** `read_bits(n).unwrap()` on a source that never fails. */
    method ReadBitsUnwrapped(n: nat) returns (v: nat)
      requires Valid() && n <= 32 && src.faults == {}
      modifies this, src
      ensures Valid() && v < Pow2(n) && delivered == old(delivered) + Bits(v, n)
    {
      var r := ReadBits(n);
      v := r.value;
    }

    /** The cache-hit branch of `read_bits`: the top `n` cached bits are
        returned and the rest stay cached; no byte is read. */
    method Serve(n: nat) returns (r: Result<nat>)
      requires Valid() && n <= cacheLength
      modifies this
      ensures Valid()
      ensures r.Ok? && r.value < Pow2(n) && delivered == old(delivered) + Bits(r.value, n)
      ensures r.value == Shr(old(cache), old(cacheLength) - n) &&
        cacheLength == old(cacheLength) - n && cache == Low(old(cache), cacheLength) && fed == old(fed)
      ensures Pulled(src.data, src.faults, src.pos, src.pos, fed, fed)
    {
      PulledNothing(src.data, src.faults, src.pos, fed);
      var result := Shr(cache, cacheLength - n);
      HitStep(delivered, cache, cacheLength, n, fed);
      cacheLength := cacheLength - n;
      if cacheLength == 0 {
        cache := 0;
      } else {
        cache := Low(cache, cacheLength);
      }
      delivered := delivered + Bits(result, n);
      return Ok(result);
    }

    /** The cache-miss branch of `read_bits`: just enough whole bytes are read
        and placed below the cached bits; the top `n` bits are returned and the
        rest become the new cache. */
    method Refill(n: nat) returns (r: Result<nat>)
      requires Valid() && cacheLength < n <= 32
      modifies this, src
      ensures Valid()
      ensures r.Ok? ==> r.value < Pow2(n) && delivered == old(delivered) + Bits(r.value, n)
      ensures r.Err? ==>
        cache == old(cache) && cacheLength == old(cacheLength) &&
        delivered == old(delivered) && fed == old(fed)
      ensures
        var b := BytesNeeded(n - old(cacheLength));
        var p := PullBytes(src.data, src.faults, old(src.pos), b, 0);
        var sum := Shl(old(cache), 8 * b) + BigEndian(p.bytes);
        src.pos == p.end && r.Ok? == p.ok &&
        (p.ok ==>
          fed == old(fed) + p.bytes && cacheLength == 8 * b - (n - old(cacheLength)) &&
          r.value == Shr(sum, cacheLength) && cache == Low(sum, cacheLength))
      ensures Pulled(src.data, src.faults, old(src.pos), src.pos, old(fed), fed)
    {
      var nToRead := n - cacheLength;
      var bToRead := BytesNeeded(nToRead);
      ghost var p := PullBytes(src.data, src.faults, src.pos, bToRead, 0);
      ghost var pos0 := src.pos;
      var read := ReadBytes(bToRead);
      if read.Err? {
        return Err(read.error);
      }
      PulledOnce(src.data, src.faults, pos0, bToRead, fed);
      PulledThen(src.data, src.faults, origin, pos0, src.pos, [], fed, fed + p.bytes);
      BigEndianU64Exact(p.bytes);
      // the shifted cache and the read bytes do not overlap, so `|` is `+`
      var sum := Shl(cache, 8 * bToRead) + read.value;
      var rest := 8 * bToRead - nToRead;
      MissStep(delivered, cache, cacheLength, n, fed, p.bytes, sum, rest);
      var result := Shr(sum, rest);
      cache, cacheLength := Low(sum, rest), rest;
      fed := fed + p.bytes;
      delivered := delivered + Bits(result, n);
      return Ok(result);
    }
  }

  /** A read served from the cache keeps the reader's invariant. */
  lemma HitStep(delivered: seq<bool>, cache: nat, cacheLength: nat, n: nat, fed: seq<byte>)
    requires cacheLength <= 7 && cache < Pow2(cacheLength)
    requires delivered + Bits(cache, cacheLength) == BytesBits(fed)
    requires n <= cacheLength
    ensures var rest := cacheLength - n;
      Shr(cache, rest) < Pow2(n) && (rest == 0 ==> Low(cache, rest) == 0) &&
      (delivered + Bits(Shr(cache, rest), n)) + Bits(Low(cache, rest), rest) == BytesBits(fed)
  {
    var rest := cacheLength - n;
    BitsSplit(cache, n, rest);
    DivBound(cache, n, rest);
  }



  /** A read that places `bytes` below the cached bits and keeps `rest` of the
      resulting bits cached keeps the reader's invariant. */
  lemma MissStep(delivered: seq<bool>, cache: nat, cacheLength: nat, n: nat, fed: seq<byte>,
                 bytes: seq<byte>, sum: nat, rest: nat)
    requires cache < Pow2(cacheLength)
    requires delivered + Bits(cache, cacheLength) == BytesBits(fed)
    requires sum == Shl(cache, 8 * |bytes|) + BigEndian(bytes) && n + rest == cacheLength + 8 * |bytes|
    ensures Shr(sum, rest) < Pow2(n)
    ensures (delivered + Bits(Shr(sum, rest), n)) + Bits(Low(sum, rest), rest) == BytesBits(fed + bytes)
  {
    MissBits(cache, cacheLength, bytes, n, rest);
    BytesBitsAppend(fed, bytes);
    var hi, lo := Bits(Shr(sum, rest), n), Bits(Low(sum, rest), rest);
    Assoc(delivered, hi, lo);
    Assoc(delivered, Bits(cache, cacheLength), BytesBits(bytes));
  }

  lemma Assoc<T>(a: seq<T>, b: seq<T>, c: seq<T>)
    ensures (a + b) + c == a + (b + c)
  {
  }

  /** Placing whole bytes below the cached bits and cutting the result `rest`
      bits from the bottom: the top `n` bits followed by the low `rest` bits are
      the cached bits followed by the bytes' bits. */
  lemma MissBits(cache: nat, cacheLength: nat, bytes: seq<byte>, n: nat, rest: nat)
    requires cache < Pow2(cacheLength) && n + rest == cacheLength + 8 * |bytes|
    ensures var sum := Shl(cache, 8 * |bytes|) + BigEndian(bytes);
      Shr(sum, rest) < Pow2(n) &&
      Bits(Shr(sum, rest), n) + Bits(Low(sum, rest), rest) == Bits(cache, cacheLength) + BytesBits(bytes)
  {
    var b := 8 * |bytes|;
    var read := BigEndian(bytes);
    var sum := Shl(cache, b) + read;
    BitsConcat(cache, read, cacheLength, b);
    BigEndianBits(bytes);
    BitsSplit(sum, n, rest);
    ConcatBound(cache, read, cacheLength, b);
    DivBound(sum, n, rest);
  }

  /** Reads whose widths add up to whole bytes leave the cache empty, and the
      bits returned are exactly the bytes pulled in, in order. */
  lemma AlignedRoundTrip(delivered: seq<bool>, cache: nat, cacheLength: nat, fed: seq<byte>)
    requires cacheLength <= 7 && delivered + Bits(cache, cacheLength) == BytesBits(fed)
    requires |delivered| % 8 == 0
    ensures cacheLength == 0 && BytesOfBits(delivered) == fed
  {
    WholeBytes(|delivered|, cacheLength, |fed|);
    assert delivered + Bits(cache, 0) == delivered;
    BytesBitsRoundTrip(fed);
  }

  /** A whole number of bytes' worth of bits, less fewer than 8, is the whole number. */
  lemma WholeBytes(bits: nat, rest: nat, bytes: nat)
    requires bits % 8 == 0 && rest <= 7 && bits + rest == 8 * bytes
    ensures rest == 0
  {
  }

  /** A `k`-bit value is determined by its bits, so the bits each read appends
      to the bits delivered fix the value it returned. */
  lemma BitsInjective(v: nat, w: nat, k: nat)
    requires v < Pow2(k) && w < Pow2(k) && Bits(v, k) == Bits(w, k)
    ensures v == w
  {
    BitsValueOfBits(v, k);
    BitsValueOfBits(w, k);
  }

  /** Equal concatenations with equally long left parts have equal parts. */
  lemma AppendCancel<T>(p: seq<T>, x: seq<T>, q: seq<T>, y: seq<T>)
    requires p + x == q + y && |p| == |q|
    ensures p == q && x == y
  {
    assert p == (p + x)[..|p|] && q == (q + y)[..|q|];
    assert x == (p + x)[|p|..] && y == (q + y)[|q|..];
  }

  function Sum(xs: seq<nat>): nat
  {
    if xs == [] then 0 else Sum(xs[..|xs| - 1]) + xs[|xs| - 1]
  }

  /** The bits of successive reads: `values[i]` written in `widths[i]` bits. */
  function Packed(values: seq<nat>, widths: seq<nat>): (bs: seq<bool>)
    requires |values| == |widths|
    ensures |bs| == Sum(widths)
  {
    if values == [] then []
    else Packed(values[..|values| - 1], widths[..|widths| - 1]) + Bits(values[|values| - 1], widths[|widths| - 1])
  }

  lemma PackedSnoc(values: seq<nat>, widths: seq<nat>, v: nat, w: nat)
    requires |values| == |widths|
    ensures Packed(values + [v], widths + [w]) == Packed(values, widths) + Bits(v, w)
  {
    assert (values + [v])[..|values|] == values;
    assert (widths + [w])[..|widths|] == widths;
  }

  /** Values that fit their widths are recovered from their bits: the tables
      are determined by the bit stream they were read from. */
  lemma {:induction false} PackedInjective(a: seq<nat>, b: seq<nat>, widths: seq<nat>)
    requires |a| == |b| == |widths|
    requires forall i :: 0 <= i < |a| ==> a[i] < Pow2(widths[i]) && b[i] < Pow2(widths[i])
    requires Packed(a, widths) == Packed(b, widths)
    ensures a == b
  {
    if a != [] {
      var n := |a| - 1;
      var p, q := Packed(a[..n], widths[..n]), Packed(b[..n], widths[..n]);
      var x, y := Bits(a[n], widths[n]), Bits(b[n], widths[n]);
      ConcatSnoc([], a);
      ConcatSnoc([], b);
      AppendCancel(p, x, q, y);
      PackedInjective(a[..n], b[..n], widths[..n]);
      BitsInjective(a[n], b[n], widths[n]);
    }
  }


  /** `accs[i]` is the number the first `i` values make, each shifted up past
      the later ones, and `ns[i]` its width in bits; every value fits its width. */
  ghost predicate Joins(values: seq<nat>, widths: seq<nat>, accs: seq<nat>, ns: seq<nat>)
  {
    |values| <= |widths| && |accs| == |ns| == |values| + 1 && accs[0] == 0 && ns[0] == 0 &&
    forall i :: 0 <= i < |values| ==> JoinStep(values, widths, accs, ns, i)
  }

  /** Read `i` fits its width and extends the number and the width before it. */
  ghost predicate JoinStep(values: seq<nat>, widths: seq<nat>, accs: seq<nat>, ns: seq<nat>, i: nat)
  {
    i < |values| && i < |widths| && i + 1 < |accs| && i + 1 < |ns| &&
    values[i] < Pow2(widths[i]) && accs[i + 1] == accs[i] * Pow2(widths[i]) + values[i] && ns[i + 1] == ns[i] + widths[i]
  }

  lemma JoinsSnoc(values: seq<nat>, widths: seq<nat>, accs: seq<nat>, ns: seq<nat>, v: nat, x: nat)
    requires Joins(values, widths, accs, ns) && |values| < |widths|
    requires v < Pow2(widths[|values|]) && x == accs[|values|] * Pow2(widths[|values|]) + v
    ensures Joins(values + [v], widths, accs + [x], ns + [ns[|values|] + widths[|values|]])
  {
    var values', accs', ns' := values + [v], accs + [x], ns + [ns[|values|] + widths[|values|]];
    forall i | 0 <= i < |values'|
      ensures JoinStep(values', widths, accs', ns', i)
    {
      if i < |values| {
        assert JoinStep(values, widths, accs, ns, i);
      }
    }
  }

  /** The facts `Joins` records about read `i`, with the width and its power
      of two given as numbers. */
  lemma JoinAt(values: seq<nat>, widths: seq<nat>, accs: seq<nat>, ns: seq<nat>, i: nat, width: nat, scale: nat)
    requires Joins(values, widths, accs, ns) && i < |values| && width == widths[i] && scale == Pow2(width)
    ensures values[i] < scale && accs[i + 1] == accs[i] * scale + values[i] && ns[i + 1] == ns[i] + width
  {
    assert JoinStep(values, widths, accs, ns, i);
  }

  /** The reads the unit tests make: a reader over a cursor on `data` asks for
      `widths[0]`, `widths[1]`, ... bits in turn and unwraps each result. Every
      read succeeds and returns a value of its width. When the widths add up to
      the whole stream, the number the values make, each shifted up past the
      later ones, is the stream read as one big-endian number: the reads hand
      out the stream's bits in order. */
  method RunReads(data: seq<byte>, widths: seq<nat>) returns (values: seq<nat>, ghost accs: seq<nat>, ghost ns: seq<nat>)
    requires forall i :: 0 <= i < |widths| ==> widths[i] <= 32
    ensures |values| == |widths| && Joins(values, widths, accs, ns)
    ensures ns[|widths|] == 8 * |data| ==> accs[|widths|] == BigEndian(data)
  {
    var reader;
    values, accs, ns, reader := ReadAll(data, widths);
    var n := |widths|;
    if ns[n] == 8 * |data| {
      ReadToEnd(data, reader.src.pos, reader.fed, reader.delivered, reader.cache, reader.cacheLength);
      BigEndianBits(data);
      BitsInjective(accs[n], BigEndian(data), ns[n]);
    }
  }

  /** The loop of `RunReads`: the values read, with the reader left behind. */
  method ReadAll(data: seq<byte>, widths: seq<nat>) returns (values: seq<nat>, ghost accs: seq<nat>, ghost ns: seq<nat>, reader: BitReader)
    requires forall i :: 0 <= i < |widths| ==> widths[i] <= 32
    ensures |values| == |widths| && Joins(values, widths, accs, ns)
    ensures reader.Valid() && reader.origin == 0 && reader.src.data == data && reader.src.faults == {}
    ensures reader.delivered == Bits(accs[|widths|], ns[|widths|]) && accs[|widths|] < Pow2(ns[|widths|])
  {
    var src := new ByteSource(data, {});
    reader := new BitReader(src);
    values, accs, ns := [], [0], [0];
    for i := 0 to |widths|
      invariant reader.Valid() && reader.src == src && reader.origin == 0
      invariant src.data == data && src.faults == {}
      invariant |values| == i && Joins(values, widths, accs, ns)
      invariant reader.delivered == Bits(accs[i], ns[i]) && accs[i] < Pow2(ns[i])
    {
      var v, x := ReadJoined(reader, widths[i], accs[i], ns[i]);
      JoinsSnoc(values, widths, accs, ns, v, x);
      values, accs, ns := values + [v], accs + [x], ns + [ns[i] + widths[i]];
    }
  }

  /** One unwrapped read of `w` bits after reads that handed out the bits of
      `acc` in `m` bits: together they hand out the bits of `x`, which is `acc`
      shifted up past the new value. */
  method ReadJoined(reader: BitReader, w: nat, ghost acc: nat, ghost m: nat) returns (v: nat, ghost x: nat)
    requires reader.Valid() && w <= 32 && reader.src.faults == {}
    requires reader.delivered == Bits(acc, m) && acc < Pow2(m)
    modifies reader, reader.src
    ensures reader.Valid() && v < Pow2(w) && x == acc * Pow2(w) + v
    ensures reader.delivered == Bits(x, m + w) && x < Pow2(m + w)
  {
    v := reader.ReadBitsUnwrapped(w);
    x := Join(acc, m, v, w, Pow2(w));
  }

  /** A reader started at the front of a fault-free stream that has handed out
      as many bits as the stream holds has handed out exactly the stream. */
  lemma ReadToEnd(data: seq<byte>, pos: nat, fed: seq<byte>, delivered: seq<bool>, cache: nat, cacheLength: nat)
    requires cacheLength <= 7 && delivered + Bits(cache, cacheLength) == BytesBits(fed)
    requires Pulled(data, {}, 0, pos, [], fed)
    requires |delivered| == 8 * |data|
    ensures delivered == BytesBits(data)
  {
    assert |delivered| + cacheLength == 8 * |fed|;
    assert cacheLength == 0;
    assert delivered == BytesBits(fed) by {
      assert Bits(cache, cacheLength) == [];
      assert delivered + [] == delivered;
    }
    assert |fed| == |data|;
    PulledSlice(data, {}, 0, pos, [], fed);
    assert fed == [] + data[0..pos];
    assert [] + data[0..pos] == data;
  }

  /** Two reads, `hi` of `m` bits then `lo` of `w` bits, hand out the bits of
      one number of `m + w` bits: `hi` shifted up past `lo`, that is, times
      `scale`, which is 2 to the `w`. */
  lemma Join(hi: nat, m: nat, lo: nat, w: nat, scale: nat) returns (x: nat)
    requires scale == Pow2(w) && hi < Pow2(m) && lo < scale
    ensures x == hi * scale + lo && x < Pow2(m + w)
    ensures Bits(hi, m) + Bits(lo, w) == Bits(x, m + w)
  {
    x := hi * scale + lo;
    BitsConcat(hi, lo, m, w);
    ConcatBound(hi, lo, m, w);
  }

  /** A number splits in one way only into a multiple of `d` and a remainder
      below `d`: the last value read is taken back out of the number the reads
      make. */
  lemma Peel(acc: nat, v: nat, d: nat, q: nat, r: nat)
    requires d > 0 && acc * d + v == q * d + r && v < d && r < d
    ensures acc == q && v == r
  {
    DivModUnique(acc * d + v, d, acc, v);
    DivModUnique(q * d + r, d, q, r);
  }

  /** `test_short_reads`: the stream FF AA 44 read 8, 4, 2, 1, 1, 3, 3, 2 bits
      at a time returns FF, A, 2, 1, 0, 2, 1, 0: the first read takes the first
      byte, the next four split the second byte and the last three the third. */
  method ShortReads() returns (values: seq<nat>)
    ensures values == [0xFF, 0xA, 0x2, 0x1, 0x0, 0x2, 0x1, 0x0]
  {
    ghost var accs, ns;
    values, accs, ns := RunReads([0xFF, 0xAA, 0x44], [8, 4, 2, 1, 1, 3, 3, 2]);
    ThreeBytesValue(0xFF, 0xAA, 0x44);
    ShortReadsValues(values, accs, ns);
  }

  /** The only values of widths 8, 4, 2, 1, 1, 3, 3, 2 that make FF AA 44. */
  lemma ShortReadsValues(values: seq<nat>, accs: seq<nat>, ns: seq<nat>)
    requires |values| == 8 && Joins(values, [8, 4, 2, 1, 1, 3, 3, 2], accs, ns)
    requires ns[8] == 24 ==> accs[8] == 0xFFAA44
    ensures values == [0xFF, 0xA, 0x2, 0x1, 0x0, 0x2, 0x1, 0x0]
  {
    var w := [8, 4, 2, 1, 1, 3, 3, 2];
    Pow2Table();
    JoinAt(values, w, accs, ns, 0, 8, 256);
    JoinAt(values, w, accs, ns, 1, 4, 16);
    JoinAt(values, w, accs, ns, 2, 2, 4);
    JoinAt(values, w, accs, ns, 3, 1, 2);
    JoinAt(values, w, accs, ns, 4, 1, 2);
    JoinAt(values, w, accs, ns, 5, 3, 8);
    JoinAt(values, w, accs, ns, 6, 3, 8);
    JoinAt(values, w, accs, ns, 7, 2, 4);
    Peel(accs[7], values[7], 4, 0x3F_EA91, 0);
    Peel(accs[6], values[6], 8, 0x7_FD52, 1);
    Peel(accs[5], values[5], 8, 0xFFAA, 2);
    Peel(accs[4], values[4], 2, 0x7FD5, 0);
    Peel(accs[3], values[3], 2, 0x3FEA, 1);
    Peel(accs[2], values[2], 4, 0xFFA, 2);
    Peel(accs[1], values[1], 16, 0xFF, 0xA);
  }

  /** `test_medium_reads`: the stream FF AA 44 A3 read 16, 12, 4 bits at a time
      returns FFAA, 44A, 3: reads of more than a byte. */
  method MediumReads() returns (values: seq<nat>)
    ensures values == [0xFFAA, 0x44A, 0x3]
  {
    ghost var accs, ns;
    values, accs, ns := RunReads([0xFF, 0xAA, 0x44, 0xA3], [16, 12, 4]);
    FourBytesValue(0xFF, 0xAA, 0x44, 0xA3);
    MediumReadsValues(values, accs, ns);
  }

  /** The only values of widths 16, 12, 4 that make FF AA 44 A3. */
  lemma MediumReadsValues(values: seq<nat>, accs: seq<nat>, ns: seq<nat>)
    requires |values| == 3 && Joins(values, [16, 12, 4], accs, ns)
    requires ns[3] == 32 ==> accs[3] == 0xFFAA_44A3
    ensures values == [0xFFAA, 0x44A, 0x3]
  {
    var w := [16, 12, 4];
    Pow2Table();
    JoinAt(values, w, accs, ns, 0, 16, 0x1_0000);
    JoinAt(values, w, accs, ns, 1, 12, 4096);
    JoinAt(values, w, accs, ns, 2, 4, 16);
    Peel(accs[2], values[2], 16, 0xFFA_A44A, 0x3);
    Peel(accs[1], values[1], 4096, 0xFFAA, 0x44A);
  }

  /** `test_large_reads`: the stream FF AA 44 A3 34 99 44 read 24 and then 32
      bits returns FFAA44 and A3349944: a read of the full 32 bits. */
  method LargeReads() returns (values: seq<nat>)
    ensures values == [0xFF_AA44, 0xA334_9944]
  {
    ghost var accs, ns;
    values, accs, ns := RunReads([0xFF, 0xAA, 0x44, 0xA3, 0x34, 0x99, 0x44], [24, 32]);
    SevenBytesValue(0xFF, 0xAA, 0x44, 0xA3, 0x34, 0x99, 0x44);
    LargeReadsValues(values, accs, ns);
  }

  /** The only values of widths 24, 32 that make FF AA 44 A3 34 99 44. */
  lemma LargeReadsValues(values: seq<nat>, accs: seq<nat>, ns: seq<nat>)
    requires |values| == 2 && Joins(values, [24, 32], accs, ns)
    requires ns[2] == 56 ==> accs[2] == 0xFF_AA44_A334_9944
    ensures values == [0xFF_AA44, 0xA334_9944]
  {
    var w := [24, 32];
    Pow2Of32();
    JoinAt(values, w, accs, ns, 0, 24, Pow2(24));
    JoinAt(values, w, accs, ns, 1, 32, 0x1_0000_0000);
    Peel(accs[1], values[1], 0x1_0000_0000, 0xFF_AA44, 0xA334_9944);
  }

  /** `test_stream`: the stream EA BD 21 read 4 bits at a time returns its
      nibbles E, A, B, D, 2, 1. */
  method NibbleStream() returns (values: seq<nat>)
    ensures values == [0xE, 0xA, 0xB, 0xD, 0x2, 0x1]
  {
    ghost var accs, ns;
    values, accs, ns := RunReads([0xEA, 0xBD, 0x21], [4, 4, 4, 4, 4, 4]);
    ThreeBytesValue(0xEA, 0xBD, 0x21);
    NibbleStreamValues(values, accs, ns);
  }

  /** The only six nibbles that make EA BD 21. */
  lemma NibbleStreamValues(values: seq<nat>, accs: seq<nat>, ns: seq<nat>)
    requires |values| == 6 && Joins(values, [4, 4, 4, 4, 4, 4], accs, ns)
    requires ns[6] == 24 ==> accs[6] == 0xEA_BD21
    ensures values == [0xE, 0xA, 0xB, 0xD, 0x2, 0x1]
  {
    var w := [4, 4, 4, 4, 4, 4];
    Pow2Table();
    JoinAt(values, w, accs, ns, 0, 4, 16);
    JoinAt(values, w, accs, ns, 1, 4, 16);
    JoinAt(values, w, accs, ns, 2, 4, 16);
    JoinAt(values, w, accs, ns, 3, 4, 16);
    JoinAt(values, w, accs, ns, 4, 4, 16);
    JoinAt(values, w, accs, ns, 5, 4, 16);
    Peel(accs[5], values[5], 16, 0xE_ABD2, 0x1);
    Peel(accs[4], values[4], 16, 0xEABD, 0x2);
    Peel(accs[3], values[3], 16, 0xEAB, 0xD);
    Peel(accs[2], values[2], 16, 0xEA, 0xB);
    Peel(accs[1], values[1], 16, 0xE, 0xA);
  }

  /** `test_stream2`: the stream 30 C8 61 read 6 bits at a time returns 12, 12,
      33, 33: reads that cross byte boundaries. */
  method SixBitReads() returns (values: seq<nat>)
    ensures values == [12, 12, 33, 33]
  {
    ghost var accs, ns;
    values, accs, ns := RunReads([0x30, 0xC8, 0x61], [6, 6, 6, 6]);
    ThreeBytesValue(0x30, 0xC8, 0x61);
    SixBitReadsValues(values, accs, ns);
  }

  /** The only four 6-bit values that make 30 C8 61. */
  lemma SixBitReadsValues(values: seq<nat>, accs: seq<nat>, ns: seq<nat>)
    requires |values| == 4 && Joins(values, [6, 6, 6, 6], accs, ns)
    requires ns[4] == 24 ==> accs[4] == 0x30_C861
    ensures values == [12, 12, 33, 33]
  {
    var w := [6, 6, 6, 6];
    Pow2Table();
    JoinAt(values, w, accs, ns, 0, 6, 64);
    JoinAt(values, w, accs, ns, 1, 6, 64);
    JoinAt(values, w, accs, ns, 2, 6, 64);
    JoinAt(values, w, accs, ns, 3, 6, 64);
    Peel(accs[3], values[3], 64, 49953, 33);
    Peel(accs[2], values[2], 64, 780, 33);
    Peel(accs[1], values[1], 64, 12, 12);
  }

  /** The powers of two the read widths of the vectors above use. */
  lemma Pow2Table()
    ensures Pow2(1) == 2 && Pow2(2) == 4 && Pow2(3) == 8 && Pow2(4) == 16 && Pow2(6) == 64
    ensures Pow2(8) == 256 && Pow2(12) == 4096 && Pow2(16) == 0x1_0000
  {
    assert Pow2(4) == 16;
    Pow2Add(4, 2);
    Pow2Add(4, 4);
    Pow2Add(8, 4);
    Pow2Add(8, 8);
  }

  lemma Pow2Of32()
    ensures Pow2(32) == 0x1_0000_0000
  {
    Pow2Table();
    Pow2Add(16, 16);
  }

  /** The big-endian value of three bytes. */
  lemma ThreeBytesValue(x: byte, y: byte, z: byte)
    ensures BigEndian([x, y, z]) == x * 0x1_0000 + y * 0x100 + z
  {
    assert [x, y, z] == [x, y] + [z] && [x, y] == [x] + [y] && [x] == [] + [x];
    BigEndianSnoc([], x);
    BigEndianSnoc([x], y);
    BigEndianSnoc([x, y], z);
  }

  /** The big-endian value of four bytes. */
  lemma FourBytesValue(w: byte, x: byte, y: byte, z: byte)
    ensures BigEndian([w, x, y, z]) == w * 0x100_0000 + x * 0x1_0000 + y * 0x100 + z
  {
    ThreeBytesValue(w, x, y);
    assert [w, x, y, z] == [w, x, y] + [z];
    BigEndianSnoc([w, x, y], z);
  }

  /** The big-endian value of seven bytes: the first three above the last four. */
  lemma SevenBytesValue(a: byte, b: byte, c: byte, d: byte, e: byte, f: byte, g: byte)
    ensures BigEndian([a, b, c, d, e, f, g]) ==
      (a * 0x1_0000 + b * 0x100 + c) * 0x1_0000_0000 + d * 0x100_0000 + e * 0x1_0000 + f * 0x100 + g
  {
    FourBytesValue(a, b, c, d);
    assert [a, b, c, d, e] == [a, b, c, d] + [e];
    BigEndianSnoc([a, b, c, d], e);
    assert [a, b, c, d, e, f] == [a, b, c, d, e] + [f];
    BigEndianSnoc([a, b, c, d, e], f);
    assert [a, b, c, d, e, f, g] == [a, b, c, d, e, f] + [g];
    BigEndianSnoc([a, b, c, d, e, f], g);
  }

  lemma BigEndianSnoc(s: seq<byte>, b: byte)
    ensures BigEndian(s + [b]) == BigEndian(s) * 256 + b
  {
    assert (s + [b])[..|s|] == s;
  }
}
