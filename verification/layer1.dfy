/** The Layer I side information and sample decoding of `src/layer1.rs`: a fresh
    bit reader per frame, 4-bit allocation codes and 6-bit scale-factor codes
    read subband by subband and channel by channel into `[2][32]` tables, and
    12 granules of samples, each taking as many bits as its allocation code.
    Sample values are floating point in the source; here a sample records which
    code was read, at what width, and which scale factor it is scaled by. */
module Layer1 {
  import opened BitStrings
  import opened Source
  import opened BitReading
  import opened MpegHeader

  /** The result of code that may panic (an `unwrap` of an error, an index out
      of range): `Panicked` ends the decoding. */
  datatype Outcome<T> = Done(value: T) | Panicked

  /** What `calculate_sample` computes from: the code read and its width, or
      nothing when the read failed (the source then returns 0.0). */
  datatype Quantum = Lost | Code(value: nat, width: nat)

  /** One decoded sample: 0.0 for an unallocated subband, or a quantum scaled
      by the scale factor with the given index. */
  datatype Sample = Silent | Scaled(quantum: Quantum, scale: nat)

  const Subbands: nat := 32
  const Granules: nat := 12

  /** `decode_layer1`'s channel count: single channel mode (3) has one channel,
      every other mode two. */
  function ChannelCount(h: Header): (c: nat)
    ensures 1 <= c <= 2
    ensures c == 1 <==> h.channelMode == 3
  {
    if h.channelMode != 3 then 2 else 1
  }

  /** A header has one channel exactly when both channel-mode bits (mask `0xc0`) are set. */
  lemma ChannelCountOfWord(w: Word)
    requires FromBinary(w).Some?
    ensures ChannelCount(FromBinary(w).value) == 1 <==> w % 0x100 >= 0xc0
  {
    ModeBits(w);
  }

  lemma ModeBits(w: nat)
    ensures (w / 0x40) % 4 == 3 <==> w % 0x100 >= 0xc0
  {
    var q, r := w / 0x100, w % 0x100;
    DivModUnique(w, 0x40, 4 * q + r / 0x40, r % 0x40);
    DivModUnique(4 * q + r / 0x40, 4, q, r / 0x40);
  }

  // ---------------------------------------------------------------------
  // Read order

  /** The rows of `g` one after another. */
  function Flat<T>(g: seq<seq<T>>): seq<T>
  {
    if g == [] then [] else Flat(g[..|g| - 1]) + g[|g| - 1]
  }

  lemma TakeSnoc<T>(s: seq<T>, i: nat)
    requires i < |s|
    ensures s[..i + 1] == s[..i] + [s[i]]
  {
  }

  lemma TakeAll<T>(s: seq<T>)
    ensures s[..|s|] == s
  {
  }

  lemma AppendEmpty<T>(s: seq<T>)
    ensures s + [] == s
  {
  }

  ghost predicate Rectangular<T>(g: seq<seq<T>>, width: nat)
  {
    forall i :: 0 <= i < |g| ==> |g[i]| == width
  }

  lemma {:induction false} FlatLength<T>(g: seq<seq<T>>, width: nat)
    requires Rectangular(g, width)
    ensures |Flat(g)| == |g| * width
  {
    if g != [] {
      var init := g[..|g| - 1];
      FlatLength(init, width);
      assert |Flat(g)| == |Flat(init)| + width;
      SuccMul(|init|, width);
    }
  }

  /** Entry `col` of row `row` is read at position `row * width + col`. */
  lemma {:induction false} FlatIndex<T>(g: seq<seq<T>>, width: nat, row: nat, col: nat)
    requires Rectangular(g, width) && row < |g| && col < width
    ensures row * width + col < |Flat(g)| && Flat(g)[row * width + col] == g[row][col]
  {
    var init := g[..|g| - 1];
    FlatLength(init, width);
    if row < |g| - 1 {
      FlatIndex(init, width, row, col);
      MulLe(row + 1, |g| - 1, width);
    }
  }

  /** Tables of the same shape read the same are the same. */
  lemma FlatInjective<T>(g: seq<seq<T>>, e: seq<seq<T>>, width: nat)
    requires Rectangular(g, width) && Rectangular(e, width) && |g| == |e| && Flat(g) == Flat(e)
    ensures g == e
  {
    forall i | 0 <= i < |g|
      ensures g[i] == e[i]
    {
      forall j | 0 <= j < width
        ensures g[i][j] == e[i][j]
      {
        FlatIndex(g, width, i, j);
        FlatIndex(e, width, i, j);
      }
    }
  }

  /** The `k`-th value read lands in row `k / width` (the subband) and column
      `k % width` (the channel). */
  lemma DivModSplit(k: nat, width: nat)
    requires width > 0
    ensures k == (k / width) * width + k % width && k % width < width
  {
  }

  lemma ReadOrder<T>(g: seq<seq<T>>, width: nat, k: nat)
    requires Rectangular(g, width) && width > 0 && k < |g| * width
    ensures k < |Flat(g)| && Flat(g)[k] == g[k / width][k % width]
  {
    var row, col := k / width, k % width;
    DivModSplit(k, width);
    if row >= |g| {
      MulLe(|g|, row, width);
      assert false;
    }
    FlatIndex(g, width, row, col);
  }

  // ---------------------------------------------------------------------
  // Bit accounting

  /** `n` copies of the width `w`. */
  function Const(n: nat, w: nat): (ws: seq<nat>)
    ensures |ws| == n && forall i :: 0 <= i < n ==> ws[i] == w
  {
    seq(n, _ => w)
  }

  /** The width each allocation gives a read that only happens for a nonzero
      allocation: `w` bits, or none. */
  function Widths(allocations: seq<nat>, w: nat): (ws: seq<nat>)
    ensures |ws| == |allocations|
    ensures forall i :: 0 <= i < |ws| ==> ws[i] == if allocations[i] != 0 then w else 0
  {
    if allocations == [] then []
    else Widths(allocations[..|allocations| - 1], w) + [if allocations[|allocations| - 1] != 0 then w else 0]
  }

  /** How many allocations are nonzero. */
  function NonZero(xs: seq<nat>): (n: nat)
    ensures n <= |xs|
  {
    if xs == [] then 0 else NonZero(xs[..|xs| - 1]) + if xs[|xs| - 1] != 0 then 1 else 0
  }

  /** The bits of successive reads of `w` bits each. */
  function PackedAt(values: seq<nat>, w: nat): (bs: seq<bool>)
    ensures |bs| == w * |values|
  {
    if values == [] then [] else PackedAt(values[..|values| - 1], w) + Bits(values[|values| - 1], w)
  }

  lemma PackedAtSnoc(values: seq<nat>, w: nat, v: nat)
    ensures PackedAt(values + [v], w) == PackedAt(values, w) + Bits(v, w)
  {
    assert (values + [v])[..|values|] == values;
  }

  /** The bits of a table read row by row, `w` bits per entry. */
  function PackedRows(g: seq<seq<nat>>, w: nat): (bs: seq<bool>)
  {
    if g == [] then [] else PackedRows(g[..|g| - 1], w) + PackedAt(g[|g| - 1], w)
  }

  lemma PackedRowsSnoc(g: seq<seq<nat>>, row: seq<nat>, w: nat)
    ensures PackedRows(g + [row], w) == PackedRows(g, w) + PackedAt(row, w)
  {
    assert (g + [row])[..|g|] == g;
  }

  lemma {:induction false} PackedAtAppend(a: seq<nat>, b: seq<nat>, w: nat)
    ensures PackedAt(a + b, w) == PackedAt(a, w) + PackedAt(b, w)
  {
    if b == [] {
      assert a + b == a;
    } else {
      var init, v := b[..|b| - 1], b[|b| - 1];
      PackedAtAppend(a, init, w);
      assert a + b == (a + init) + [v] && b == init + [v];
      PackedAtSnoc(a + init, w, v);
      PackedAtSnoc(init, w, v);
      Assoc(PackedAt(a, w), PackedAt(init, w), Bits(v, w));
    }
  }

  lemma FlatSnoc<T>(g: seq<seq<T>>, row: seq<T>)
    ensures Flat(g + [row]) == Flat(g) + row
  {
    assert (g + [row])[..|g|] == g;
  }

  /** Row by row is read order. */
  lemma {:induction false} PackedRowsFlat(g: seq<seq<nat>>, w: nat)
    ensures PackedRows(g, w) == PackedAt(Flat(g), w)
  {
    if g != [] {
      var init, row := g[..|g| - 1], g[|g| - 1];
      PackedRowsFlat(init, w);
      assert g == init + [row];
      FlatSnoc(init, row);
      PackedAtAppend(Flat(init), row, w);
    }
  }

  /** Reading at a fixed width is the general case with every width equal. */
  lemma {:induction false} PackedAtConst(values: seq<nat>, w: nat)
    ensures PackedAt(values, w) == Packed(values, Const(|values|, w))
  {
    if values != [] {
      PackedAtConst(values[..|values| - 1], w);
      assert Const(|values|, w)[..|values| - 1] == Const(|values| - 1, w);
    }
  }

  lemma {:induction false} PackedAppend(a: seq<nat>, wa: seq<nat>, b: seq<nat>, wb: seq<nat>)
    requires |a| == |wa| && |b| == |wb|
    ensures Packed(a + b, wa + wb) == Packed(a, wa) + Packed(b, wb)
  {
    if b == [] {
      assert a + b == a && wa + wb == wa;
    } else {
      var bi, wbi := b[..|b| - 1], wb[..|wb| - 1];
      var v, w := b[|b| - 1], wb[|wb| - 1];
      ConcatSnoc(a, b);
      ConcatSnoc(wa, wb);
      PackedAppend(a, wa, bi, wbi);
      PackedSnoc(a + bi, wa + wbi, v, w);
      PackedSnoc(bi, wbi, v, w);
      var pa, pb, tail := Packed(a, wa), Packed(bi, wbi), Bits(v, w);
      calc {
        Packed(a + b, wa + wb);
        Packed((a + bi) + [v], (wa + wbi) + [w]);
        Packed(a + bi, wa + wbi) + tail;
        (pa + pb) + tail;
        { Assoc(pa, pb, tail); }
        pa + (pb + tail);
        pa + Packed(b, wb);
      }
    }
  }

  lemma {:induction false} SumAppend(a: seq<nat>, b: seq<nat>)
    ensures Sum(a + b) == Sum(a) + Sum(b)
  {
    if b != [] {
      SumAppend(a, b[..|b| - 1]);
      assert (a + b)[..|a + b| - 1] == a + b[..|b| - 1];
    } else {
      assert a + b == a;
    }
  }

  lemma {:induction false} SumConst(n: nat, w: nat)
    ensures Sum(Const(n, w)) == n * w
  {
    if n > 0 {
      SumConst(n - 1, w);
      assert Const(n, w)[..n - 1] == Const(n - 1, w);
      assert n * w == (n - 1) * w + w;
    }
  }

  /** Reads that happen only for nonzero allocations take `w` bits per nonzero allocation. */
  lemma {:induction false} WidthsSum(allocations: seq<nat>, w: nat)
    ensures Sum(Widths(allocations, w)) == w * NonZero(allocations)
  {
    if allocations != [] {
      var init, last := allocations[..|allocations| - 1], allocations[|allocations| - 1];
      WidthsSum(init, w);
      var x := if last != 0 then w else 0;
      var n0 := NonZero(init);
      assert Widths(allocations, w) == Widths(init, w) + [x];
      assert NonZero(allocations) == n0 + if last != 0 then 1 else 0;
      SumAppend(Widths(init, w), [x]);
      assert Sum([x]) == x;
      MulSucc(w, n0);
    }
  }

  lemma SuccMul(n: nat, w: nat)
    ensures (n + 1) * w == n * w + w
  {
  }

  lemma MulSucc(w: nat, n: nat)
    ensures w * (n + 1) == w * n + w
  {
  }

  lemma WidthsAppend(a: seq<nat>, b: seq<nat>, w: nat)
    ensures Widths(a + b, w) == Widths(a, w) + Widths(b, w)
  {
  }

  /** The allocations of `S` subbands and `C` channels take `4 * S * C` bits. */
  lemma AllocationBitCount(g: seq<seq<nat>>, channels: nat)
    requires Rectangular(g, channels)
    ensures |PackedAt(Flat(g), 4)| == 4 * (|g| * channels)
  {
    FlatLength(g, channels);
  }

  /** The scale factors take 6 bits per nonzero allocation, and none otherwise. */
  lemma ScaleFactorBitCount(factors: seq<nat>, allocations: seq<nat>)
    requires |factors| == |allocations|
    ensures |Packed(factors, Widths(allocations, 6))| == 6 * NonZero(allocations)
  {
    WidthsSum(allocations, 6);
  }

  // ---------------------------------------------------------------------
  // The `[2][32]` tables

  /** Subband `sb` of a table, channel by channel. */
  ghost function Column(t: array2<nat>, sb: nat, channels: nat): (c: seq<nat>)
    requires sb < t.Length1 && channels <= t.Length0
    reads t
    ensures |c| == channels
  {
    if channels == 0 then [] else Column(t, sb, channels - 1) + [t[channels - 1, sb]]
  }

  /** The first `subbands` subbands of a table, in the order they are read. */
  ghost function Grid(t: array2<nat>, subbands: nat, channels: nat): (g: seq<seq<nat>>)
    requires subbands <= t.Length1 && channels <= t.Length0
    reads t
    ensures |g| == subbands && Rectangular(g, channels)
  {
    if subbands == 0 then [] else Grid(t, subbands - 1, channels) + [Column(t, subbands - 1, channels)]
  }

  lemma {:induction false} ColumnOf(t: array2<nat>, sb: nat, channels: nat, c: seq<nat>)
    requires sb < t.Length1 && channels <= t.Length0 && |c| == channels
    requires forall ch :: 0 <= ch < channels ==> t[ch, sb] == c[ch]
    ensures Column(t, sb, channels) == c
  {
    if channels > 0 {
      ColumnOf(t, sb, channels - 1, c[..channels - 1]);
    }
  }

  lemma {:induction false} GridOf(t: array2<nat>, subbands: nat, channels: nat, g: seq<seq<nat>>)
    requires subbands <= t.Length1 && channels <= t.Length0 && |g| == subbands && Rectangular(g, channels)
    requires forall sb, ch :: 0 <= sb < subbands && 0 <= ch < channels ==> t[ch, sb] == g[sb][ch]
    ensures Grid(t, subbands, channels) == g
  {
    if subbands > 0 {
      GridOf(t, subbands - 1, channels, g[..subbands - 1]);
      ColumnOf(t, subbands - 1, channels, g[subbands - 1]);
    }
  }

  lemma {:induction false} ColumnEntry(t: array2<nat>, sb: nat, channels: nat, ch: nat)
    requires sb < t.Length1 && channels <= t.Length0 && ch < channels
    ensures Column(t, sb, channels)[ch] == t[ch, sb]
  {
    if ch < channels - 1 {
      ColumnEntry(t, sb, channels - 1, ch);
    }
  }

  /** Entry `[sb][ch]` of the grid is the table entry of channel `ch`, subband `sb`. */
  lemma {:induction false} GridEntry(t: array2<nat>, subbands: nat, channels: nat, sb: nat, ch: nat)
    requires subbands <= t.Length1 && channels <= t.Length0 && sb < subbands && ch < channels
    ensures Grid(t, subbands, channels)[sb][ch] == t[ch, sb]
  {
    if sb < subbands - 1 {
      GridEntry(t, subbands - 1, channels, sb, ch);
    } else {
      ColumnEntry(t, sb, channels, ch);
    }
  }

  /** A `[2][32]` table whose entries are below `bound` and that is zero outside
      the subbands and channels read. */
  ghost predicate Table(t: array2<nat>, subbands: nat, channels: nat, bound: nat)
    reads t
  {
    t.Length0 == 2 && t.Length1 == 32 &&
    forall ch, sb :: 0 <= ch < 2 && 0 <= sb < 32 ==>
      t[ch, sb] < bound && (ch >= channels || sb >= subbands ==> t[ch, sb] == 0)
  }

  /** The first `subband` subbands of `t` hold `done`, each entry below
      `bound`; everything else is still zero. */
  ghost predicate Filled(t: array2<nat>, done: seq<seq<nat>>, subband: nat, channels: nat, bound: nat)
    reads t
  {
    t.Length0 == 2 && t.Length1 == 32 && subband <= 32 && channels <= 2 &&
    |done| == subband && Rectangular(done, channels) &&
    forall ch, sb :: 0 <= ch < 2 && 0 <= sb < 32 ==>
      t[ch, sb] == (if ch < channels && sb < subband then done[sb][ch] else 0) && t[ch, sb] < bound
  }

  /** As `Filled`, with the first `channel` channels of subband `subband` holding `row`. */
  ghost predicate Filling(t: array2<nat>, done: seq<seq<nat>>, row: seq<nat>, subband: nat, channel: nat,
                          channels: nat, bound: nat)
    reads t
  {
    t.Length0 == 2 && t.Length1 == 32 && subband < 32 && channel <= channels <= 2 &&
    |done| == subband && Rectangular(done, channels) && |row| == channel &&
    forall ch, sb :: 0 <= ch < 2 && 0 <= sb < 32 ==>
      t[ch, sb] == (if ch < channels && sb < subband then done[sb][ch]
                    else if sb == subband && ch < channel then row[ch]
                    else 0) &&
      t[ch, sb] < bound
  }

  /** Writing the next channel's entry extends the row. */
  lemma FillingStep(t: array2<nat>, done: seq<seq<nat>>, row: seq<nat>, subband: nat, channel: nat,
                    channels: nat, bound: nat)
    requires channel < channels <= 2 && subband < 32 && t.Length0 == 2 && t.Length1 == 32 && t[channel, subband] < bound
    requires |done| == subband && Rectangular(done, channels) && |row| == channel
    requires forall ch, sb :: 0 <= ch < 2 && 0 <= sb < 32 && (ch != channel || sb != subband) ==>
      t[ch, sb] == (if ch < channels && sb < subband then done[sb][ch]
                    else if sb == subband && ch < channel then row[ch]
                    else 0) &&
      t[ch, sb] < bound
    ensures Filling(t, done, row + [t[channel, subband]], subband, channel + 1, channels, bound)
  {
  }

  /** `table[channel][subband] = value`. */
  method Store(t: array2<nat>, ghost done: seq<seq<nat>>, ghost row: seq<nat>, subband: nat, channel: nat,
               ghost channels: nat, ghost bound: nat, value: nat)
    requires Filling(t, done, row, subband, channel, channels, bound) && channel < channels && value < bound
    modifies t
    ensures Filling(t, done, row + [value], subband, channel + 1, channels, bound)
  {
    t[channel, subband] := value;
    FillingStep(t, done, row, subband, channel, channels, bound);
  }

  /** A completed row becomes the next subband of `done`. */
  lemma FilledStep(t: array2<nat>, done: seq<seq<nat>>, row: seq<nat>, subband: nat, channels: nat, bound: nat)
    requires Filling(t, done, row, subband, channels, channels, bound)
    ensures Filled(t, done + [row], subband + 1, channels, bound)
  {
  }

  lemma FilledTable(t: array2<nat>, done: seq<seq<nat>>, subbands: nat, channels: nat, bound: nat)
    requires Filled(t, done, subbands, channels, bound)
    ensures Table(t, subbands, channels, bound) && Grid(t, subbands, channels) == done
  {
    GridOf(t, subbands, channels, done);
  }

  // ---------------------------------------------------------------------
  // Bit allocations

  /** `decode_bit_allocations`: a 4-bit code per subband and channel, subband
      by subband; a failed read panics in `unwrap`. The bits consumed are the
      codes in read order, 4 bits each. */
  method DecodeBitAllocations(bitReader: BitReader, subbands: nat, channels: nat) returns (r: Outcome<array2<nat>>)
    requires bitReader.Valid() && subbands <= 32 && channels <= 2
    modifies bitReader, bitReader.src
    ensures bitReader.Valid()
    ensures r.Done? ==> fresh(r.value) && Table(r.value, subbands, channels, 16)
    ensures r.Done? ==>
      bitReader.delivered == old(bitReader.delivered) + PackedAt(Flat(Grid(r.value, subbands, channels)), 4)
    ensures bitReader.src.faults == {} ==> r.Done?
  {
    var allocations := new nat[2, 32]((_, _) => 0);
    ghost var start := bitReader.delivered;
    ghost var done: seq<seq<nat>> := [];
    Pow2Byte();
    assert Pow2(4) == 16;
    for subband := 0 to subbands
      invariant bitReader.Valid()
      invariant Filled(allocations, done, subband, channels, 16)
      invariant bitReader.delivered == start + PackedRows(done, 4)
    {
      ghost var before := bitReader.delivered;
      ghost var row: seq<nat> := [];
      AppendEmpty(before);
      for channel := 0 to channels
        invariant bitReader.Valid()
        invariant Filling(allocations, done, row, subband, channel, channels, 16)
        invariant bitReader.delivered == before + PackedAt(row, 4)
      {
        var g := bitReader.ReadBits(4);
        if g.Err? {
          return Panicked;
        }
        PackedAtSnoc(row, 4, g.value);
        Assoc(before, PackedAt(row, 4), Bits(g.value, 4));
        Store(allocations, done, row, subband, channel, channels, 16, g.value);
        row := row + [g.value];
      }
      FilledStep(allocations, done, row, subband, channels, 16);
      PackedRowsSnoc(done, row, 4);
      Assoc(start, PackedRows(done, 4), PackedAt(row, 4));
      done := done + [row];
    }
    FilledTable(allocations, done, subbands, channels, 16);
    PackedRowsFlat(done, 4);
    return Done(allocations);
  }

  // ---------------------------------------------------------------------
  // Scale factors

  ghost predicate SameShape(g: seq<seq<nat>>, a: seq<seq<nat>>)
  {
    |g| == |a| && forall i :: 0 <= i < |g| ==> |g[i]| == |a[i]|
  }

  /** The bits of a table read row by row, entry `g[i][j]` taking `w` bits when
      `a[i][j]` is nonzero and none otherwise. */
  function PackedRowsWhere(g: seq<seq<nat>>, a: seq<seq<nat>>, w: nat): (bs: seq<bool>)
    requires SameShape(g, a)
  {
    if g == [] then []
    else PackedRowsWhere(g[..|g| - 1], a[..|a| - 1], w) + Packed(g[|g| - 1], Widths(a[|a| - 1], w))
  }

  lemma PackedRowsWhereSnoc(g: seq<seq<nat>>, a: seq<seq<nat>>, row: seq<nat>, arow: seq<nat>, w: nat)
    requires SameShape(g, a) && |row| == |arow|
    ensures SameShape(g + [row], a + [arow])
    ensures PackedRowsWhere(g + [row], a + [arow], w) == PackedRowsWhere(g, a, w) + Packed(row, Widths(arow, w))
  {
    assert (g + [row])[..|g|] == g;
    assert (a + [arow])[..|a|] == a;
  }

  /** Row by row is read order. */
  lemma {:induction false} PackedRowsWhereFlat(g: seq<seq<nat>>, a: seq<seq<nat>>, w: nat)
    requires SameShape(g, a)
    ensures |Flat(g)| == |Flat(a)| && PackedRowsWhere(g, a, w) == Packed(Flat(g), Widths(Flat(a), w))
  {
    if g != [] {
      var gi, ai, row, arow := g[..|g| - 1], a[..|a| - 1], g[|g| - 1], a[|a| - 1];
      assert SameShape(gi, ai);
      PackedRowsWhereFlat(gi, ai, w);
      ConcatSnoc([], g);
      ConcatSnoc([], a);
      FlatSnoc(gi, row);
      FlatSnoc(ai, arow);
      WidthsAppend(Flat(ai), arow, w);
      PackedAppend(Flat(gi), Widths(Flat(ai), w), row, Widths(arow, w));
    }
  }

  lemma WidthsSnoc(a: seq<nat>, x: nat, w: nat)
    ensures Widths(a + [x], w) == Widths(a, w) + [if x != 0 then w else 0]
  {
    assert (a + [x])[..|a|] == a;
  }

  lemma ScaleStep(row: seq<nat>, col: seq<nat>, x: nat, v: nat, w: nat)
    requires |row| == |col|
    ensures Packed(row + [v], Widths(col + [x], w)) == Packed(row, Widths(col, w)) + Bits(v, if x != 0 then w else 0)
  {
    WidthsSnoc(col, x, w);
    PackedSnoc(row, Widths(col, w), v, if x != 0 then w else 0);
  }

  /** Entry `[i][j]` of `g` is zero wherever that of `a` is. */
  ghost predicate ZeroWhere(g: seq<seq<nat>>, a: seq<seq<nat>>)
  {
    SameShape(g, a) &&
    forall i, j :: 0 <= i < |g| && 0 <= j < |g[i]| && a[i][j] == 0 ==> g[i][j] == 0
  }

  /** `row` is zero wherever the first `|row|` entries of `arow` are. */
  ghost predicate ZeroRow(row: seq<nat>, arow: seq<nat>)
  {
    |row| <= |arow| &&
    (row != [] ==> ZeroRow(row[..|row| - 1], arow) && (arow[|row| - 1] == 0 ==> row[|row| - 1] == 0))
  }

  lemma ZeroRowSnoc(row: seq<nat>, arow: seq<nat>, v: nat)
    requires ZeroRow(row, arow) && |row| < |arow| && (arow[|row|] == 0 ==> v == 0)
    ensures ZeroRow(row + [v], arow)
  {
    assert (row + [v])[..|row|] == row;
  }

  lemma {:induction false} ZeroRowAt(row: seq<nat>, arow: seq<nat>, j: nat)
    requires ZeroRow(row, arow) && j < |row| && arow[j] == 0
    ensures row[j] == 0
  {
    if j < |row| - 1 {
      ZeroRowAt(row[..|row| - 1], arow, j);
    }
  }

  lemma ZeroWhereSnoc(g: seq<seq<nat>>, a: seq<seq<nat>>, row: seq<nat>, arow: seq<nat>)
    requires ZeroWhere(g, a) && ZeroRow(row, arow) && |row| == |arow|
    ensures ZeroWhere(g + [row], a + [arow])
  {
    forall j | 0 <= j < |row| && arow[j] == 0
      ensures row[j] == 0
    {
      ZeroRowAt(row, arow, j);
    }
  }

  /** One channel of `decode_scale_factors`: the entry read (or 0, read from
      nothing) extends the row and its bits. */
  lemma ScaleFactorStep(row: seq<nat>, arow: seq<nat>, channel: nat, factor: nat,
                        before: seq<bool>, mid: seq<bool>, after: seq<bool>)
    requires channel < |arow| && |row| == channel && ZeroRow(row, arow)
    requires mid == before + Packed(row, Widths(arow[..channel], 6))
    requires arow[channel] != 0 ==> after == mid + Bits(factor, 6)
    requires arow[channel] == 0 ==> factor == 0 && after == mid
    ensures ZeroRow(row + [factor], arow)
    ensures after == before + Packed(row + [factor], Widths(arow[..channel + 1], 6))
  {
    ScaleStep(row, arow[..channel], arow[channel], factor, 6);
    TakeSnoc(arow, channel);
    Assoc(before, Packed(row, Widths(arow[..channel], 6)), Bits(factor, if arow[channel] != 0 then 6 else 0));
    ZeroRowSnoc(row, arow, factor);
  }

  /** One subband of `decode_scale_factors`: a whole row extends the table
      read so far and its bits. */
  lemma ScaleFactorsStep(done: seq<seq<nat>>, A: seq<seq<nat>>, row: seq<nat>, start: seq<bool>, after: seq<bool>)
    requires |done| < |A| && ZeroWhere(done, A[..|done|])
    requires ZeroRow(row, A[|done|]) && |row| == |A[|done|]|
    requires after == start + PackedRowsWhere(done, A[..|done|], 6) + Packed(row, Widths(A[|done|], 6))
    ensures ZeroWhere(done + [row], A[..|done| + 1])
    ensures after == start + PackedRowsWhere(done + [row], A[..|done| + 1], 6)
  {
    var k := |done|;
    TakeSnoc(A, k);
    ZeroWhereSnoc(done, A[..k], row, A[k]);
    PackedRowsWhereSnoc(done, A[..k], row, A[k], 6);
    Assoc(start, PackedRowsWhere(done, A[..k], 6), Packed(row, Widths(A[k], 6)));
  }

  /** The body of `decode_scale_factors`' subband loop: channel by channel, a
      6-bit read where the allocation is nonzero and 0 elsewhere. `false`
      reports the failed read that panics. */
  method DecodeScaleFactorRow(bitReader: BitReader, factors: array2<nat>, allocations: array2<nat>,
                              subband: nat, subbands: nat, channels: nat, ghost done: seq<seq<nat>>,
                              ghost arow: seq<nat>)
    returns (ok: bool, ghost row: seq<nat>)
    requires bitReader.Valid() && Filled(factors, done, subband, channels, 64) && subband < subbands <= 32
    requires allocations.Length0 == 2 && allocations.Length1 == 32 && factors != allocations
    requires arow == Grid(allocations, subbands, channels)[subband]
    modifies bitReader, bitReader.src, factors
    ensures bitReader.Valid()
    ensures ok ==>
      Filling(factors, done, row, subband, channels, channels, 64) && ZeroRow(row, arow) &&
      bitReader.delivered == old(bitReader.delivered) + Packed(row, Widths(arow, 6))
    ensures bitReader.src.faults == {} ==> ok
  {
    ghost var before := bitReader.delivered;
    row := [];
    AppendEmpty(before);
    Pow2Byte();
    assert Pow2(6) == 64;
    for channel := 0 to channels
      invariant bitReader.Valid()
      invariant Filling(factors, done, row, subband, channel, channels, 64)
      invariant ZeroRow(row, arow)
      invariant bitReader.delivered == before + Packed(row, Widths(arow[..channel], 6))
    {
      var allocation := allocations[channel, subband];
      GridEntry(allocations, subbands, channels, subband, channel);
      ghost var mid := bitReader.delivered;
      var factor: nat := 0;
      if allocation != 0 {
        var g := bitReader.ReadBits(6);
        if g.Err? {
          return false, row;
        }
        factor := g.value;
      }
      ScaleFactorStep(row, arow, channel, factor, before, mid, bitReader.delivered);
      Store(factors, done, row, subband, channel, channels, 64, factor);
      row := row + [factor];
    }
    TakeAll(arow);
    return true, row;
  }

  /** `decode_scale_factors`: a 6-bit code per subband and channel with a
      nonzero allocation, and 0 without reading for a zero allocation; a failed
      read panics in `unwrap`. The bits consumed are the codes of the allocated
      entries in read order. */
  method DecodeScaleFactors(bitReader: BitReader, subbands: nat, channels: nat, allocations: array2<nat>)
    returns (r: Outcome<array2<nat>>)
    requires bitReader.Valid() && subbands <= 32 && channels <= 2
    requires allocations.Length0 == 2 && allocations.Length1 == 32
    modifies bitReader, bitReader.src
    ensures bitReader.Valid()
    ensures r.Done? ==> fresh(r.value) && Table(r.value, subbands, channels, 64)
    ensures r.Done? ==> ZeroWhere(Grid(r.value, subbands, channels), Grid(allocations, subbands, channels))
    ensures r.Done? ==>
      var f, a := Flat(Grid(r.value, subbands, channels)), Flat(Grid(allocations, subbands, channels));
      |f| == |a| && bitReader.delivered == old(bitReader.delivered) + Packed(f, Widths(a, 6))
    ensures bitReader.src.faults == {} ==> r.Done?
  {
    var factors := new nat[2, 32]((_, _) => 0);
    ghost var start := bitReader.delivered;
    ghost var done: seq<seq<nat>> := [];
    ghost var A := Grid(allocations, subbands, channels);
    for subband := 0 to subbands
      invariant bitReader.Valid()
      invariant Filled(factors, done, subband, channels, 64)
      invariant ZeroWhere(done, A[..subband])
      invariant bitReader.delivered == start + PackedRowsWhere(done, A[..subband], 6)
    {
      ghost var arow := A[subband];
      var rowDone, row := DecodeScaleFactorRow(bitReader, factors, allocations, subband, subbands, channels, done, arow);
      if !rowDone {
        return Panicked;
      }
      FilledStep(factors, done, row, subband, channels, 64);
      ScaleFactorsStep(done, A, row, start, bitReader.delivered);
      done := done + [row];
    }
    FilledTable(factors, done, subbands, channels, 64);
    TakeAll(A);
    PackedRowsWhereFlat(done, A, 6);
    return Done(factors);
  }

  // ---------------------------------------------------------------------
  // Samples

  /** What a quantum read for allocation `nb` can be: a lost read, for a
      width `read_bits` accepts, or an `nb`-bit code with `nb` within the
      14-entry linear scaling table. */
  ghost predicate Fits(q: Quantum, nb: nat)
  {
    match q
    case Lost => nb <= 32
    case Code(v, w) => w == nb && nb <= 14 && v < Pow2(nb)
  }

  /** The bits a quantum took from the stream: none for a lost read. */
  function QuantumBits(q: Quantum): seq<bool>
  {
    match q
    case Lost => []
    case Code(v, w) => Bits(v, w)
  }

  /** `calculate_sample`: read an `nb`-bit code. `read_bits` panics above 32
      bits; a read error gives 0.0, here `Lost`; a code read with `nb` above 14
      indexes past the 14-entry linear scaling table and panics (`nb == 0`
      would use entry 0). */
  method CalculateSample(bitReader: BitReader, nb: nat) returns (r: Outcome<Quantum>)
    requires bitReader.Valid()
    modifies bitReader, bitReader.src
    ensures bitReader.Valid()
    ensures r.Panicked? ==> nb > 14
    ensures r.Done? ==> Fits(r.value, nb) && bitReader.delivered == old(bitReader.delivered) + QuantumBits(r.value)
    ensures r.Done? && r.value.Lost? ==> bitReader.src.faults != {}
    ensures bitReader.src.faults == {} ==> (r.Panicked? <==> nb > 14)
  {
    if nb > 32 {
      return Panicked;
    }
    ghost var before := bitReader.delivered;
    var g := bitReader.ReadBits(nb);
    match g {
      case Err(_) =>
        AppendEmpty(before);
        return Done(Lost);
      case Ok(s) =>
        var index := if nb == 0 then 0 else nb - 1;
        if index >= 14 {
          return Panicked;
        }
        return Done(Code(s, nb));
    }
  }

  /** What `decode_samples` stores for allocation `nb` and scale-factor index
      `sf`: 0.0 when the subband has no allocation; otherwise a quantum for
      `nb`, scaled by entry `sf` of the 64-entry scale-factor table. */
  ghost predicate Decoded(x: Sample, nb: nat, sf: nat)
  {
    if nb == 0 then x == Silent else x.Scaled? && x.scale == sf && sf < 64 && Fits(x.quantum, nb)
  }

  function SampleBits(x: Sample): seq<bool>
  {
    if x.Scaled? then QuantumBits(x.quantum) else []
  }

  /** The bits of one subband's samples, channel by channel. */
  function LineBits(line: seq<Sample>): seq<bool>
  {
    if line == [] then [] else LineBits(line[..|line| - 1]) + SampleBits(line[|line| - 1])
  }

  /** The bits of one granule, subband by subband. */
  function PlaneBits(plane: seq<seq<Sample>>): seq<bool>
  {
    if plane == [] then [] else PlaneBits(plane[..|plane| - 1]) + LineBits(plane[|plane| - 1])
  }

  /** The bits of the granules, granule by granule. */
  function FrameBits(frame: seq<seq<seq<Sample>>>): seq<bool>
  {
    if frame == [] then [] else FrameBits(frame[..|frame| - 1]) + PlaneBits(frame[|frame| - 1])
  }

  lemma LineBitsSnoc(line: seq<Sample>, x: Sample)
    ensures LineBits(line + [x]) == LineBits(line) + SampleBits(x)
  {
    assert (line + [x])[..|line|] == line;
  }

  lemma PlaneBitsSnoc(plane: seq<seq<Sample>>, line: seq<Sample>)
    ensures PlaneBits(plane + [line]) == PlaneBits(plane) + LineBits(line)
  {
    assert (plane + [line])[..|plane|] == plane;
  }

  lemma FrameBitsSnoc(frame: seq<seq<seq<Sample>>>, plane: seq<seq<Sample>>)
    ensures FrameBits(frame + [plane]) == FrameBits(frame) + PlaneBits(plane)
  {
    assert (frame + [plane])[..|frame|] == frame;
  }

  /** Each sample of `line` is decoded for its channel's allocation and scale factor. */
  ghost predicate DecodedLine(line: seq<Sample>, arow: seq<nat>, frow: seq<nat>)
  {
    |line| <= |arow| && |line| <= |frow| &&
    (line != [] ==>
      var k := |line| - 1;
      DecodedLine(line[..k], arow, frow) && Decoded(line[k], arow[k], frow[k]))
  }

  /** Each subband of `plane` is a whole line decoded for that subband. */
  ghost predicate DecodedPlane(plane: seq<seq<Sample>>, A: seq<seq<nat>>, F: seq<seq<nat>>)
  {
    |plane| <= |A| && |plane| <= |F| &&
    (plane != [] ==>
      var k := |plane| - 1;
      DecodedPlane(plane[..k], A, F) && |plane[k]| == |A[k]| && DecodedLine(plane[k], A[k], F[k]))
  }

  /** Each granule of `frame` is a whole plane decoded for the tables. */
  ghost predicate DecodedFrame(frame: seq<seq<seq<Sample>>>, A: seq<seq<nat>>, F: seq<seq<nat>>)
  {
    frame != [] ==>
      var k := |frame| - 1;
      DecodedFrame(frame[..k], A, F) && |frame[k]| == |A| && DecodedPlane(frame[k], A, F)
  }

  lemma DecodedLineSnoc(line: seq<Sample>, arow: seq<nat>, frow: seq<nat>, x: Sample)
    requires DecodedLine(line, arow, frow) && |line| < |arow| && |line| < |frow|
    requires Decoded(x, arow[|line|], frow[|line|])
    ensures DecodedLine(line + [x], arow, frow)
  {
    assert (line + [x])[..|line|] == line;
  }

  lemma DecodedPlaneSnoc(plane: seq<seq<Sample>>, A: seq<seq<nat>>, F: seq<seq<nat>>, line: seq<Sample>)
    requires DecodedPlane(plane, A, F) && |plane| < |A| && |plane| < |F|
    requires |line| == |A[|plane|]| && DecodedLine(line, A[|plane|], F[|plane|])
    ensures DecodedPlane(plane + [line], A, F)
  {
    assert (plane + [line])[..|plane|] == plane;
  }

  lemma DecodedFrameSnoc(frame: seq<seq<seq<Sample>>>, A: seq<seq<nat>>, F: seq<seq<nat>>, plane: seq<seq<Sample>>)
    requires DecodedFrame(frame, A, F) && |plane| == |A| && DecodedPlane(plane, A, F)
    ensures DecodedFrame(frame + [plane], A, F)
  {
    assert (frame + [plane])[..|frame|] == frame;
  }

  // The `[2][12][32]` sample buffer, indexed channel, granule, subband.

  /** Channels `0 .. c` of subband `s` in granule `g`. */
  ghost function Line(t: array3<Sample>, g: nat, s: nat, c: nat): (l: seq<Sample>)
    requires c <= t.Length0 && g < t.Length1 && s < t.Length2
    reads t
    ensures |l| == c
  {
    if c == 0 then [] else Line(t, g, s, c - 1) + [t[c - 1, g, s]]
  }

  /** Subbands `0 .. s` of granule `g`. */
  ghost function Plane(t: array3<Sample>, g: nat, s: nat, c: nat): (p: seq<seq<Sample>>)
    requires c <= t.Length0 && g < t.Length1 && s <= t.Length2
    reads t
    ensures |p| == s && Rectangular(p, c)
  {
    if s == 0 then [] else Plane(t, g, s - 1, c) + [Line(t, g, s - 1, c)]
  }

  /** Granules `0 .. g`, in the order they are decoded. */
  ghost function Frame(t: array3<Sample>, g: nat, s: nat, c: nat): (f: seq<seq<seq<Sample>>>)
    requires c <= t.Length0 && g <= t.Length1 && s <= t.Length2
    reads t
    ensures |f| == g && forall i :: 0 <= i < g ==> |f[i]| == s && Rectangular(f[i], c)
  {
    if g == 0 then [] else Frame(t, g - 1, s, c) + [Plane(t, g - 1, s, c)]
  }

  lemma {:induction false} LineOf(t: array3<Sample>, g: nat, s: nat, c: nat, l: seq<Sample>)
    requires c <= t.Length0 && g < t.Length1 && s < t.Length2 && |l| == c
    requires forall ch :: 0 <= ch < c ==> t[ch, g, s] == l[ch]
    ensures Line(t, g, s, c) == l
  {
    if c > 0 {
      LineOf(t, g, s, c - 1, l[..c - 1]);
    }
  }

  lemma {:induction false} PlaneOf(t: array3<Sample>, g: nat, s: nat, c: nat, p: seq<seq<Sample>>)
    requires c <= t.Length0 && g < t.Length1 && s <= t.Length2 && |p| == s && Rectangular(p, c)
    requires forall sb, ch :: 0 <= sb < s && 0 <= ch < c ==> t[ch, g, sb] == p[sb][ch]
    ensures Plane(t, g, s, c) == p
  {
    if s > 0 {
      PlaneOf(t, g, s - 1, c, p[..s - 1]);
      LineOf(t, g, s - 1, c, p[s - 1]);
    }
  }

  lemma {:induction false} FrameOf(t: array3<Sample>, g: nat, s: nat, c: nat, f: seq<seq<seq<Sample>>>)
    requires c <= t.Length0 && g <= t.Length1 && s <= t.Length2 && |f| == g
    requires forall i :: 0 <= i < g ==> |f[i]| == s && forall j :: 0 <= j < s ==> |f[i][j]| == c
    requires forall gr, sb, ch :: 0 <= gr < g && 0 <= sb < s && 0 <= ch < c ==> t[ch, gr, sb] == f[gr][sb][ch]
    ensures Frame(t, g, s, c) == f
  {
    if g > 0 {
      FrameOf(t, g - 1, s, c, f[..g - 1]);
      PlaneOf(t, g - 1, s, c, f[g - 1]);
    }
  }

  /** A `[2][12][32]` sample buffer that is 0.0 outside the subbands and channels decoded. */
  ghost predicate SampleTable(t: array3<Sample>, subbands: nat, channels: nat)
    reads t
  {
    t.Length0 == 2 && t.Length1 == Granules && t.Length2 == 32 && subbands <= 32 && channels <= 2 &&
    forall c, g, s :: 0 <= c < 2 && 0 <= g < Granules && 0 <= s < 32 && (c >= channels || s >= subbands) ==>
      t[c, g, s] == Silent
  }

  /** The buffer holds the granules `frame`, then the subbands `plane` of the
      next granule, then the channels `line` of the next subband, and 0.0
      everywhere else. */
  ghost predicate Holds(t: array3<Sample>, frame: seq<seq<seq<Sample>>>, plane: seq<seq<Sample>>, line: seq<Sample>,
                        subbands: nat, channels: nat)
    reads t
  {
    t.Length0 == 2 && t.Length1 == Granules && t.Length2 == 32 && subbands <= 32 && channels <= 2 &&
    |frame| <= Granules && (forall g :: 0 <= g < |frame| ==> |frame[g]| == subbands && Rectangular(frame[g], channels)) &&
    |plane| <= subbands && Rectangular(plane, channels) && |line| <= channels &&
    forall c, g, s :: 0 <= c < 2 && 0 <= g < Granules && 0 <= s < 32 ==>
      t[c, g, s] == (if c < channels && s < subbands && g < |frame| then frame[g][s][c]
                     else if c < channels && s < |plane| && g == |frame| then plane[s][c]
                     else if c < |line| && s == |plane| && g == |frame| then line[c]
                     else Silent)
  }

  /** One entry of `decode_samples`: with allocation `nb > 0`, the sample of
      `calculate_sample` scaled by entry `sf` of the scale-factor table, which
      panics for `sf` above 63; with no allocation 0.0, reading nothing. */
  method DecodeSample(bitReader: BitReader, nb: nat, sf: nat) returns (r: Outcome<Sample>)
    requires bitReader.Valid()
    modifies bitReader, bitReader.src
    ensures bitReader.Valid()
    ensures r.Panicked? ==> nb > 14 || (nb != 0 && sf >= 64)
    ensures r.Done? ==> Decoded(r.value, nb, sf) && bitReader.delivered == old(bitReader.delivered) + SampleBits(r.value)
    ensures r.Done? && !Complete(r.value) ==> bitReader.src.faults != {}
    ensures bitReader.src.faults == {} ==> (r.Panicked? <==> nb > 14 || (nb != 0 && sf >= 64))
  {
    if nb == 0 {
      AppendEmpty(bitReader.delivered);
      return Done(Silent);
    }
    var q := CalculateSample(bitReader, nb);
    match q {
      case Panicked => return Panicked;
      case Done(quantum) =>
        if sf >= 64 {
          return Panicked;
        }
        return Done(Scaled(quantum, sf));
    }
  }

  /** `samples[channel][granule][subband] = x`. */
  method StoreSample(t: array3<Sample>, ghost frame: seq<seq<seq<Sample>>>, ghost plane: seq<seq<Sample>>,
                     ghost line: seq<Sample>, granule: nat, subband: nat, channel: nat,
                     ghost subbands: nat, ghost channels: nat, x: Sample)
    requires Holds(t, frame, plane, line, subbands, channels)
    requires granule == |frame| < Granules && subband == |plane| < subbands && channel == |line| < channels
    modifies t
    ensures Holds(t, frame, plane, line + [x], subbands, channels)
  {
    t[channel, granule, subband] := x;
  }

  /** A completed line becomes the next subband of the plane. */
  lemma HoldsLine(t: array3<Sample>, frame: seq<seq<seq<Sample>>>, plane: seq<seq<Sample>>, line: seq<Sample>,
                  subbands: nat, channels: nat)
    requires Holds(t, frame, plane, line, subbands, channels) && |line| == channels && |plane| < subbands
    ensures Holds(t, frame, plane + [line], [], subbands, channels)
  {
  }

  /** A completed plane becomes the next granule of the frame. */
  lemma HoldsPlane(t: array3<Sample>, frame: seq<seq<seq<Sample>>>, plane: seq<seq<Sample>>, subbands: nat, channels: nat)
    requires Holds(t, frame, plane, [], subbands, channels) && |plane| == subbands && |frame| < Granules
    ensures Holds(t, frame + [plane], [], [], subbands, channels)
  {
  }

  lemma HoldsFrame(t: array3<Sample>, frame: seq<seq<seq<Sample>>>, subbands: nat, channels: nat)
    requires Holds(t, frame, [], [], subbands, channels) && |frame| == Granules
    ensures SampleTable(t, subbands, channels) && Frame(t, Granules, subbands, channels) == frame
  {
    FrameOf(t, Granules, subbands, channels, frame);
  }

  /** `decode_samples`: 12 granules, each subband by subband and channel by
      channel. A subband with allocation `nb > 0` gets `calculate_sample` of
      `nb` bits scaled by its scale factor, one with no allocation gets 0.0
      without reading. It panics only on an allocation above 14 or a scale
      factor index above 63, and the bits consumed are the codes of the
      samples in decoding order. */
  method DecodeSamples(bitReader: BitReader, subbands: nat, channels: nat, allocations: array2<nat>,
                       scaleFactors: array2<nat>) returns (r: Outcome<array3<Sample>>)
    requires bitReader.Valid() && subbands <= 32 && channels <= 2
    requires allocations.Length0 == 2 && allocations.Length1 == 32
    requires scaleFactors.Length0 == 2 && scaleFactors.Length1 == 32
    modifies bitReader, bitReader.src
    ensures bitReader.Valid()
    ensures r.Panicked? ==>
      exists ch, sb :: 0 <= ch < channels && 0 <= sb < subbands &&
        (allocations[ch, sb] > 14 || (allocations[ch, sb] != 0 && scaleFactors[ch, sb] >= 64))
    ensures r.Done? ==> fresh(r.value) && SampleTable(r.value, subbands, channels)
    ensures r.Done? ==>
      var frame := Frame(r.value, Granules, subbands, channels);
      DecodedFrame(frame, Grid(allocations, subbands, channels), Grid(scaleFactors, subbands, channels)) &&
      bitReader.delivered == old(bitReader.delivered) + FrameBits(frame)
    ensures r.Done? && bitReader.src.faults == {} ==> CompleteFrame(Frame(r.value, Granules, subbands, channels))
  {
    var samples := new Sample[2, 12, 32]((_, _, _) => Silent);
    ghost var start := bitReader.delivered;
    ghost var A := Grid(allocations, subbands, channels);
    ghost var F := Grid(scaleFactors, subbands, channels);
    ghost var frame: seq<seq<seq<Sample>>> := [];
    AppendEmpty(start);
    for granule := 0 to Granules
      invariant bitReader.Valid()
      invariant |frame| == granule && Holds(samples, frame, [], [], subbands, channels)
      invariant DecodedFrame(frame, A, F)
      invariant bitReader.delivered == start + FrameBits(frame)
      invariant bitReader.src.faults == {} ==> CompleteFrame(frame)
    {
      var done, plane := DecodeGranule(bitReader, samples, granule, subbands, channels, allocations, scaleFactors, frame);
      if !done {
        return Panicked;
      }
      if bitReader.src.faults == {} {
        CompleteFrameSnoc(frame, plane);
      }
      FrameBitsSnoc(frame, plane);
      Assoc(start, FrameBits(frame), PlaneBits(plane));
      DecodedFrameSnoc(frame, A, F, plane);
      HoldsPlane(samples, frame, plane, subbands, channels);
      frame := frame + [plane];
    }
    HoldsFrame(samples, frame, subbands, channels);
    return Done(samples);
  }

  /** The body of `decode_samples`' granule loop: subband by subband, channel
      by channel. */
  method DecodeGranule(bitReader: BitReader, samples: array3<Sample>, granule: nat, subbands: nat, channels: nat,
                       allocations: array2<nat>, scaleFactors: array2<nat>, ghost frame: seq<seq<seq<Sample>>>)
    returns (done: bool, ghost plane: seq<seq<Sample>>)
    requires bitReader.Valid() && Holds(samples, frame, [], [], subbands, channels) && granule == |frame| < Granules
    requires allocations.Length0 == 2 && allocations.Length1 == 32
    requires scaleFactors.Length0 == 2 && scaleFactors.Length1 == 32
    modifies bitReader, bitReader.src, samples
    ensures bitReader.Valid()
    ensures !done ==>
      exists ch, sb :: 0 <= ch < channels && 0 <= sb < subbands &&
        (allocations[ch, sb] > 14 || (allocations[ch, sb] != 0 && scaleFactors[ch, sb] >= 64))
    ensures done ==>
      |plane| == subbands && Holds(samples, frame, plane, [], subbands, channels) &&
      DecodedPlane(plane, Grid(allocations, subbands, channels), Grid(scaleFactors, subbands, channels)) &&
      bitReader.delivered == old(bitReader.delivered) + PlaneBits(plane)
    ensures done && bitReader.src.faults == {} ==>
      forall s, c :: 0 <= s < |plane| && 0 <= c < |plane[s]| ==> Complete(plane[s][c])
  {
    ghost var A := Grid(allocations, subbands, channels);
    ghost var F := Grid(scaleFactors, subbands, channels);
    ghost var start := bitReader.delivered;
    plane := [];
    AppendEmpty(start);
    for subband := 0 to subbands
      invariant bitReader.Valid()
      invariant |plane| == subband && Holds(samples, frame, plane, [], subbands, channels)
      invariant DecodedPlane(plane, A, F)
      invariant bitReader.delivered == start + PlaneBits(plane)
      invariant bitReader.src.faults == {} ==>
        forall s, c :: 0 <= s < |plane| && 0 <= c < |plane[s]| ==> Complete(plane[s][c])
    {
      var lineDone, line := DecodeLine(bitReader, samples, granule, subband, subbands, channels,
                                       allocations, scaleFactors, frame, plane);
      if !lineDone {
        ghost var ch :| 0 <= ch < channels &&
          (allocations[ch, subband] > 14 || (allocations[ch, subband] != 0 && scaleFactors[ch, subband] >= 64));
        assert 0 <= subband < subbands;
        return false, plane;
      }
      if bitReader.src.faults == {} {
        CompletePlaneSnoc(plane, line);
      }
      PlaneBitsSnoc(plane, line);
      Assoc(start, PlaneBits(plane), LineBits(line));
      DecodedPlaneSnoc(plane, A, F, line);
      HoldsLine(samples, frame, plane, line, subbands, channels);
      plane := plane + [line];
    }
    return true, plane;
  }

  /** One channel of `decode_samples`: a decoded sample extends the line and
      its bits. */
  lemma LineStep(line: seq<Sample>, arow: seq<nat>, frow: seq<nat>, x: Sample, start: seq<bool>, after: seq<bool>)
    requires DecodedLine(line, arow, frow) && |line| < |arow| && |line| < |frow|
    requires Decoded(x, arow[|line|], frow[|line|])
    requires after == start + LineBits(line) + SampleBits(x)
    ensures DecodedLine(line + [x], arow, frow)
    ensures after == start + LineBits(line + [x])
  {
    LineBitsSnoc(line, x);
    Assoc(start, LineBits(line), SampleBits(x));
    DecodedLineSnoc(line, arow, frow, x);
  }

  /** The body of `decode_samples`' channel loop: the sample of channel
      `channel` decoded and stored. */
  method DecodeChannel(bitReader: BitReader, samples: array3<Sample>, granule: nat, subband: nat, channel: nat,
                       subbands: nat, channels: nat, allocations: array2<nat>, scaleFactors: array2<nat>,
                       ghost frame: seq<seq<seq<Sample>>>, ghost plane: seq<seq<Sample>>, ghost line: seq<Sample>)
    returns (done: bool, ghost x: Sample)
    requires bitReader.Valid() && Holds(samples, frame, plane, line, subbands, channels)
    requires granule == |frame| < Granules && subband == |plane| < subbands && channel == |line| < channels
    requires allocations.Length0 == 2 && allocations.Length1 == 32
    requires scaleFactors.Length0 == 2 && scaleFactors.Length1 == 32
    modifies bitReader, bitReader.src, samples
    ensures bitReader.Valid()
    ensures !done ==>
      allocations[channel, subband] > 14 || (allocations[channel, subband] != 0 && scaleFactors[channel, subband] >= 64)
    ensures done ==>
      Holds(samples, frame, plane, line + [x], subbands, channels) &&
      Decoded(x, allocations[channel, subband], scaleFactors[channel, subband]) &&
      bitReader.delivered == old(bitReader.delivered) + SampleBits(x)
    ensures done && bitReader.src.faults == {} ==> Complete(x)
  {
    var y := DecodeSample(bitReader, allocations[channel, subband], scaleFactors[channel, subband]);
    if y.Panicked? {
      return false, Silent;
    }
    StoreSample(samples, frame, plane, line, granule, subband, channel, subbands, channels, y.value);
    return true, y.value;
  }

  /** The body of `decode_samples`' subband loop: channel by channel. */
  method DecodeLine(bitReader: BitReader, samples: array3<Sample>, granule: nat, subband: nat, subbands: nat,
                    channels: nat, allocations: array2<nat>, scaleFactors: array2<nat>,
                    ghost frame: seq<seq<seq<Sample>>>, ghost plane: seq<seq<Sample>>)
    returns (done: bool, ghost line: seq<Sample>)
    requires bitReader.Valid() && Holds(samples, frame, plane, [], subbands, channels)
    requires granule == |frame| < Granules && subband == |plane| < subbands
    requires allocations.Length0 == 2 && allocations.Length1 == 32
    requires scaleFactors.Length0 == 2 && scaleFactors.Length1 == 32
    modifies bitReader, bitReader.src, samples
    ensures bitReader.Valid()
    ensures !done ==>
      exists ch :: 0 <= ch < channels &&
        (allocations[ch, subband] > 14 || (allocations[ch, subband] != 0 && scaleFactors[ch, subband] >= 64))
    ensures done ==>
      |line| == channels && Holds(samples, frame, plane, line, subbands, channels) &&
      DecodedLine(line, Grid(allocations, subbands, channels)[subband], Grid(scaleFactors, subbands, channels)[subband]) &&
      bitReader.delivered == old(bitReader.delivered) + LineBits(line)
    ensures done && bitReader.src.faults == {} ==> forall c :: 0 <= c < |line| ==> Complete(line[c])
  {
    ghost var arow := Grid(allocations, subbands, channels)[subband];
    ghost var frow := Grid(scaleFactors, subbands, channels)[subband];
    ghost var start := bitReader.delivered;
    line := [];
    AppendEmpty(start);
    for channel := 0 to channels
      invariant bitReader.Valid()
      invariant |line| == channel && Holds(samples, frame, plane, line, subbands, channels)
      invariant DecodedLine(line, arow, frow)
      invariant bitReader.delivered == start + LineBits(line)
      invariant bitReader.src.faults == {} ==> forall c :: 0 <= c < |line| ==> Complete(line[c])
    {
      GridEntry(allocations, subbands, channels, subband, channel);
      GridEntry(scaleFactors, subbands, channels, subband, channel);
      var ok, x := DecodeChannel(bitReader, samples, granule, subband, channel, subbands, channels,
                                 allocations, scaleFactors, frame, plane, line);
      if !ok {
        return false, line;
      }
      if bitReader.src.faults == {} {
        CompleteLineSnoc(line, x);
      }
      LineStep(line, arow, frow, x, start, bitReader.delivered);
      line := line + [x];
    }
    return true, line;
  }

  // ---------------------------------------------------------------------
  // One frame

  lemma TableGrid(t: array2<nat>, subbands: nat, channels: nat, bound: nat)
    requires Table(t, subbands, channels, bound) && subbands <= 32 && channels <= 2
    ensures forall i, j :: 0 <= i < subbands && 0 <= j < channels ==> Grid(t, subbands, channels)[i][j] < bound
  {
    forall i, j | 0 <= i < subbands && 0 <= j < channels
      ensures Grid(t, subbands, channels)[i][j] < bound
    {
      GridEntry(t, subbands, channels, i, j);
    }
  }

  /** Some allocation of the first `channels` channels is above 14, past the
      14-entry linear scaling table. */
  ghost predicate OverAllocated(g: seq<seq<nat>>, channels: nat)
  {
    exists sb, ch :: 0 <= sb < |g| && 0 <= ch < channels && ch < |g[sb]| && g[sb][ch] > 14
  }

  /** With every scale-factor index below 64, an entry on which the samples
      panic is one with an allocation above 14. */
  lemma PanickingAllocation(allocations: array2<nat>, factors: array2<nat>, channels: nat)
    requires allocations.Length0 == 2 && allocations.Length1 == 32 && channels <= 2
    requires Table(factors, Subbands, channels, 64)
    requires exists ch, sb ::
      0 <= ch < channels && 0 <= sb < Subbands && (allocations[ch, sb] > 14 || (allocations[ch, sb] != 0 && factors[ch, sb] >= 64))
    ensures OverAllocated(Grid(allocations, Subbands, channels), channels)
  {
    var ch, sb :| 0 <= ch < channels && 0 <= sb < Subbands &&
      (allocations[ch, sb] > 14 || (allocations[ch, sb] != 0 && factors[ch, sb] >= 64));
    GridEntry(allocations, Subbands, channels, sb, ch);
  }

  /** The scale factors and then the samples of a frame whose allocations
      are read; the ghost result is the scale-factor table as read. */
  method DecodeCodes(bitReader: BitReader, channels: nat, allocations: array2<nat>, ghost A: seq<seq<nat>>)
    returns (r: Outcome<array3<Sample>>, ghost scaleFactors: seq<seq<nat>>)
    requires bitReader.Valid() && channels <= 2
    requires allocations.Length0 == 2 && allocations.Length1 == 32 && A == Grid(allocations, Subbands, channels)
    modifies bitReader, bitReader.src
    ensures bitReader.Valid()
    ensures r.Done? ==> fresh(r.value) && SampleTable(r.value, Subbands, channels)
    ensures r.Done? ==>
      ZeroWhere(scaleFactors, A) && DecodedFrame(Frame(r.value, Granules, Subbands, channels), A, scaleFactors) &&
      |Flat(scaleFactors)| == |Flat(A)| &&
      bitReader.delivered == old(bitReader.delivered) + Packed(Flat(scaleFactors), Widths(Flat(A), 6)) +
        FrameBits(Frame(r.value, Granules, Subbands, channels))
    ensures r.Done? && bitReader.src.faults == {} ==> CompleteFrame(Frame(r.value, Granules, Subbands, channels))
    ensures r.Panicked? && bitReader.src.faults == {} ==> OverAllocated(A, channels)
  {
    r, scaleFactors := Panicked, [];
    var f := DecodeScaleFactors(bitReader, Subbands, channels, allocations);
    if f.Done? {
      scaleFactors := Grid(f.value, Subbands, channels);
      r := DecodeSamples(bitReader, Subbands, channels, allocations, f.value);
      if r.Panicked? && bitReader.src.faults == {} {
        PanickingAllocation(allocations, f.value, channels);
      }
    }
  }

  /** The body of `decode_layer1` once the reader exists: the allocations, the
      scale factors and the samples of `channels` channels and 32 subbands, in
      that order, any panic ending the frame. The ghost results are the two
      tables as read. */
  method DecodeFrame(bitReader: BitReader, channels: nat)
    returns (r: Outcome<array3<Sample>>, ghost allocations: seq<seq<nat>>, ghost scaleFactors: seq<seq<nat>>)
    requires bitReader.Valid() && 1 <= channels <= 2
    modifies bitReader, bitReader.src
    ensures bitReader.Valid()
    ensures r.Done? ==>
      fresh(r.value) && SampleTable(r.value, Subbands, channels) &&
      |allocations| == Subbands && Rectangular(allocations, channels) &&
      (forall i, j :: 0 <= i < Subbands && 0 <= j < channels ==> allocations[i][j] < 16) &&
      ZeroWhere(scaleFactors, allocations) &&
      DecodedFrame(Frame(r.value, Granules, Subbands, channels), allocations, scaleFactors)
    ensures r.Done? ==>
      |Flat(scaleFactors)| == |Flat(allocations)| &&
      bitReader.delivered == old(bitReader.delivered) + PackedAt(Flat(allocations), 4) +
        Packed(Flat(scaleFactors), Widths(Flat(allocations), 6)) + FrameBits(Frame(r.value, Granules, Subbands, channels))
    ensures r.Done? && bitReader.src.faults == {} ==> CompleteFrame(Frame(r.value, Granules, Subbands, channels))
    ensures r.Panicked? && bitReader.src.faults == {} ==>
      |allocations| == Subbands && Rectangular(allocations, channels) && OverAllocated(allocations, channels)
  {
    allocations, scaleFactors := [], [];
    r := Panicked;
    ghost var start := bitReader.delivered;
    var a := DecodeBitAllocations(bitReader, Subbands, channels);
    if a.Done? {
      allocations := Grid(a.value, Subbands, channels);
      TableGrid(a.value, Subbands, channels, 16);
      assert forall i, j :: 0 <= i < Subbands && 0 <= j < channels ==> allocations[i][j] < 16;
      ghost var bitsA := PackedAt(Flat(allocations), 4);
      r, scaleFactors := DecodeCodes(bitReader, channels, a.value, allocations);
      if r.Done? {
        Assoc(start + bitsA, Packed(Flat(scaleFactors), Widths(Flat(allocations), 6)),
              FrameBits(Frame(r.value, Granules, Subbands, channels)));
      }
    }
  }

  /** `decode_layer1`: a fresh bit reader on the stream, 32 subbands, one
      channel in single channel mode and two otherwise, then `DecodeFrame`. The
      ghost results are the two tables as read, the bits handed out and the
      bytes pulled: the bits are the allocation codes, the scale-factor codes
      and the sample codes in that order, and what is left of the last byte
      pulled (fewer than 8 bits) is dropped with the reader. */
  method DecodeLayer1(src: ByteSource, header: Header)
    returns (r: Outcome<array3<Sample>>, ghost allocations: seq<seq<nat>>, ghost scaleFactors: seq<seq<nat>>,
             ghost read: seq<bool>, ghost fed: seq<byte>)
    modifies src
    ensures |read| <= |BytesBits(fed)| < |read| + 8 && read == BytesBits(fed)[..|read|]
    ensures r.Done? ==>
      var channels := ChannelCount(header);
      fresh(r.value) && SampleTable(r.value, Subbands, channels) &&
      |allocations| == Subbands && Rectangular(allocations, channels) &&
      (forall i, j :: 0 <= i < Subbands && 0 <= j < channels ==> allocations[i][j] < 16) &&
      ZeroWhere(scaleFactors, allocations) &&
      DecodedFrame(Frame(r.value, Granules, Subbands, channels), allocations, scaleFactors)
    ensures r.Done? && header.channelMode == 3 ==>
      forall g, s :: 0 <= g < Granules && 0 <= s < Subbands ==> r.value[1, g, s] == Silent
    ensures r.Done? ==>
      |Flat(scaleFactors)| == |Flat(allocations)| &&
      read == PackedAt(Flat(allocations), 4) + Packed(Flat(scaleFactors), Widths(Flat(allocations), 6)) +
        FrameBits(Frame(r.value, Granules, Subbands, ChannelCount(header)))
    ensures r.Done? && src.faults == {} ==> CompleteFrame(Frame(r.value, Granules, Subbands, ChannelCount(header)))
    ensures r.Panicked? && src.faults == {} ==>
      |allocations| == Subbands && Rectangular(allocations, ChannelCount(header)) &&
      OverAllocated(allocations, ChannelCount(header))
    ensures Pulled(src.data, src.faults, old(src.pos), src.pos, [], fed)
  {
    var bitReader := new BitReader(src);
    var channels := if header.channelMode != 3 then 2 else 1;
    r, allocations, scaleFactors := DecodeFrame(bitReader, channels);
    read, fed := bitReader.delivered, bitReader.fed;
    if r.Done? {
      assert [] + PackedAt(Flat(allocations), 4) == PackedAt(Flat(allocations), 4);
      Assoc([], PackedAt(Flat(allocations), 4), Packed(Flat(scaleFactors), Widths(Flat(allocations), 6)));
    }
    assert read == (read + Bits(bitReader.cache, bitReader.cacheLength))[..|read|];
  }

  // ---------------------------------------------------------------------
  // How many bits the samples take

  /** A sample whose read did not fail. */
  ghost predicate Complete(x: Sample)
  {
    !(x.Scaled? && x.quantum.Lost?)
  }

  ghost predicate CompleteFrame(frame: seq<seq<seq<Sample>>>)
  {
    forall g, s, c :: 0 <= g < |frame| && 0 <= s < |frame[g]| && 0 <= c < |frame[g][s]| ==> Complete(frame[g][s][c])
  }

  /** A granule whose samples are complete extends a complete frame. */
  lemma CompleteFrameSnoc(frame: seq<seq<seq<Sample>>>, plane: seq<seq<Sample>>)
    requires CompleteFrame(frame)
    requires forall s, c :: 0 <= s < |plane| && 0 <= c < |plane[s]| ==> Complete(plane[s][c])
    ensures CompleteFrame(frame + [plane])
  {
    forall g, s, c | 0 <= g <= |frame| && 0 <= s < |(frame + [plane])[g]| && 0 <= c < |(frame + [plane])[g][s]|
      ensures Complete((frame + [plane])[g][s][c])
    {
      if g == |frame| {
        assert (frame + [plane])[g] == plane;
      } else {
        assert (frame + [plane])[g] == frame[g];
      }
    }
  }

  /** A complete sample extends a complete subband. */
  lemma CompleteLineSnoc(line: seq<Sample>, x: Sample)
    requires forall c :: 0 <= c < |line| ==> Complete(line[c])
    requires Complete(x)
    ensures forall c :: 0 <= c < |line + [x]| ==> Complete((line + [x])[c])
  {
    forall c | 0 <= c < |line + [x]|
      ensures Complete((line + [x])[c])
    {
      if c < |line| {
        assert (line + [x])[c] == line[c];
      }
    }
  }

  /** A subband whose samples are complete extends a complete granule. */
  lemma CompletePlaneSnoc(plane: seq<seq<Sample>>, line: seq<Sample>)
    requires forall s, c :: 0 <= s < |plane| && 0 <= c < |plane[s]| ==> Complete(plane[s][c])
    requires forall c :: 0 <= c < |line| ==> Complete(line[c])
    ensures forall s, c :: 0 <= s < |plane + [line]| && 0 <= c < |(plane + [line])[s]| ==> Complete((plane + [line])[s][c])
  {
    forall s, c | 0 <= s < |plane + [line]| && 0 <= c < |(plane + [line])[s]|
      ensures Complete((plane + [line])[s][c])
    {
      if s == |plane| {
        assert (plane + [line])[s] == line;
      } else {
        assert (plane + [line])[s] == plane[s];
      }
    }
  }

  /** A sample decoded for allocation `nb` takes `nb` bits, or none when its
      read failed. */
  lemma SampleBitCount(x: Sample, nb: nat, sf: nat)
    requires Decoded(x, nb, sf)
    ensures |SampleBits(x)| <= nb
    ensures Complete(x) ==> |SampleBits(x)| == nb
  {
  }

  lemma {:induction false} LineBitCount(line: seq<Sample>, arow: seq<nat>, frow: seq<nat>)
    requires DecodedLine(line, arow, frow)
    ensures |LineBits(line)| <= Sum(arow[..|line|])
    ensures (forall c :: 0 <= c < |line| ==> Complete(line[c])) ==> |LineBits(line)| == Sum(arow[..|line|])
  {
    if line != [] {
      var k := |line| - 1;
      LineBitCount(line[..k], arow, frow);
      SampleBitCount(line[k], arow[k], frow[k]);
      TakeSnoc(arow, k);
      SumAppend(arow[..k], [arow[k]]);
      assert Sum([arow[k]]) == arow[k];
    }
  }

  lemma {:induction false} PlaneBitCount(plane: seq<seq<Sample>>, A: seq<seq<nat>>, F: seq<seq<nat>>)
    requires DecodedPlane(plane, A, F)
    ensures |PlaneBits(plane)| <= Sum(Flat(A[..|plane|]))
    ensures (forall s, c :: 0 <= s < |plane| && 0 <= c < |plane[s]| ==> Complete(plane[s][c])) ==>
      |PlaneBits(plane)| == Sum(Flat(A[..|plane|]))
  {
    if plane != [] {
      var k := |plane| - 1;
      PlaneBitCount(plane[..k], A, F);
      LineBitCount(plane[k], A[k], F[k]);
      TakeAll(A[k]);
      TakeSnoc(A, k);
      FlatSnoc(A[..k], A[k]);
      SumAppend(Flat(A[..k]), A[k]);
    }
  }

  /** Every granule of a decoded frame takes at most one bit per unit of
      allocation, and exactly that when no read failed: the samples of a
      frame take `Granules` times the sum of its allocations. */
  lemma {:induction false} FrameBitCount(frame: seq<seq<seq<Sample>>>, A: seq<seq<nat>>, F: seq<seq<nat>>)
    requires DecodedFrame(frame, A, F)
    ensures |FrameBits(frame)| <= |frame| * Sum(Flat(A))
    ensures CompleteFrame(frame) ==> |FrameBits(frame)| == |frame| * Sum(Flat(A))
  {
    if frame != [] {
      var k := |frame| - 1;
      var init, plane, total := frame[..k], frame[k], Sum(Flat(A));
      FrameBitCount(init, A, F);
      PlaneBitCount(plane, A, F);
      TakeAll(A);
      assert FrameBits(frame) == FrameBits(init) + PlaneBits(plane);
      SuccMul(k, total);
      if CompleteFrame(frame) {
        assert CompleteFrame(init);
        assert forall s, c :: 0 <= s < |plane| && 0 <= c < |plane[s]| ==> Complete(plane[s][c]) by {
          forall s, c | 0 <= s < |plane| && 0 <= c < |plane[s]|
            ensures Complete(plane[s][c])
          {
            assert plane[s][c] == frame[k][s][c];
          }
        }
      }
    }
  }

  // ---------------------------------------------------------------------
  // The allocation test vector

  /** The 32 bytes `test_bit_allocations` reads a stereo frame's allocations from. */
  const AllocationBytes: seq<byte> :=
    [0xED, 0x99, 0x88, 0x88, 0x88, 0x88, 0x77, 0x77, 0x66, 0x77, 0x55, 0x66, 0x55, 0x55, 0x55, 0x55,
     0x44, 0x44, 0x44, 0x33, 0x44, 0x22, 0x33, 0x22, 0x22, 0x01, 0x00, 0x00, 0x00, 0x00, 0x00, 0x00]

  /** Subband `k` of the table the test expects: channel 0 gets the high
      nibble of byte `k`, channel 1 the low nibble. */
  function NibbleRows(bs: seq<byte>): (g: seq<seq<nat>>)
  {
    if bs == [] then [] else NibbleRows(bs[..|bs| - 1]) + [[bs[|bs| - 1] / 16, bs[|bs| - 1] % 16]]
  }

  lemma {:induction false} NibbleRowsShape(bs: seq<byte>)
    ensures |NibbleRows(bs)| == |bs| && Rectangular(NibbleRows(bs), 2)
    ensures forall i, j :: 0 <= i < |bs| && 0 <= j < 2 ==> NibbleRows(bs)[i][j] < 16
  {
    if bs != [] {
      NibbleRowsShape(bs[..|bs| - 1]);
    }
  }

  /** Reading 4-bit codes row by row from a byte string gives its nibbles. */
  lemma {:induction false} NibbleRowsBits(bs: seq<byte>)
    ensures PackedAt(Flat(NibbleRows(bs)), 4) == BytesBits(bs)
  {
    if bs != [] {
      var init, b := bs[..|bs| - 1], bs[|bs| - 1];
      var h, l := b / 16, b % 16;
      NibbleRowsBits(init);
      FlatSnoc(NibbleRows(init), [h, l]);
      PackedAtAppend(Flat(NibbleRows(init)), [h, l], 4);
      PackedAtSnoc([h], 4, l);
      PackedAtSnoc([], 4, h);
      assert [h] + [l] == [h, l] && [] + [h] == [h];
      assert Pow2(4) == 16;
      BitsConcat(h, l, 4, 4);
      assert Shl(h, 4) + l == b;
    }
  }

  /** Of all two-channel tables of 4-bit codes with one subband per byte, the
      one whose codes are exactly the bits of `bs` is the table of its nibbles. */
  lemma NibbleTable(g: seq<seq<nat>>, bs: seq<byte>)
    requires |g| == |bs| && Rectangular(g, 2)
    requires forall i, j :: 0 <= i < |g| && 0 <= j < 2 ==> g[i][j] < 16
    ensures PackedAt(Flat(g), 4) == BytesBits(bs) <==> g == NibbleRows(bs)
  {
    var e := NibbleRows(bs);
    NibbleRowsBits(bs);
    NibbleRowsShape(bs);
    if PackedAt(Flat(g), 4) == BytesBits(bs) {
      var n := 2 * |g|;
      FlatLength(g, 2);
      FlatLength(e, 2);
      var fg, fe, ws := Flat(g), Flat(e), Const(n, 4);
      assert |fg| == |fe| == |ws| == n;
      assert Pow2(4) == 16;
      forall k | 0 <= k < n
        ensures fg[k] < Pow2(ws[k]) && fe[k] < Pow2(ws[k])
      {
        ReadOrder(g, 2, k);
        ReadOrder(e, 2, k);
      }
      PackedAtConst(fg, 4);
      PackedAtConst(fe, 4);
      PackedInjective(fg, fe, ws);
      FlatInjective(g, e, 2);
    }
  }

  /** Subband `i` of the nibble table is the high and the low nibble of byte `i`. */
  lemma {:induction false} NibbleRowsEntry(bs: seq<byte>, i: nat)
    requires i < |bs|
    ensures |NibbleRows(bs)| == |bs| && NibbleRows(bs)[i] == [bs[i] / 16, bs[i] % 16]
  {
    NibbleRowsShape(bs);
    if i < |bs| - 1 {
      NibbleRowsEntry(bs[..|bs| - 1], i);
    }
  }

  /** `generate_test_allocations` with the assertions of `test_bit_allocations`:
      `decode_bit_allocations` for 32 subbands and 2 channels, run by a reader
      over the test's 32 bytes, fills channel 0 with the high nibble and
      channel 1 with the low nibble of each byte. */
  method GenerateTestAllocations() returns (allocations: array2<nat>)
    ensures allocations.Length0 == 2 && allocations.Length1 == 32
    ensures forall sb :: 0 <= sb < 32 ==>
      allocations[0, sb] == AllocationBytes[sb] / 16 && allocations[1, sb] == AllocationBytes[sb] % 16
  {
    var src := new ByteSource(AllocationBytes, {});
    var reader := new BitReader(src);
    var r := DecodeBitAllocations(reader, 32, 2);
    allocations := r.value;
    ghost var g := Grid(allocations, 32, 2);
    forall i, j | 0 <= i < 32 && 0 <= j < 2
      ensures g[i][j] < 16
    {
      GridEntry(allocations, 32, 2, i, j);
    }
    FlatLength(g, 2);
    assert reader.delivered == PackedAt(Flat(g), 4);
    ReadToEnd(AllocationBytes, src.pos, reader.fed, reader.delivered, reader.cache, reader.cacheLength);
    AllocationVector(g);
    forall sb | 0 <= sb < 32
      ensures allocations[0, sb] == AllocationBytes[sb] / 16 && allocations[1, sb] == AllocationBytes[sb] % 16
    {
      GridEntry(allocations, 32, 2, sb, 0);
      GridEntry(allocations, 32, 2, sb, 1);
      NibbleRowsEntry(AllocationBytes, sb);
    }
  }

  /** `test_bit_allocations`: of all stereo allocation tables, the one whose
      codes are exactly the bits of the test's 32 bytes is the table of their
      nibbles, the values the test expects. */
  lemma AllocationVector(g: seq<seq<nat>>)
    requires |g| == 32 && Rectangular(g, 2)
    requires forall i, j :: 0 <= i < 32 && 0 <= j < 2 ==> g[i][j] < 16
    ensures PackedAt(Flat(g), 4) == BytesBits(AllocationBytes) <==> g == NibbleRows(AllocationBytes)
  {
    NibbleTable(g, AllocationBytes);
  }
}
