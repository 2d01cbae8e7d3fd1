/** Bit strings, written most-significant bit first, and the arithmetic that
    relates them to the unsigned integers the decoder reads. */
module BitStrings {

  /** One octet of the input stream. */
  type byte = x: nat | x < 256

  function Pow2(k: nat): (r: nat)
    ensures r >= 1
  {
    if k == 0 then 1 else 2 * Pow2(k - 1)
  }

  /** `x << k` on an unbounded integer. */
  function Shl(x: nat, k: nat): nat
  {
    x * Pow2(k)
  }

  /** `x >> k`. */
  function Shr(x: nat, k: nat): nat
  {
    DivNat(x, Pow2(k));
    x / Pow2(k)
  }

  lemma DivNat(x: nat, d: nat)
    requires d >= 1
    ensures 0 <= x / d <= x
  {
  }

  /** `x & (2^k - 1)`: the low `k` bits of `x`. */
  function Low(x: nat, k: nat): (r: nat)
    ensures r < Pow2(k)
  {
    x % Pow2(k)
  }

  /** The low `k` bits of `x`, most-significant first. */
  function Bits(x: nat, k: nat): (r: seq<bool>)
    ensures |r| == k
  {
    if k == 0 then [] else Bits(x / 2, k - 1) + [x % 2 == 1]
  }

  /** The unsigned value of a bit string read most-significant first. */
  function BitsValue(bs: seq<bool>): (r: nat)
    ensures r < Pow2(|bs|)
  {
    if bs == [] then 0
    else 2 * BitsValue(bs[..|bs| - 1]) + (if bs[|bs| - 1] then 1 else 0)
  }

  /** The bits of a byte string, each byte most-significant bit first. */
  function BytesBits(s: seq<byte>): (r: seq<bool>)
    ensures |r| == 8 * |s|
  {
    if s == [] then [] else BytesBits(s[..|s| - 1]) + Bits(s[|s| - 1], 8)
  }

  /** The bytes of a bit string whose length is a whole number of bytes. */
  function BytesOfBits(bs: seq<bool>): (r: seq<byte>)
    requires |bs| % 8 == 0
    ensures 8 * |r| == |bs|
  {
    if bs == [] then [] else BytesOfBits(bs[..|bs| - 8]) + [BitsValue(bs[|bs| - 8..])]
  }

  /** The big-endian value of a byte string. */
  function BigEndian(s: seq<byte>): (r: nat)
    ensures r < Pow2(8 * |s|)
  {
    if s == [] then 0
    else
      Pow2Add(8 * (|s| - 1), 8);
      BigEndian(s[..|s| - 1]) * 256 + s[|s| - 1]
  }

  // ---------------------------------------------------------------------
  // Arithmetic

  lemma {:induction false} Pow2Add(a: nat, b: nat)
    ensures Pow2(a + b) == Pow2(a) * Pow2(b)
  {
    if b > 0 {
      Pow2Add(a, b - 1);
      calc {
        Pow2(a + b);
        2 * Pow2(a + b - 1);
        2 * (Pow2(a) * Pow2(b - 1));
        Pow2(a) * (2 * Pow2(b - 1));
      }
    }
  }

  lemma MulMono(d: int, k: int)
    requires d > 0
    ensures k >= 1 ==> d * k >= d
    ensures k <= -1 ==> d * k <= -d
  {
  }

  lemma MulLe(x: nat, y: nat, z: nat)
    requires x <= y
    ensures x * z <= y * z
  {
  }

  lemma MulAssoc(a: int, b: int, c: int)
    ensures (a * b) * c == a * (b * c)
  {
  }

  lemma DivModUnique(x: int, d: int, q: int, r: int)
    requires d > 0 && 0 <= r < d && x == d * q + r
    ensures x / d == q && x % d == r
  {
    var q', r' := x / d, x % d;
    assert d * (q - q') == r' - r;
    MulMono(d, q - q');
  }

  lemma Pow2Byte()
    ensures Pow2(8) == 256
  {
  }

  lemma DivModTwice(x: nat, m: nat)
    requires m >= 1
    ensures x / (2 * m) == (x / 2) / m
    ensures (x % (2 * m)) / 2 == (x / 2) % m
    ensures (x % (2 * m)) % 2 == x % 2
  {
    var q, r := x / 2, x % 2;
    var q2, r2 := q / m, q % m;
    assert x == (2 * m) * q2 + (2 * r2 + r);
    DivModUnique(x, 2 * m, q2, 2 * r2 + r);
    DivModUnique(2 * r2 + r, 2, r2, r);
  }

  lemma DivBound(x: nat, a: nat, b: nat)
    requires x < Pow2(a + b)
    ensures Shr(x, b) < Pow2(a)
  {
    Pow2Add(a, b);
    var q := x / Pow2(b);
    assert Pow2(b) * (Pow2(a) - q) > 0;
    MulMono(Pow2(b), Pow2(a) - q);
  }

  // ---------------------------------------------------------------------
  // Bit strings

  /** Taking `a + b` bits of `x` is taking `a` bits of the high part and `b` bits of the low part. */
  lemma {:induction false} BitsSplit(x: nat, a: nat, b: nat)
    ensures Bits(x, a + b) == Bits(Shr(x, b), a) + Bits(Low(x, b), b)
  {
    if b == 0 {
      assert x / 1 == x && x % 1 == 0;
    } else {
      var m := Pow2(b - 1);
      var half := x / 2;
      BitsSplit(half, a, b - 1);
      DivModTwice(x, m);
      var lo := x % Pow2(b);
      assert Bits(lo, b) == Bits(lo / 2, b - 1) + [lo % 2 == 1];
      assert lo / 2 == half % m && lo % 2 == x % 2;
      assert x / Pow2(b) == half / m;
      assert Bits(x, a + b) == Bits(half, a + (b - 1)) + [x % 2 == 1];
    }
  }

  /** Placing `hi` above a `b`-bit `lo` concatenates their bit strings. */
  lemma BitsConcat(hi: nat, lo: nat, a: nat, b: nat)
    requires lo < Pow2(b)
    ensures Bits(Shl(hi, b) + lo, a + b) == Bits(hi, a) + Bits(lo, b)
  {
    DivModUnique(hi * Pow2(b) + lo, Pow2(b), hi, lo);
    BitsSplit(hi * Pow2(b) + lo, a, b);
  }

  /** Reading back the bits of a `k`-bit number gives the number. */
  lemma {:induction false} BitsValueOfBits(x: nat, k: nat)
    requires x < Pow2(k)
    ensures BitsValue(Bits(x, k)) == x
  {
    if k > 0 {
      DivBound(x, k - 1, 1);
      BitsValueOfBits(x / 2, k - 1);
      assert Bits(x, k)[..k - 1] == Bits(x / 2, k - 1);
    }
  }

  /** Writing out the value of a bit string gives the bit string back. */
  lemma {:induction false} BitsOfBitsValue(bs: seq<bool>)
    ensures Bits(BitsValue(bs), |bs|) == bs
  {
    if bs != [] {
      var init := bs[..|bs| - 1];
      BitsOfBitsValue(init);
      var v := BitsValue(bs);
      DivModUnique(v, 2, BitsValue(init), if bs[|bs| - 1] then 1 else 0);
      assert bs == init + [bs[|bs| - 1]];
    }
  }

  /** Concatenation, split before the last element of its right operand. */
  lemma ConcatSnoc<T>(s: seq<T>, t: seq<T>)
    requires t != []
    ensures t == t[..|t| - 1] + [t[|t| - 1]]
    ensures s + t == (s + t[..|t| - 1]) + [t[|t| - 1]]
  {
  }

  /** The parts of a concatenation are its slices. */
  lemma ConcatSplit<T>(p: seq<T>, x: seq<T>)
    ensures (p + x)[..|p|] == p && (p + x)[|p|..] == x
  {
  }

  lemma BytesBitsSnoc(s: seq<byte>, b: byte)
    ensures BytesBits(s + [b]) == BytesBits(s) + Bits(b, 8)
  {
    assert (s + [b])[..|s|] == s;
  }

  lemma {:induction false} BytesBitsAppend(s: seq<byte>, t: seq<byte>)
    ensures BytesBits(s + t) == BytesBits(s) + BytesBits(t)
  {
    if t == [] {
      assert s + t == s;
    } else {
      var init, b := t[..|t| - 1], t[|t| - 1];
      ConcatSnoc(s, t);
      BytesBitsAppend(s, init);
      BytesBitsSnoc(s + init, b);
      BytesBitsSnoc(init, b);
      assert BytesBits(s) + BytesBits(init) + Bits(b, 8) == BytesBits(s) + (BytesBits(init) + Bits(b, 8));
    }
  }

  /** The bits of a byte string are the bits of its big-endian value. */
  lemma {:induction false} BigEndianBits(s: seq<byte>)
    ensures Bits(BigEndian(s), 8 * |s|) == BytesBits(s)
  {
    if s != [] {
      var init, last := s[..|s| - 1], s[|s| - 1];
      BigEndianBits(init);
      Pow2Byte();
      var hi := BigEndian(init);
      assert BigEndian(s) == Shl(hi, 8) + last;
      BitsConcat(hi, last, 8 * |init|, 8);
      assert 8 * |s| == 8 * |init| + 8;
      assert BytesBits(s) == BytesBits(init) + Bits(last, 8);
    }
  }

  /** A byte string is recovered from its bit string. */
  lemma {:induction false} BytesBitsRoundTrip(s: seq<byte>)
    ensures BytesOfBits(BytesBits(s)) == s
  {
    if s != [] {
      var init := s[..|s| - 1];
      BytesBitsRoundTrip(init);
      ConcatSnoc([], s);
      BytesBitsSnoc(init, s[|s| - 1]);
      ConcatSplit(BytesBits(init), Bits(s[|s| - 1], 8));
      assert Pow2(8) == 256;
      BitsValueOfBits(s[|s| - 1], 8);
    }
  }
}
