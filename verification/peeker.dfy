/** `Peeker::peek_be_u32` of `src/peeker.rs`: read four bytes, seek back four,
    and assemble the bytes big-endian in a 32-bit register. */
module Peeking {
  import opened BitStrings
  import opened Source

  const U32: nat := 0x1_0000_0000

  /** `k` zero bytes: the untouched tail of the freshly zeroed buffer. */
  function Zeros(k: nat): (z: seq<byte>)
    ensures |z| == k && forall i :: 0 <= i < k ==> z[i] == 0
  {
    seq(k, _ => 0)
  }

  /** What a peek returns, and where it leaves the cursor. */
  datatype Peek = Peek(result: Result<nat>, pos: nat)

  /** The peek at `pos`: a read error comes first and leaves the cursor alone;
      otherwise the read moves the cursor past the bytes it got, the seek moves it
      back four (failing when that would fall before the start), and the value is
      the four buffer bytes big-endian, with zeros where the read delivered none. */
  function PeekSpec(data: seq<byte>, faults: set<nat>, pos: nat): Peek
  {
    if pos in faults then Peek(Err(ReadFault), pos)
    else
      var got := Window(data, pos, 4);
      var after := pos + |got|;
      if after < 4 then Peek(Err(InvalidSeek), after)
      else Peek(Ok(BigEndian(got + Zeros(4 - |got|))), after - 4)
  }

  /** Shifting a value below `2^24` left by a byte does not reach bit 32. */
  lemma NoWrap(acc: nat, idx: nat)
    requires idx < 4 && acc < Pow2(8 * idx)
    ensures (acc * 256) % U32 == acc * 256
  {
    if idx < 3 {
      Pow2Mono8(idx, 3);
    }
    Pow2Add(8, 8);
    Pow2Add(16, 8);
    Pow2Byte();
    assert Pow2(24) == 0x100_0000;
  }

  lemma {:induction false} Pow2Mono8(a: nat, b: nat)
    requires a <= b
    ensures Pow2(8 * a) <= Pow2(8 * b)
    decreases b
  {
    if a < b {
      Pow2Mono8(a, b - 1);
      Pow2Add(8 * (b - 1), 8);
    }
  }

  /** `peek_be_u32`: the result and the new cursor are those of `PeekSpec`. */
  method PeekBeU32(src: ByteSource) returns (r: Result<nat>)
    modifies src
    ensures Peek(r, src.pos) == PeekSpec(src.data, src.faults, old(src.pos))
  {
    var buf := new byte[4](_ => 0);
    ghost var zeros := buf[..];
    var got := src.Read(buf);
    if got.Err? {
      return Err(got.error);
    }
    var sought := src.Seek(-4);
    if sought.Err? {
      return Err(sought.error);
    }
    ghost var window := Window(src.data, old(src.pos), 4);
    assert zeros[|window|..] == Zeros(4 - |window|);
    assert buf[..] == window + Zeros(4 - |window|);
    ghost var cursor := src.pos;
    var value := 0;
    for idx := 0 to 4
      invariant value == BigEndian(buf[..idx])
      invariant buf[..] == window + Zeros(4 - |window|) && src.pos == cursor
    {
      NoWrap(value, idx);
      value := (value * 256) % U32 + buf[idx];
      assert buf[..idx + 1][..idx] == buf[..idx];
    }
    assert buf[..4] == buf[..];
    return Ok(value);
  }

  /** With four bytes available and no read error, the peek returns them as
      `b0<<24 | b1<<16 | b2<<8 | b3` and leaves the cursor where it was. */
  lemma PeekFullWindow(data: seq<byte>, faults: set<nat>, pos: nat)
    requires pos !in faults && pos + 4 <= |data|
    ensures PeekSpec(data, faults, pos) ==
      Peek(Ok((data[pos] as nat) * 0x100_0000 + (data[pos + 1] as nat) * 0x1_0000 + (data[pos + 2] as nat) * 0x100 + data[pos + 3]), pos)
  {
    var w := data[pos..pos + 4];
    assert w + Zeros(0) == w;
    assert w[..3][..2][..1] == [w[0]] && w[..3][..2] == [w[0], w[1]] && w[..3] == [w[0], w[1], w[2]];
    assert BigEndian([w[0]]) == w[0];
    assert BigEndian([w[0], w[1]]) == (w[0] as nat) * 0x100 + w[1];
    assert BigEndian([w[0], w[1], w[2]]) == (w[0] as nat) * 0x1_0000 + (w[1] as nat) * 0x100 + w[2];
  }

  /** The cursor comes back to its starting place exactly when the read got all
      four bytes: the byte count of the read is never looked at, so after a short
      read the seek overshoots. */
  lemma PeekCursor(data: seq<byte>, faults: set<nat>, pos: nat)
    requires PeekSpec(data, faults, pos).result.Ok?
    ensures PeekSpec(data, faults, pos).pos == pos <==> pos + 4 <= |data|
    ensures PeekSpec(data, faults, pos).pos <= pos
  {
  }

  /** Peeking again where a full peek left the cursor gives the same answer. */
  lemma PeekIdempotent(data: seq<byte>, faults: set<nat>, pos: nat)
    requires pos + 4 <= |data|
    ensures PeekSpec(data, faults, PeekSpec(data, faults, pos).pos) == PeekSpec(data, faults, pos)
  {
  }

  /** After a short read of `k < 4` bytes the low `4 - k` bytes of the value are zero. */
  lemma PeekShortRead(data: seq<byte>, faults: set<nat>, pos: nat)
    requires pos !in faults && pos < |data| < pos + 4 && 4 <= |data|
    ensures var k := |data| - pos;
      PeekSpec(data, faults, pos) == Peek(Ok(Shl(BigEndian(data[pos..]), 8 * (4 - k))), |data| - 4)
  {
    var got := data[pos..];
    ZerosBelow(got, 4 - |got|);
  }

  /** Appending `k` zero bytes shifts a big-endian value left by `k` bytes. */
  lemma {:induction false} ZerosBelow(s: seq<byte>, k: nat)
    ensures BigEndian(s + Zeros(k)) == Shl(BigEndian(s), 8 * k)
  {
    if k == 0 {
      assert s + Zeros(0) == s;
    } else {
      ZerosBelow(s, k - 1);
      var u := s + Zeros(k - 1);
      ZerosSnoc(s, k);
      ZeroByte(u);
      ShlByte(BigEndian(s), 8 * k - 8);
      assert 8 * k - 8 + 8 == 8 * k;
    }
  }

  lemma ZerosSnoc(s: seq<byte>, k: nat)
    requires k >= 1
    ensures s + Zeros(k) == (s + Zeros(k - 1)) + [0]
  {
    assert Zeros(k) == Zeros(k - 1) + [0];
  }

  /** One zero byte appended multiplies a big-endian value by 256. */
  lemma ZeroByte(u: seq<byte>)
    ensures BigEndian(u + [0]) == BigEndian(u) * 256
  {
    assert (u + [0])[..|u|] == u;
  }

  /** Shifting one byte further left is multiplying by 256. */
  lemma ShlByte(v: nat, j: nat)
    ensures Shl(v, j) * 256 == Shl(v, j + 8)
  {
    Pow2Add(j, 8);
    Pow2Byte();
    MulAssoc(v, Pow2(j), 256);
  }

  /** A read error is reported before any seek, with the cursor untouched; a
      failing seek is reported with the cursor where the read left it. */
  lemma PeekErrors(data: seq<byte>, faults: set<nat>, pos: nat)
    ensures pos in faults ==> PeekSpec(data, faults, pos) == Peek(Err(ReadFault), pos)
    ensures pos !in faults && pos + |Window(data, pos, 4)| < 4 ==>
      PeekSpec(data, faults, pos) == Peek(Err(InvalidSeek), pos + |Window(data, pos, 4)|)
  {
  }

  /** `test_peek_in_small_buf`: FF AA 44 A3 peeks as FFAA44A3, twice. */
  lemma PeekSmallBuf()
    ensures PeekSpec([0xFF, 0xAA, 0x44, 0xA3], {}, 0) == Peek(Ok(0xFFAA44A3), 0)
  {
    PeekFullWindow([0xFF, 0xAA, 0x44, 0xA3], {}, 0);
  }

  /** `test_peek_in_medium_buf`: FF AA 44 A3 34 99 44 peeks as FFAA44A3, twice:
      the bytes after the first four are not looked at. */
  lemma PeekMediumBuf()
    ensures PeekSpec([0xFF, 0xAA, 0x44, 0xA3, 0x34, 0x99, 0x44], {}, 0) == Peek(Ok(0xFFAA44A3), 0)
  {
    PeekFullWindow([0xFF, 0xAA, 0x44, 0xA3, 0x34, 0x99, 0x44], {}, 0);
  }

  /** A short read breaks idempotence: on 01 02 03 04 05 a peek at 2 gets
      03 04 05 and a zero, then leaves the cursor at 1, where the next peek sees
      02 03 04 05. */
  lemma PeekShortReadDrifts()
    ensures PeekSpec([1, 2, 3, 4, 5], {}, 2) == Peek(Ok(0x0304_0500), 1)
    ensures PeekSpec([1, 2, 3, 4, 5], {}, 1) == Peek(Ok(0x0203_0405), 1)
  {
    PeekShortRead([1, 2, 3, 4, 5], {}, 2);
    assert [1, 2, 3, 4, 5][2..] == [3, 4, 5];
    assert BigEndian([3, 4, 5]) == 0x03_0405 by {
      assert [3, 4, 5][..2] == [3, 4] && [3, 4][..1] == [3];
    }
    Pow2Byte();
    assert Pow2(8 * (4 - 3)) == 256;
    PeekFullWindow([1, 2, 3, 4, 5], {}, 1);
  }
}
