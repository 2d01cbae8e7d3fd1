/** A seekable byte source standing in for `io::Read + io::Seek`: a fixed byte
    string, a cursor, and the positions at which a read reports an I/O error.
    Reads behave as on an in-memory cursor: a read fills as much of the buffer
    as there are bytes left and reports the count; at the end it reports 0 and
    leaves the buffer untouched. */
module Source {
  import opened BitStrings

  datatype Option<T> = None | Some(value: T)

  datatype IoError =
    | ReadFault    // an error reported by the underlying reader
    | InvalidSeek  // a seek to a position before the start

  datatype Result<T> = Ok(value: T) | Err(error: IoError)

  /** The bytes a read of `k` bytes at `pos` can deliver. */
  function Window(data: seq<byte>, pos: nat, k: nat): (w: seq<byte>)
    ensures |w| <= k
    ensures pos + k <= |data| ==> w == data[pos..pos + k]
    ensures pos >= |data| ==> w == []
  {
    if pos >= |data| then []
    else if pos + k <= |data| then data[pos..pos + k]
    else data[pos..]
  }

  class ByteSource {
    const data: seq<byte>
    const faults: set<nat>
    var pos: nat

    constructor (data: seq<byte>, faults: set<nat>)
      ensures this.data == data && this.faults == faults && pos == 0
    {
      this.data := data;
      this.faults := faults;
      pos := 0;
    }

    /** `io::Read::read(&mut buf)`: the count of bytes placed at the front of `buf`. */
    method Read(buf: array<byte>) returns (r: Result<nat>)
      modifies this, buf
      ensures old(pos) in faults ==> r == Err(ReadFault) && pos == old(pos) && buf[..] == old(buf[..])
      ensures old(pos) !in faults ==>
        var got := Window(data, old(pos), buf.Length);
        r == Ok(|got|) && pos == old(pos) + |got| && buf[..] == got + old(buf[..])[|got|..]
    {
      if pos in faults {
        return Err(ReadFault);
      }
      var got := Window(data, pos, buf.Length);
      forall i | 0 <= i < |got| {
        buf[i] := got[i];
      }
      pos := pos + |got|;
      r := Ok(|got|);
    }

    /** `io::Seek::seek(SeekFrom::Current(delta))`: the new position, or an error
        (with the cursor left where it was) when it would fall before the start. */
    method Seek(delta: int) returns (r: Result<nat>)
      modifies this
      ensures old(pos) + delta < 0 ==> r == Err(InvalidSeek) && pos == old(pos)
      ensures old(pos) + delta >= 0 ==> r == Ok(old(pos) + delta) && pos == old(pos) + delta
    {
      if pos + delta < 0 {
        return Err(InvalidSeek);
      }
      pos := pos + delta;
      r := Ok(pos);
    }
  }

  /** What `n` successive one-byte reads into a one-byte buffer that holds `last`
      deliver, starting at `pos`: the byte values seen, the cursor afterwards,
      and whether all `n` reads succeeded. A read at the end reports 0 bytes and
      the buffer keeps its previous byte; a read at a fault position stops. */
  datatype Pull = Pull(bytes: seq<byte>, end: nat, ok: bool)

  function PullBytes(data: seq<byte>, faults: set<nat>, pos: nat, n: nat, last: byte): (p: Pull)
    ensures p.ok ==> |p.bytes| == n
    ensures !p.ok ==> |p.bytes| < n && p.end in faults
    ensures pos <= p.end
    decreases n
  {
    if n == 0 then Pull([], pos, true)
    else if pos in faults then Pull([], pos, false)
    else
      var b := if pos < |data| then data[pos] else last;
      var next := if pos < |data| then pos + 1 else pos;
      var rest := PullBytes(data, faults, next, n - 1, b);
      Pull([b] + rest.bytes, rest.end, rest.ok)
  }

  /** With no fault in the way and enough bytes left, the reads deliver exactly the next `n` bytes. */
  lemma {:induction false} PullInBounds(data: seq<byte>, faults: set<nat>, pos: nat, n: nat, last: byte)
    requires pos + n <= |data|
    requires forall i :: pos <= i < pos + n ==> i !in faults
    ensures PullBytes(data, faults, pos, n, last) == Pull(data[pos..pos + n], pos + n, true)
    decreases n
  {
    if n > 0 {
      PullInBounds(data, faults, pos + 1, n - 1, data[pos]);
      assert data[pos..pos + n] == [data[pos]] + data[pos + 1..pos + n];
    }
  }

  /** At the end of the data the cursor stays put and every read repeats the buffered byte. */
  lemma {:induction false} PullPastEnd(data: seq<byte>, faults: set<nat>, pos: nat, n: nat, last: byte)
    requires pos >= |data| && pos !in faults
    ensures PullBytes(data, faults, pos, n, last) == Pull(seq(n, _ => last), pos, true)
  {
    if n > 0 {
      PullPastEnd(data, faults, pos, n - 1, last);
      assert seq(n, _ => last) == [last] + seq(n - 1, _ => last);
    }
  }
}
