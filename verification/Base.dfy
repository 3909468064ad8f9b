/** Fixed-width integers, wrap-around arithmetic, results and the in-memory cursor. */
module Base {

  const TWO_16: int := 0x1_0000
  const TWO_32: int := 0x1_0000_0000

  type u8 = x: int | 0 <= x < 0x100
  type u16 = x: int | 0 <= x < 0x1_0000
  type u32 = x: int | 0 <= x < 0x1_0000_0000

  /** The payload of one message. */
  type Record = seq<u8>

  datatype Option<+T> = None | Some(value: T)

  datatype Result<+R, +E> = Success(value: R) | Failure(error: E)

  // The shipped binary is a release build (images/Lucidmq.Dockerfile:21), in which integer
  // arithmetic that leaves its type wraps around.

  function WrapAdd16(a: u16, b: u16): u16 {
    (a + b) % 0x1_0000
  }

  function WrapSub16(a: u16, b: u16): u16 {
    (a - b) % 0x1_0000
  }

  function WrapAdd32(a: u32, b: u32): u32 {
    (a + b) % 0x1_0000_0000
  }

  function Max(a: int, b: int): int {
    if a >= b then a else b
  }

  function Zeros(n: nat): (z: seq<u8>)
    ensures |z| == n
  {
    seq(n, _ => 0)
  }

  /** std::io::Cursor over a byte vector: one position shared by writes and reads. */
  datatype Cursor = Cursor(data: seq<u8>, pos: nat) {

    /** Write at the position: overwrite what is there, extend past the end, zero-fill any hole. */
    function Write(d: seq<u8>): Cursor {
      var base := if pos > |data| then data + Zeros(pos - |data|) else data;
      var stop := pos + |d|;
      Cursor(base[..pos] + d + (if stop < |base| then base[stop..] else []), stop)
    }

    /** `seek(Start(at))` followed by `read_exact` of `total` bytes; a short read leaves the position at `at`. */
    function ReadAt(at: nat, total: nat): (r: (Cursor, Option<seq<u8>>)) {
      if total == 0 then
        (this.(pos := at), Some([]))
      else if at + total <= |data| then
        (this.(pos := at + total), Some(data[at..at + total]))
      else
        (this.(pos := at), None)
    }

    predicate AtEnd() {
      pos == |data|
    }
  }

  lemma WriteAtEndAppends(c: Cursor, d: seq<u8>)
    requires c.AtEnd()
    ensures c.Write(d) == Cursor(c.data + d, |c.data| + |d|)
  {
    assert c.data[..c.pos] == c.data;
  }

  /**
   * A write, byte by byte: the new bytes at the position, the old ones elsewhere, zeros in the
   * hole that a position past the end leaves.
   */
  lemma WriteByByte(c: Cursor, d: seq<u8>, i: nat)
    ensures var c' := c.Write(d);
            && c'.pos == c.pos + |d|
            && |c'.data| == Max(|c.data|, c.pos + |d|)
            && (i < |c'.data| ==>
                  c'.data[i] == if c.pos <= i < c.pos + |d| then d[i - c.pos]
                                else if i < |c.data| then c.data[i]
                                else 0)
  {
  }

  /** A read takes the bytes asked for when they are all there, and leaves the position after them, or before them. */
  lemma ReadByByte(c: Cursor, at: nat, total: nat)
    ensures var (c', r) := c.ReadAt(at, total);
            && (r.Some? <==> total == 0 || at + total <= |c.data|)
            && (r.Some? ==> |r.value| == total && forall i :: 0 <= i < total ==> r.value[i] == c.data[at + i])
            && c' == Cursor(c.data, if r.Some? then at + total else at)
  {
  }

  /** Wrapped results differ from the exact ones by nothing or by one turn. */
  lemma Wraps(a: u16, b: u16, c: u32, d: u32)
    ensures WrapAdd16(a, b) == if a + b <= 0xFFFF then a + b else a + b - 0x1_0000
    ensures WrapSub16(a, b) == if a >= b then a - b else a - b + 0x1_0000
    ensures WrapAdd32(c, d) == if c + d <= 0xFFFF_FFFF then c + d else c + d - 0x1_0000_0000
  {
  }
}
