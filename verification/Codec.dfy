/** The index file: entries encoded as two little-endian 32-bit words, 8 bytes an entry. */
module Codec {
  import opened Base
  import opened Records

  function EncodeU32(n: u32): (b: seq<u8>)
    ensures |b| == 4
  {
    [n % 0x100, n / 0x100 % 0x100, n / 0x1_0000 % 0x100, n / 0x100_0000]
  }

  function DecodeU32(b: seq<u8>): u32
    requires |b| == 4
  {
    var b0: int, b1: int, b2: int, b3: int := b[0], b[1], b[2], b[3];
    b0 + 0x100 * b1 + 0x1_0000 * b2 + 0x100_0000 * b3
  }

  function EncodeEntry(e: Entry): (b: seq<u8>)
    ensures |b| == 8
  {
    EncodeU32(e.start) + EncodeU32(e.total)
  }

  function DecodeEntry(b: seq<u8>): Entry
    requires |b| == 8
  {
    Entry(DecodeU32(b[..4]), DecodeU32(b[4..]))
  }

  function EncodeAll(es: seq<Entry>): seq<u8> {
    if es == [] then [] else EncodeAll(es[..|es| - 1]) + EncodeEntry(es[|es| - 1])
  }

  /** The entries stored in the whole 8-byte chunks of `b`; a shorter tail is ignored. */
  function DecodeAll(b: seq<u8>): (es: seq<Entry>)
    ensures |es| == |b| / 8
  {
    if |b| < 8 then [] else [DecodeEntry(b[..8])] + DecodeAll(b[8..])
  }

  lemma U32RoundTrip(n: u32)
    ensures DecodeU32(EncodeU32(n)) == n
  {
    var n1: int, n2: int := n / 0x100, n / 0x1_0000;
    assert n2 == n1 / 0x100 && n / 0x100_0000 == n2 / 0x100;
    assert n == 0x100 * n1 + n % 0x100;
    assert n1 == 0x100 * n2 + n1 % 0x100;
  }

  lemma EntryRoundTrip(e: Entry)
    ensures DecodeEntry(EncodeEntry(e)) == e
  {
    U32RoundTrip(e.start);
    U32RoundTrip(e.total);
    var b := EncodeEntry(e);
    assert b[..4] == EncodeU32(e.start) && b[4..] == EncodeU32(e.total);
  }

  lemma EncodeSnoc(es: seq<Entry>, e: Entry)
    ensures EncodeAll(es + [e]) == EncodeAll(es) + EncodeEntry(e)
  {
    assert (es + [e])[..|es|] == es;
  }

  /** The i-th chunk of the encoding is the encoding of the i-th entry. */
  lemma {:induction false} EncodeChunk(es: seq<Entry>, i: nat)
    requires i < |es|
    ensures |EncodeAll(es)| == 8 * |es|
    ensures EncodeAll(es)[8 * i..8 * i + 8] == EncodeEntry(es[i])
  {
    var n := |es| - 1;
    if n > 0 {
      EncodeChunk(es[..n], if i < n then i else 0);
    }
    if i < n {
      assert EncodeAll(es)[8 * i..8 * i + 8] == EncodeAll(es[..n])[8 * i..8 * i + 8];
    }
  }

  lemma EncodeLength(es: seq<Entry>)
    ensures |EncodeAll(es)| == 8 * |es|
  {
    if es != [] {
      EncodeChunk(es, 0);
    }
  }

  lemma SliceShift(b: seq<u8>, at: nat)
    requires at + 16 <= |b|
    ensures b[8..][at..at + 8] == b[at + 8..at + 16]
  {
  }

  lemma {:induction false} DecodeChunk(b: seq<u8>, i: nat)
    requires 8 * i + 8 <= |b|
    ensures DecodeAll(b)[i] == DecodeEntry(b[8 * i..8 * i + 8])
  {
    hide DecodeEntry;
    if i > 0 {
      DecodeChunk(b[8..], i - 1);
      SliceShift(b, 8 * (i - 1));
      assert 8 * (i - 1) + 8 == 8 * i;
    }
  }

  /** Decoding gives back every entry list, even when a torn entry of fewer than 8 bytes follows it. */
  lemma {:induction false} IndexRoundTrip(es: seq<Entry>, torn: seq<u8>)
    requires |torn| < 8
    ensures DecodeAll(EncodeAll(es) + torn) == es
  {
    EncodeLength(es);
    var b := EncodeAll(es) + torn;
    var ds := DecodeAll(b);
    forall i | 0 <= i < |es| ensures ds[i] == es[i] {
      DecodeChunk(b, i);
      EncodeChunk(es, i);
      assert b[8 * i..8 * i + 8] == EncodeAll(es)[8 * i..8 * i + 8];
      EntryRoundTrip(es[i]);
    }
  }

  lemma DecodeEncoded(es: seq<Entry>)
    ensures DecodeAll(EncodeAll(es)) == es
  {
    IndexRoundTrip(es, []);
    assert EncodeAll(es) + [] == EncodeAll(es);
  }

  /** One turn of the decoding loop. */
  lemma DecodeSnoc(b: seq<u8>, pos: nat)
    requires pos % 8 == 0 && pos + 8 <= |b|
    ensures DecodeAll(b[..pos + 8]) == DecodeAll(b[..pos]) + [DecodeEntry(b[pos..pos + 8])]
  {
    hide DecodeEntry;
    var next, now := DecodeAll(b[..pos + 8]), DecodeAll(b[..pos]);
    forall i | 0 <= i <= pos / 8
      ensures next[i] == if i < pos / 8 then now[i] else DecodeEntry(b[pos..pos + 8])
    {
      DecodeChunk(b[..pos + 8], i);
      assert b[..pos + 8][8 * i..8 * i + 8] == b[8 * i..8 * i + 8];
      if i < pos / 8 {
        DecodeChunk(b[..pos], i);
        assert b[..pos][8 * i..8 * i + 8] == b[8 * i..8 * i + 8];
      }
    }
  }

  /** A last fragment shorter than an entry adds nothing. */
  lemma {:induction false} DecodeTorn(b: seq<u8>, pos: nat)
    requires pos % 8 == 0 && pos <= |b| < pos + 8
    ensures DecodeAll(b[..pos]) == DecodeAll(b)
  {
    hide DecodeEntry;
    forall i | 0 <= i < pos / 8 ensures DecodeAll(b[..pos])[i] == DecodeAll(b)[i] {
      DecodeChunk(b[..pos], i);
      DecodeChunk(b, i);
      assert b[..pos][8 * i..8 * i + 8] == b[8 * i..8 * i + 8];
    }
  }

  lemma U32Bytes(b: seq<u8>)
    requires |b| == 4
    ensures EncodeU32(DecodeU32(b)) == b
  {
    var b0: int, b1: int, b2: int, b3: int := b[0], b[1], b[2], b[3];
    var n: int := DecodeU32(b);
    assert n % 0x100 == b0 && n / 0x100 == b1 + 0x100 * b2 + 0x1_0000 * b3;
    assert n / 0x1_0000 == b2 + 0x100 * b3 && n / 0x100_0000 == b3;
  }

  lemma EntryBytes(b: seq<u8>)
    requires |b| == 8
    ensures EncodeEntry(DecodeEntry(b)) == b
  {
    U32Bytes(b[..4]);
    U32Bytes(b[4..]);
  }

  /** Encoding the decoded entries gives back the bytes of the whole chunks. */
  lemma {:induction false} EncodeDecoded(b: seq<u8>, pos: nat)
    requires pos % 8 == 0 && pos <= |b|
    ensures EncodeAll(DecodeAll(b[..pos])) == b[..pos]
  {
    hide DecodeEntry;
    hide EncodeEntry;
    hide DecodeAll;
    if pos == 0 {
      DecodeNothing();
      assert b[..0] == [];
    } else {
      EncodeDecoded(b, pos - 8);
      DecodeSnoc(b, pos - 8);
      EncodeSnoc(DecodeAll(b[..pos - 8]), DecodeEntry(b[pos - 8..pos]));
      EntryBytes(b[pos - 8..pos]);
      assert b[..pos] == b[..pos - 8] + b[pos - 8..pos];
    }
  }

  lemma DecodeNothing()
    ensures EncodeAll(DecodeAll([])) == []
  {
  }

  function Power(b: nat, n: nat): nat {
    if n == 0 then 1 else b * Power(b, n - 1)
  }

  /** On disk an entry is its start, then its length, each with the least significant byte first. */
  lemma EntryLayout(e: Entry, i: nat)
    requires i < 4
    ensures Power(0x100, i) > 0
    ensures EncodeEntry(e)[i] == e.start / Power(0x100, i) % 0x100
    ensures EncodeEntry(e)[4 + i] == e.total / Power(0x100, i) % 0x100
  {
    assert Power(0x100, 1) == 0x100 && Power(0x100, 2) == 0x1_0000 && Power(0x100, 3) == 0x100_0000;
    assert e.start / 0x100_0000 < 0x100 && e.total / 0x100_0000 < 0x100;
  }
}
