/** A segment's content as a list of records: concatenation, and the index entries that tile it. */
module Records {
  import opened Base

  datatype Entry = Entry(start: u32, total: u32)

  /** All records, one after the other. */
  function Flatten(rs: seq<Record>): seq<u8> {
    if rs == [] then [] else Flatten(rs[..|rs| - 1]) + rs[|rs| - 1]
  }

  /** Number of bytes held by the first `k` records. */
  function Offset(rs: seq<Record>, k: nat): nat
    requires k <= |rs|
  {
    |Flatten(rs[..k])|
  }

  /** The entries cover the flattened records, one entry a record, with no gap and no overlap. */
  ghost predicate Tiles(es: seq<Entry>, rs: seq<Record>) {
    && |es| == |rs|
    && forall k :: 0 <= k < |es| ==> es[k].start == Offset(rs, k) && es[k].total == |rs[k]|
  }

  lemma FlattenSnoc(rs: seq<Record>, r: Record)
    ensures Flatten(rs + [r]) == Flatten(rs) + r
  {
    assert (rs + [r])[..|rs|] == rs;
  }

  lemma {:induction false} FlattenConcat(a: seq<Record>, b: seq<Record>)
    ensures Flatten(a + b) == Flatten(a) + Flatten(b)
  {
    if b == [] {
      assert a + b == a;
    } else {
      var n := |b| - 1;
      FlattenConcat(a, b[..n]);
      assert (a + b)[..|a + b| - 1] == a + b[..n];
    }
  }

  lemma FlattenThree(a: seq<Record>, r: Record, b: seq<Record>)
    ensures Flatten(a + [r]) == Flatten(a) + r
    ensures Flatten(a + [r] + b) == Flatten(a) + r + Flatten(b)
  {
    FlattenSnoc(a, r);
    FlattenConcat(a + [r], b);
  }

  /** Cutting the flattened records just before record `k` and just after it. */
  lemma {:induction false} FlattenCut(rs: seq<Record>, k: nat)
    requires k < |rs|
    ensures Flatten(rs[..k + 1]) == Flatten(rs[..k]) + rs[k]
    ensures Flatten(rs) == Flatten(rs[..k]) + rs[k] + Flatten(rs[k + 1..])
  {
    var a, r, b := rs[..k], rs[k], rs[k + 1..];
    assert rs[..k + 1] == a + [r];
    assert rs == a + [r] + b;
    FlattenThree(a, r, b);
  }

  /** Every record is found at its offset. */
  lemma FlattenAt(rs: seq<Record>, k: nat)
    requires k < |rs|
    ensures Offset(rs, k) + |rs[k]| == Offset(rs, k + 1) <= |Flatten(rs)|
    ensures Flatten(rs)[Offset(rs, k)..Offset(rs, k) + |rs[k]|] == rs[k]
  {
    FlattenCut(rs, k);
    SliceMiddle(Flatten(rs[..k]), rs[k], Flatten(rs[k + 1..]));
  }

  lemma SliceMiddle(a: seq<u8>, b: seq<u8>, c: seq<u8>)
    ensures (a + b + c)[|a|..|a| + |b|] == b
  {
  }

  lemma {:induction false} OffsetMonotone(rs: seq<Record>, j: nat, k: nat)
    requires j <= k <= |rs|
    ensures Offset(rs, j) <= Offset(rs, k) <= |Flatten(rs)|
  {
    FlattenConcat(rs[..j], rs[j..k]);
    assert rs[..j] + rs[j..k] == rs[..k];
    FlattenConcat(rs[..k], rs[k..]);
    assert rs[..k] + rs[k..] == rs;
  }

  /** Adding a record and the entry for it keeps the tiling. */
  lemma TilesSnoc(es: seq<Entry>, rs: seq<Record>, r: Record)
    requires Tiles(es, rs)
    requires |Flatten(rs)| + |r| < TWO_32
    ensures Tiles(es + [Entry(|Flatten(rs)|, |r|)], rs + [r])
  {
    var es' := es + [Entry(|Flatten(rs)|, |r|)];
    var rs' := rs + [r];
    forall k | 0 <= k < |es'|
      ensures es'[k].start == Offset(rs', k) && es'[k].total == |rs'[k]|
    {
      assert rs'[..k] == if k < |rs| then rs[..k] else rs;
      assert rs[..|rs|] == rs;
    }
  }

  lemma TilesUnique(a: seq<Entry>, b: seq<Entry>, rs: seq<Record>)
    requires Tiles(a, rs) && Tiles(b, rs)
    ensures a == b
  {
    forall k | 0 <= k < |a| ensures a[k] == b[k] {
    }
  }
}
