/** Where the log's promise ends: an append away from the end, and the 65536th record. */
module LogLimits {
  import opened Base
  import opened Records
  import opened Files
  import opened SegmentSpec
  import CleanerSpec
  import opened LogSpec
  import opened LogInvariant
  import opened LogRefinement

  /** What a write that fits does, whatever the cursor. */
  lemma WriteShape(v: VSeg, d: Record)
    requires v.position == |v.contents.data|
    requires |v.contents.data| + |d| <= v.maxBytes < TWO_32
    ensures v.Write(d) ==
            (v.(contents := v.contents.Write(d),
                index := v.index.AddEntry(v.position, |d|),
                position := v.position + |d|,
                next := WrapAdd16(v.next, 1)),
             Success(v.next))
  {
  }

  /** What an append that stays in the current segment does, whatever the cursor. */
  lemma FittingAppend(log: Log, hist: seq<Record>, d: Record)
    requires Inv(log, hist) && Fits(log, d)
    ensures Append(log, d).0.cur == log.cur.Write(d).0
    ensures Append(log, d).1 == Success(|hist|)
    ensures log.cur.Write(d).0 ==
            log.cur.(contents := log.cur.contents.Write(d),
                     index := log.cur.index.AddEntry(log.cur.position, |d|),
                     position := log.cur.position + |d|,
                     next := WrapAdd16(log.cur.next, 1))
  {
    hide Inv;
    hide CleanerSpec.Clean;
    hide VSeg.Write;
    hide VSeg.Flush;
    CurFacts(log, hist);
    CleanKeepsInv(log, hist);
    WriteShape(log.cur, d);
  }

  /** A write before the end makes the contents too short for the new record. */
  lemma OverwriteIsShort(c: Cursor, d: seq<u8>)
    requires c.pos < |c.data| && d != []
    ensures |c.Write(d).data| < |c.data| + |d|
    ensures forall i :: 0 <= i < |d| ==> c.Write(d).data[c.pos + i] == d[i]
  {
  }

  /** An append that overwrites cannot be read back. */
  lemma UnsafeAppendLosesRecord(log: Log, hist: seq<Record>, d: Record)
    requires Inv(log, hist) && |d| <= log.maxSize && |hist| + 1 < TWO_16
    requires !Safe(log, d)
    ensures Read(Append(log, d).0, |hist|).1 == Failure(Unexpected)
  {
    hide Append;
    hide Inv;
    CurFacts(log, hist);
    FittingAppend(log, hist, d);
    OverwriteIsShort(log.cur.contents, d);
    var cur' := log.cur.Write(d).0;
    var k := |hist| - log.cur.start;
    assert cur'.index.entries[k] == Entry(|log.cur.contents.data|, |d|);
    assert !cur'.PastEnd(k);
  }

  /**
   * The exact condition for an append to be one: a record that fits the size limit is always
   * accepted at offset |hist|, but the log holds it, with all that it held before, if and only if
   * the append is safe; otherwise the new record cannot be read back.
   */
  lemma AppendCorrectIffSafe(log: Log, hist: seq<Record>, d: Record)
    requires Inv(log, hist) && |d| <= log.maxSize && |hist| + 1 < TWO_16
    ensures Append(log, d).1 == Success(|hist|)
    ensures Inv(Append(log, d).0, hist + [d]) <==> Safe(log, d)
    ensures Read(Append(log, d).0, |hist|).1 == Success(d) <==> Safe(log, d)
  {
    hide Append;
    hide Inv;
    hide Read;
    hide VSeg.Write;
    var log' := Append(log, d).0;
    if Safe(log, d) {
      AppendRefines(log, hist, d);
    } else {
      FittingAppend(log, hist, d);
      StartWithin(log, hist);
      UnsafeAppendLosesRecord(log, hist, d);
    }
    if Inv(log', hist + [d]) {
      ReadRefines(log', hist + [d], |hist|);
      OldestBelow(log', hist + [d]);
    }
  }

  lemma StartWithin(log: Log, hist: seq<Record>)
    requires Inv(log, hist)
    ensures log.cur.start <= |hist|
  {
  }

  /**
   * What an overwrite destroys: when the cursor stands before record `k`, an append at least as
   * long as that record replaces its bytes by the first bytes of the new one.
   */
  lemma UnsafeAppendOverwrites(log: Log, hist: seq<Record>, d: Record, k: nat)
    requires Inv(log, hist) && |hist| + 1 < TWO_16 && Fits(log, d) && !log.cur.contents.AtEnd()
    requires log.cur.start <= k < |hist|
    requires log.cur.contents.pos == Offset(hist[log.cur.start..], k - log.cur.start)
    requires |hist[k]| <= |d|
    ensures Read(Append(log, d).0, k).1 == Success(d[..|hist[k]|])
  {
    hide Append;
    hide Inv;
    hide VSeg.Write;
    hide VSeg.ReadAt;
    hide Cursor.Write;
    hide Flatten;
    var c, cur' := log.cur.contents, log.cur.Write(d).0;
    var i, n := k - log.cur.start, |hist[k]|;
    CurEntry(log, hist, k);
    CurFacts(log, hist);
    FittingAppend(log, hist, d);
    assert cur'.index.entries[i] == Entry(c.pos, n);
    assert !cur'.PastEnd(i);
    OverwrittenRead(cur', c, d, i, n);
  }

  lemma CurEntry(log: Log, hist: seq<Record>, k: nat)
    requires Inv(log, hist) && log.cur.start <= k < |hist|
    ensures var i := k - log.cur.start;
            i < |log.cur.index.entries|
            && log.cur.index.entries[i].start == Offset(hist[log.cur.start..], i)
            && log.cur.index.entries[i].total == |hist[k]|
  {
    hide SHolds;
  }

  lemma OverwrittenRead(v: VSeg, c: Cursor, d: seq<u8>, i: nat, n: nat)
    requires c.pos <= |c.data| && n <= |d| && v.contents == c.Write(d)
    requires c.pos < TWO_32 && n < TWO_32
    requires i < |v.index.entries| && v.index.entries[i] == Entry(c.pos, n) && !v.PastEnd(i)
    ensures v.ReadAt(i).1 == Success(d[..n])
  {
    assert c.Write(d).data[c.pos..c.pos + n] == d[..n];
  }

  // ---- the 16-bit offset ----

  /** After the 65536th record, no offset of the current segment can be read. */
  lemma FullAppend(log: Log, hist: seq<Record>, d: Record)
    requires Inv(log, hist) && |hist| == 0xFFFF && Fits(log, d)
    ensures Append(log, d).1 == Success(0xFFFF)
    ensures var cur' := Append(log, d).0.cur; cur'.start <= 0xFFFF && forall k :: cur'.PastEnd(k)
  {
    hide Append;
    hide Inv;
    CurFacts(log, hist);
    FittingAppend(log, hist, d);
  }

  /**
   * The record limit is exact: a log that holds 65535 records accepts one more and returns its
   * offset, but the offset counters have wrapped, so neither that record nor any other of the
   * current segment can be read; with fewer records AppendRefines applies.
   */
  lemma RecordLimit(log: Log, hist: seq<Record>, d: Record, o: nat)
    requires Inv(log, hist) && |hist| == 0xFFFF && |d| <= log.maxSize
    ensures Append(log, d).1 == Success(0xFFFF)
    ensures o >= Append(log, d).0.cur.start ==> Read(Append(log, d).0, o).1 == Failure(DoesNotExist)
    ensures Append(log, d).0.cur.start <= 0xFFFF
  {
    hide Append;
    hide Inv;
    hide AfterSplit;
    hide VSeg.Flush;
    var before := if Fits(log, d) then log else AfterSplit(log);
    if !Fits(log, d) {
      AppendSplits(log, hist, d, SomeListing(log.cur.Flush(log.files)));
    }
    FullAppend(before, hist, d);
  }

  /**
   * Both limits together: on every log that holds its history, a record within the size limit can
   * be read back at the offset it was given if and only if its append is safe and it is not the
   * 65536th.
   */
  lemma ReadsBackIff(log: Log, hist: seq<Record>, d: Record)
    requires Inv(log, hist) && |d| <= log.maxSize
    ensures Append(log, d).1 == Success(|hist|)
    ensures Read(Append(log, d).0, |hist|).1 == Success(d) <==> Safe(log, d) && |hist| < 0xFFFF
  {
    hide Inv;
    hide Append;
    hide Read;
    hide Safe;
    CurFacts(log, hist);
    if |hist| < 0xFFFF {
      AppendCorrectIffSafe(log, hist, d);
    } else {
      RecordLimit(log, hist, d, |hist|);
    }
  }

  // ---- a failed cleaning ----

  /**
   * On any log whose current segment holds records, with room and the cursor at the end: an append
   * stores the record even when it answers with an error because the cleaning after it failed.
   */
  lemma AppendStoresAnyway(log: Log, rs: seq<Record>, d: Record)
    requires VHolds(log.cur, rs) && log.cur.contents.AtEnd() && log.cur.maxBytes < TWO_32
    requires |Flatten(rs)| + |d| <= log.cur.maxBytes && log.cur.start + |rs| + 1 < TWO_16
    ensures Append(log, d).1 == if CleanerSpec.Clean(log.files, log.segments, log.retention).2
                                then Success(log.cur.start + |rs|) else Failure(UnableToClean)
    ensures Read(Append(log, d).0, log.cur.start + |rs|).1 == Success(d)
  {
    hide CleanerSpec.Clean;
    hide VSeg.Write;
    hide VSeg.ReadAt;
    hide VHolds;
    WriteHolds(log.cur, rs, d);
    VReadHolds(log.cur.Write(d).0, rs + [d], |rs|);
  }

  /** A record of 2^32 bytes or more, where the limit allows it, is refused after its bytes were written. */
  lemma AppendHuge(log: Log, d: Record)
    requires TWO_32 <= |d| && |log.cur.contents.data| + |d| <= log.cur.maxBytes
    ensures Append(log, d) ==
            (log.(cur := log.cur.(contents := log.cur.contents.Write(d))), Failure(UnknownWrite))
  {
  }
}
