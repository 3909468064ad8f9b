/** How records are packed into segments, how many segments that makes, and how much is retained. */
module Packing {
  import opened Base
  import opened Records
  import opened SegmentSpec
  import opened CleanerSpec
  import opened LogSpec
  import opened LogInvariant
  import opened LogRefinement

  /**
   * Next-fit packing of a history: where each segment ever created starts. A record opens a new
   * segment exactly when it does not fit the last one.
   */
  function Starts(hist: seq<Record>, maxSize: nat): (b: seq<nat>)
    ensures |b| > 0 && b[|b| - 1] <= |hist|
  {
    if hist == [] then
      [0]
    else
      var n := |hist| - 1;
      var b := Starts(hist[..n], maxSize);
      if |Flatten(hist[b[|b| - 1]..])| > maxSize then b + [n] else b
  }

  ghost predicate AllFit(hist: seq<Record>, maxSize: nat) {
    forall i :: 0 <= i < |hist| ==> |hist[i]| <= maxSize
  }

  lemma StartsAtZero(maxSize: nat)
    ensures Starts([], maxSize) == [0]
  {
  }

  lemma StartsStep(hist: seq<Record>, maxSize: nat)
    requires hist != []
    ensures var n := |hist| - 1;
            var before, b := Starts(hist[..n], maxSize), Starts(hist, maxSize);
            b == if |Flatten(hist[before[|before| - 1]..])| > maxSize then before + [n] else before
  {
    hide Flatten;
  }

  /** The starts increase from 0, and every one after the first is the offset of a record. */
  lemma {:induction false} StartsIncrease(hist: seq<Record>, maxSize: nat)
    ensures var b := Starts(hist, maxSize);
            && b[0] == 0
            && (forall i :: 1 <= i < |b| ==> b[i] < |hist|)
            && forall i, j :: 0 <= i < j < |b| ==> b[i] < b[j]
    requires AllFit(hist, maxSize)
  {
    hide Flatten;
    if hist != [] {
      var n := |hist| - 1;
      StartsIncrease(hist[..n], maxSize);
      var b := Starts(hist[..n], maxSize);
      var last := b[|b| - 1];
      if |Flatten(hist[last..])| > maxSize && last == n {
        LastRecord(hist);
      }
    }
  }

  lemma LastRecord(hist: seq<Record>)
    requires hist != []
    ensures Flatten(hist[|hist| - 1..]) == hist[|hist| - 1]
  {
    var t := hist[|hist| - 1..];
    assert t == [hist[|hist| - 1]];
    assert t[..0] == [];
    assert Flatten([]) + t[0] == t[0];
  }

  lemma SliceOfPrefix(hist: seq<Record>, n: nat, lo: nat, hi: nat)
    requires lo <= hi <= n <= |hist|
    ensures hist[..n][lo..hi] == hist[lo..hi]
  {
  }

  /** A segment and the first record of the next one do not fit one segment. */
  lemma {:induction false} AdjacentOverflow(hist: seq<Record>, maxSize: nat, i: nat)
    requires AllFit(hist, maxSize)
    requires i + 1 < |Starts(hist, maxSize)|
    ensures var b := Starts(hist, maxSize);
            && b[i] < b[i + 1] < |hist|
            && |Flatten(hist[b[i]..b[i + 1] + 1])| > maxSize
  {
    hide Flatten;
    hide Starts;
    StartsAtZero(maxSize);
    StartsStep(hist, maxSize);
    var n := |hist| - 1;
    var before := Starts(hist[..n], maxSize);
    var b := Starts(hist, maxSize);
    if i + 1 < |before| {
      AdjacentOverflow(hist[..n], maxSize, i);
      SliceOfPrefix(hist, n, b[i], b[i + 1] + 1);
    } else {
      assert b == before + [n] && i == |before| - 1;
      LastRecord(hist);
      assert hist[b[i]..n + 1] == hist[b[i]..];
    }
  }

  /** Two segments for every maxSize + 1 bytes, at most. */
  lemma {:induction false} PairsHoldMore(hist: seq<Record>, maxSize: nat, i: nat)
    requires AllFit(hist, maxSize)
    requires i >= 1 && 2 * i - 1 < |Starts(hist, maxSize)|
    ensures Starts(hist, maxSize)[2 * i - 1] < |hist|
    ensures |Flatten(hist[..Starts(hist, maxSize)[2 * i - 1] + 1])| >= i * (maxSize + 1)
  {
    hide Flatten;
    hide Starts;
    var b := Starts(hist, maxSize);
    var lo, hi := b[2 * i - 2], b[2 * i - 1];
    AdjacentOverflow(hist, maxSize, 2 * i - 2);
    assert hist[..hi + 1] == hist[..lo] + hist[lo..hi + 1];
    FlattenConcat(hist[..lo], hist[lo..hi + 1]);
    if i > 1 {
      PairsHoldMore(hist, maxSize, i - 1);
      AdjacentOverflow(hist, maxSize, 2 * i - 3);
      OffsetMonotone(hist, b[2 * i - 3] + 1, lo);
      assert i * (maxSize + 1) == (i - 1) * (maxSize + 1) + (maxSize + 1);
    }
  }

  /**
   * The packing bound: after B appended bytes at most 2 * (B / (M + 1)) + 1 segments have ever
   * been created, which is at most 2 * (B / M) + 1.
   */
  lemma SegmentsEverCreated(hist: seq<Record>, maxSize: nat)
    requires AllFit(hist, maxSize)
    ensures |Starts(hist, maxSize)| <= 2 * (|Flatten(hist)| / (maxSize + 1)) + 1
  {
    hide Flatten;
    hide Starts;
    var half := |Starts(hist, maxSize)| / 2;
    if half >= 1 {
      PairsHoldMore(hist, maxSize, half);
      OffsetMonotone(hist, Starts(hist, maxSize)[2 * half - 1] + 1, |hist|);
      assert hist[..|hist|] == hist;
      DivideBound(half, maxSize + 1, |Flatten(hist)|);
    }
  }

  lemma DivideBound(k: nat, m: nat, total: nat)
    requires m > 0 && k * m <= total
    ensures k <= total / m
  {
    MultiplyMonotone(total / m + 1, k, m);
  }

  lemma MultiplyMonotone(a: nat, b: nat, m: nat)
    ensures a <= b ==> a * m <= b * m
  {
  }

  // ---- the log is packed ----

  function SegmentStarts(segs: seq<Segment>): (b: seq<nat>)
    ensures |b| == |segs|
    ensures forall i :: 0 <= i < |segs| ==> b[i] == segs[i].start
  {
    seq(|segs|, i requires 0 <= i < |segs| => segs[i].start)
  }

  function AllStarts(log: Log): (b: seq<nat>) {
    SegmentStarts(log.segments) + [log.cur.start]
  }

  /** The segments of the log are the last ones of the next-fit packing of its history. */
  ghost predicate Packed(log: Log, hist: seq<Record>) {
    var b := Starts(hist, log.maxSize);
    var kept := AllStarts(log);
    && AllFit(hist, log.maxSize)
    && |kept| <= |b|
    && kept == b[|b| - |kept|..]
  }

  /** What is on disk beyond the oldest segment is within the budget; nothing was deleted without need. */
  ghost predicate Retained(log: Log) {
    && (log.segments != [] ==> Bytes(log.segments[1..]) <= log.retention)
    && (Oldest(log) > 0 ==> Bytes(log.segments) > log.retention)
  }

  /** All that holds of a log between operations. */
  ghost predicate RunInv(log: Log, hist: seq<Record>) {
    Inv(log, hist) && Packed(log, hist) && Retained(log)
  }

  lemma RunInvIsInv(log: Log, hist: seq<Record>)
    requires RunInv(log, hist)
    ensures Inv(log, hist)
  {
  }

  lemma CleanPacks(log: Log, hist: seq<Record>)
    requires Inv(log, hist) && Packed(log, hist)
    ensures Packed(Cleaned(log), hist)
  {
    hide Inv;
    hide CleanerSpec.Clean;
    CleanKeepsInv(log, hist);
    var k := KeepFrom(log.segments, log.retention);
    var b := Starts(hist, log.maxSize);
    var kept := SegmentStarts(log.segments) + [log.cur.start];
    assert Cleaned(log).maxSize == log.maxSize && Cleaned(log).cur == log.cur;
    assert SegmentStarts(Cleaned(log).segments) + [log.cur.start] == kept[k..];
    assert b[|b| - |kept|..][k..] == b[|b| - |kept[k..]|..];
  }

  /** Cleaning establishes the retention bound, and keeps the proof that deletions were needed. */
  lemma CleanRetains(log: Log, hist: seq<Record>)
    requires Inv(log, hist)
    requires Oldest(log) > 0 ==> Bytes(log.segments) > log.retention
    ensures Retained(Cleaned(log))
  {
    hide Inv;
    hide CleanerSpec.Clean;
    CleanKeepsInv(log, hist);
    var segs, k := log.segments, KeepFrom(log.segments, log.retention);
    CutUnique(segs, log.retention, k);
    assert Cleaned(log).retention == log.retention;
    if segs != [] {
      assert segs[k..][1..] == segs[k + 1..];
    }
    assert k == 0 ==> segs[k..] == segs;
  }

  lemma CurBytes(log: Log, hist: seq<Record>)
    requires Inv(log, hist)
    ensures log.cur.start <= |hist|
    ensures log.cur.contents.data == Flatten(hist[log.cur.start..])
    ensures |log.cur.contents.data| <= log.maxSize
  {
    hide SHolds;
  }

  /** The log opens a new segment exactly when next-fit packing does. */
  lemma NextStarts(log: Log, hist: seq<Record>, d: Record)
    requires Inv(log, hist) && Packed(log, hist)
    ensures Starts(hist + [d], log.maxSize) ==
            Starts(hist, log.maxSize) + (if Fits(log, d) then [] else [|hist|])
  {
    hide Inv;
    hide Flatten;
    hide Starts;
    CurBytes(log, hist);
    var hist', s := hist + [d], log.cur.start;
    var b := Starts(hist, log.maxSize);
    assert b[|b| - 1] == (SegmentStarts(log.segments) + [s])[|log.segments|] == s;
    StartsStep(hist', log.maxSize);
    assert hist'[..|hist|] == hist;
    assert hist'[s..] == hist[s..] + [d];
    FlattenSnoc(hist[s..], d);
  }

  /** Writing a record adds a start to those of the log exactly when the record does not fit. */
  lemma WrittenStarts(log: Log, hist: seq<Record>, d: Record)
    requires Inv(log, hist) && Safe(log, d) && |hist| + 1 < TWO_16 && |d| <= log.maxSize
    ensures AllStarts(Written(log, d)) == AllStarts(log) + (if Fits(log, d) then [] else [|hist|])
    ensures Written(log, d).maxSize == log.maxSize
  {
    hide Inv;
    hide VSeg.Write;
    hide AfterSplit;
    hide Flushed;
    hide Safe;
    hide Fits;
    AppendIs(log, hist, d);
    RoomKeepsConfig(log, d);
    if !Fits(log, d) {
      SplitStart(log, hist);
      assert SegmentStarts(AfterSplit(log).segments) == AllStarts(log);
    }
  }

  lemma SuffixSnoc(kept: seq<nat>, b: seq<nat>, x: nat)
    requires |kept| <= |b| && kept == b[|b| - |kept|..]
    ensures kept + [x] == (b + [x])[|b| - |kept|..]
  {
  }

  lemma WrittenPacks(log: Log, hist: seq<Record>, d: Record)
    requires Inv(log, hist) && Packed(log, hist) && Safe(log, d)
    requires |hist| + 1 < TWO_16 && |d| <= log.maxSize
    ensures Packed(Written(log, d), hist + [d])
  {
    hide Inv;
    hide Starts;
    hide Written;
    hide SegmentStarts;
    hide Safe;
    hide Fits;
    NextStarts(log, hist, d);
    WrittenStarts(log, hist, d);
    SuffixSnoc(AllStarts(log), Starts(hist, log.maxSize), |hist|);
    assert AllStarts(log) + [] == AllStarts(log);
  }

  lemma SplitStart(log: Log, hist: seq<Record>)
    requires Inv(log, hist)
    ensures AfterSplit(log).cur.start == |hist|
    ensures AfterSplit(log).segments == log.segments + [Flushed(log.cur)]
    ensures Flushed(log.cur).start == log.cur.start
  {
    hide Inv;
    hide VSeg.Flush;
    CurFacts(log, hist);
  }

  /** Splitting can only add to what is on disk. */
  lemma WrittenKeepsNeed(log: Log, hist: seq<Record>, d: Record)
    requires Inv(log, hist) && Retained(log)
    ensures Oldest(Written(log, d)) > 0 ==> Bytes(Written(log, d).segments) > log.retention
    ensures Written(log, d).retention == log.retention
  {
    hide VSeg.Flush;
    hide VSeg.Write;
    hide Inv;
    if !Fits(log, d) {
      SplitStart(log, hist);
      BytesConcat(log.segments, [Flushed(log.cur)]);
      NoSegmentsYet(log, hist);
    }
  }

  lemma NoSegmentsYet(log: Log, hist: seq<Record>)
    requires Inv(log, hist)
    ensures log.segments == [] ==> log.cur.start == 0
  {
    hide SHolds;
    hide VHolds;
  }

  /** One append keeps everything that holds of a log between operations. */
  lemma AppendKeepsRunInv(log: Log, hist: seq<Record>, d: Record)
    requires RunInv(log, hist) && Safe(log, d) && |hist| + 1 < TWO_16 && |d| <= log.maxSize
    ensures RunInv(Append(log, d).0, hist + [d])
  {
    hide Inv;
    hide Packed;
    hide Retained;
    hide Append;
    AppendIs(log, hist, d);
    WrittenPacks(log, hist, d);
    WrittenKeepsNeed(log, hist, d);
    CleanKeepsInv(Written(log, d), hist + [d]);
    CleanPacks(Written(log, d), hist + [d]);
    CleanRetains(Written(log, d), hist + [d]);
  }

  lemma NewLogRunInv(maxSize: nat, retention: nat)
    requires maxSize < TWO_32
    ensures RunInv(Log(map[], [], retention, maxSize, NewVSeg(maxSize, 0)), [])
  {
    var log := Log(map[], [], retention, maxSize, NewVSeg(maxSize, 0));
    NewLogHoldsNothing(maxSize, retention, []);
    assert SegmentStarts(log.segments) + [0] == [0];
  }

  // ---- bounds ----

  /** The bytes of a disk segment are those of its range of the history. */
  lemma SegmentBytes(log: Log, hist: seq<Record>, i: nat)
    requires Inv(log, hist) && i < |log.segments|
    ensures var s := log.segments[i];
            && s.start < s.next <= log.cur.start <= |hist|
            && s.position == |Flatten(hist[s.start..s.next])|
            && s.next == NextStart(log.segments, i, log.cur.start)
  {
    SegmentsBelow(log, hist, i);
    assert HoldsRange(log.files, log.segments[i], hist);
    assert log.segments[i].next == NextStart(log.segments, i, log.cur.start);
  }

  ghost predicate AdjacentOver(segs: seq<Segment>, maxSize: nat) {
    forall i, j :: 0 <= i < j < |segs| && j == i + 1 ==> segs[i].position + segs[j].position > maxSize
  }

  /** Where a disk segment starts and stops, as the packing of the history has it. */
  lemma KeptAt(log: Log, hist: seq<Record>, i: nat)
    requires Inv(log, hist) && Packed(log, hist) && i < |log.segments|
    ensures var b := Starts(hist, log.maxSize);
            var at := |b| - |log.segments| - 1;
            at >= 0 && log.segments[i].start == b[at + i] && log.segments[i].next == b[at + i + 1]
  {
    hide Inv;
    hide Starts;
    SegmentBytes(log, hist, i);
    var kept := SegmentStarts(log.segments) + [log.cur.start];
    var b := Starts(hist, log.maxSize);
    assert kept[i] == b[|b| - |kept|..][i] && kept[i + 1] == b[|b| - |kept|..][i + 1];
  }

  /** Two adjacent ranges hold at least the first range and the record after it. */
  lemma RangeBytes(hist: seq<Record>, a: nat, c: nat, e: nat)
    requires a <= c < e <= |hist|
    ensures |Flatten(hist[a..c + 1])| <= |Flatten(hist[a..c])| + |Flatten(hist[c..e])|
  {
    hide Flatten;
    assert hist[a..c + 1] == hist[a..c] + hist[c..c + 1];
    FlattenConcat(hist[a..c], hist[c..c + 1]);
    assert hist[c..e] == hist[c..c + 1] + hist[c + 1..e];
    FlattenConcat(hist[c..c + 1], hist[c + 1..e]);
  }

  lemma DiskSegmentFits(log: Log, hist: seq<Record>, i: nat)
    requires Inv(log, hist) && Packed(log, hist) && i < |log.segments|
    ensures log.segments[i].position <= log.maxSize
  {
    hide Inv;
    hide Starts;
    hide Flatten;
    SegmentBytes(log, hist, i);
    KeptAt(log, hist, i);
    SegmentFits(hist, log.maxSize, |Starts(hist, log.maxSize)| - |log.segments| - 1 + i);
  }

  lemma DiskPairOver(log: Log, hist: seq<Record>, i: nat)
    requires Inv(log, hist) && Packed(log, hist) && i + 1 < |log.segments|
    ensures log.segments[i].position + log.segments[i + 1].position > log.maxSize
  {
    hide Inv;
    hide Starts;
    hide Flatten;
    SegmentBytes(log, hist, i);
    SegmentBytes(log, hist, i + 1);
    KeptAt(log, hist, i);
    AdjacentOverflow(hist, log.maxSize, |Starts(hist, log.maxSize)| - |log.segments| - 1 + i);
    RangeBytes(hist, log.segments[i].start, log.segments[i].next, log.segments[i + 1].next);
  }

  /** No segment on disk is larger than the limit, and any two adjacent ones are larger together. */
  lemma DiskSegmentsFull(log: Log, hist: seq<Record>)
    requires RunInv(log, hist)
    ensures AdjacentOver(log.segments, log.maxSize)
    ensures forall i :: 0 <= i < |log.segments| ==> log.segments[i].position <= log.maxSize
  {
    hide Inv;
    hide Packed;
    var segs := log.segments;
    forall i | 0 <= i < |segs| ensures segs[i].position <= log.maxSize {
      DiskSegmentFits(log, hist, i);
    }
    forall i, j | 0 <= i < j < |segs| && j == i + 1 ensures segs[i].position + segs[j].position > log.maxSize {
      DiskPairOver(log, hist, i);
    }
  }

  lemma FlattenNothing()
    ensures Flatten([]) == []
  {
  }

  function StopOf(b: seq<nat>, i: nat, end: nat): nat
    requires i < |b|
  {
    if i + 1 < |b| then b[i + 1] else end
  }

  /** Next-fit packing respects the limit. */
  lemma {:induction false} SegmentFits(hist: seq<Record>, maxSize: nat, i: nat)
    requires AllFit(hist, maxSize)
    requires i < |Starts(hist, maxSize)|
    ensures var b := Starts(hist, maxSize);
            b[i] <= StopOf(b, i, |hist|) <= |hist| && |Flatten(hist[b[i]..StopOf(b, i, |hist|)])| <= maxSize
  {
    hide Flatten;
    hide Starts;
    StartsAtZero(maxSize);
    var b := Starts(hist, maxSize);
    var stop := StopOf(b, i, |hist|);
    if i + 1 < |b| {
      AdjacentOverflow(hist, maxSize, i);
    }
    if hist == [] {
      FlattenNothing();
      assert hist[0..0] == [];
    } else {
      var n := |hist| - 1;
      var before := Starts(hist[..n], maxSize);
      StartsStep(hist, maxSize);
      if i < |before| && stop <= n {
        SegmentFits(hist[..n], maxSize, i);
        assert stop == StopOf(before, i, n);
        SliceOfPrefix(hist, n, b[i], stop);
      } else if i < |before| {
        assert b == before;
        assert hist[b[i]..stop] == hist[b[i]..];
      } else {
        LastRecord(hist);
        assert hist[b[i]..stop] == hist[n..];
      }
    }
  }

  lemma {:induction false} BytesOfPairs(segs: seq<Segment>, maxSize: nat)
    requires AdjacentOver(segs, maxSize)
    ensures Bytes(segs) >= |segs| / 2 * (maxSize + 1)
  {
    if |segs| >= 2 {
      var rest := segs[2..];
      forall i, j | 0 <= i < j < |rest| && j == i + 1
        ensures rest[i].position + rest[j].position > maxSize
      {
        assert segs[i + 2].position + segs[j + 2].position > maxSize;
      }
      BytesOfPairs(rest, maxSize);
      assert segs[1..][1..] == rest;
      assert Bytes(segs) == segs[0].position + (segs[1].position + Bytes(rest));
      assert |segs| / 2 == |rest| / 2 + 1;
    }
  }

  /**
   * What a log keeps, between operations, for a limit M on a segment and a budget R: at most
   * 2 * (R / (M + 1)) + 2 segments on disk; at most R bytes on disk without the oldest segment,
   * R + M with it, and R + 2M with the segment in memory; and more than R on disk once anything
   * has been deleted.
   */
  lemma RetentionBounds(log: Log, hist: seq<Record>)
    requires RunInv(log, hist)
    ensures |log.segments| <= 2 * (log.retention / (log.maxSize + 1)) + 2
    ensures log.segments != [] ==> Bytes(log.segments[1..]) <= log.retention
    ensures Bytes(log.segments) <= log.retention + log.maxSize
    ensures Bytes(log.segments) + |log.cur.contents.data| <= log.retention + 2 * log.maxSize
    ensures Oldest(log) > 0 ==> Bytes(log.segments) > log.retention
  {
    hide Inv;
    hide Packed;
    DiskSegmentsFull(log, hist);
    CurBytes(log, hist);
    if log.segments != [] {
      var rest := log.segments[1..];
      forall i, j | 0 <= i < j < |rest| && j == i + 1
        ensures rest[i].position + rest[j].position > log.maxSize
      {
        assert log.segments[i + 1].position + log.segments[j + 1].position > log.maxSize;
      }
      BytesOfPairs(rest, log.maxSize);
      DivideBound(|rest| / 2, log.maxSize + 1, log.retention);
    }
  }
}
