/** Retention: which segments are kept, and the files that go with the others. */
module CleanerSpec {
  import opened Files
  import opened Names
  import opened SegmentSpec

  /** Log bytes of the segments. */
  function Bytes(segs: seq<Segment>): nat {
    if segs == [] then 0 else segs[0].position + Bytes(segs[1..])
  }

  /** Index of the first segment kept: everything from there on is the shortest suffix over the budget. */
  function KeepFrom(segs: seq<Segment>, retention: nat): (k: nat)
    ensures k <= |segs|
  {
    if segs == [] || Bytes(segs[1..]) <= retention then 0 else 1 + KeepFrom(segs[1..], retention)
  }

  /** Delete the files of the first `k` segments, stopping at a file that is missing. */
  function DeletePrefix(files: FileMap, segs: seq<Segment>, k: nat): (FileMap, seq<Segment>, bool)
    requires k <= |segs|
  {
    if k == 0 then
      (files, segs, true)
    else
      var (rest, ok) := segs[0].Delete(files);
      if ok then DeletePrefix(rest, segs[1..], k - 1) else (rest, segs, false)
  }

  function Clean(files: FileMap, segs: seq<Segment>, retention: nat): (FileMap, seq<Segment>, bool) {
    DeletePrefix(files, segs, KeepFrom(segs, retention))
  }

  lemma {:induction false} BytesSuffix(segs: seq<Segment>, j: nat, k: nat)
    requires j <= k <= |segs|
    ensures Bytes(segs[k..]) <= Bytes(segs[j..])
    decreases k - j
  {
    if j < k {
      BytesSuffix(segs, j + 1, k);
      assert segs[j..][1..] == segs[j + 1..];
    }
  }

  lemma {:induction false} BytesConcat(a: seq<Segment>, b: seq<Segment>)
    ensures Bytes(a + b) == Bytes(a) + Bytes(b)
  {
    if a == [] {
      assert a + b == b;
    } else {
      BytesConcat(a[1..], b);
      assert (a + b)[1..] == a[1..] + b;
    }
  }

  /** `k` starts the shortest suffix whose bytes exceed the budget, or is 0 when no suffix does. */
  ghost predicate IsCut(segs: seq<Segment>, retention: nat, k: nat) {
    && k <= |segs|
    && (k > 0 ==> Bytes(segs[k..]) > retention)
    && forall j :: k < j <= |segs| ==> Bytes(segs[j..]) <= retention
  }

  lemma {:induction false} KeepFromIsCut(segs: seq<Segment>, retention: nat)
    ensures IsCut(segs, retention, KeepFrom(segs, retention))
  {
    var k := KeepFrom(segs, retention);
    if segs == [] {
    } else if k == 0 {
      forall j | 0 < j <= |segs| ensures Bytes(segs[j..]) <= retention {
        BytesSuffix(segs, 1, j);
      }
    } else {
      KeepFromIsCut(segs[1..], retention);
      assert segs[1..][k - 1..] == segs[k..];
      forall j | k < j <= |segs| ensures Bytes(segs[j..]) <= retention {
        assert segs[1..][j - 1..] == segs[j..];
      }
    }
  }

  /**
   * The cleaner keeps exactly the shortest suffix of segments over the budget: the cut is
   * unique, never drops the newest segment, and cutting again changes nothing.
   */
  lemma CutUnique(segs: seq<Segment>, retention: nat, k: nat)
    ensures IsCut(segs, retention, k) <==> k == KeepFrom(segs, retention)
    ensures segs != [] ==> KeepFrom(segs, retention) < |segs|
    ensures KeepFrom(segs[KeepFrom(segs, retention)..], retention) == 0
  {
    var c := KeepFrom(segs, retention);
    KeepFromIsCut(segs, retention);
    if c < |segs| {
      assert segs[c..][1..] == segs[c + 1..];
    }
  }

  // ---- deletion ----

  ghost predicate OwnsFiles(files: FileMap, s: Segment) {
    && s.logName in files && s.indexName in files && s.logName != s.indexName
  }

  /** The files of the segments are all there and no two segments share one. */
  ghost predicate FilesPresent(files: FileMap, segs: seq<Segment>) {
    && (forall i :: 0 <= i < |segs| ==> OwnsFiles(files, segs[i]))
    && forall i, j :: 0 <= i < j < |segs| ==> NoSharedFile(segs[i], segs[j])
  }

  ghost predicate NoSharedFile(s: Segment, t: Segment) {
    {s.logName, s.indexName} !! {t.logName, t.indexName}
  }

  function FileNames(s: Segment): set<FileName> {
    {s.logName, s.indexName}
  }

  /** The two names of every segment of the list. */
  function AllFileNames(segs: seq<Segment>): set<FileName> {
    if segs == [] then {} else FileNames(segs[0]) + AllFileNames(segs[1..])
  }

  /** Deletion removes exactly the files of the dropped prefix, and cannot fail when they exist. */
  lemma {:induction false} DeletePrefixExact(files: FileMap, segs: seq<Segment>, k: nat)
    requires k <= |segs| && FilesPresent(files, segs)
    ensures DeletePrefix(files, segs, k) == (files - AllFileNames(segs[..k]), segs[k..], true)
  {
    if k == 0 {
      assert files - {} == files;
    } else {
      var (rest, ok) := segs[0].Delete(files);
      assert ok && rest == files - FileNames(segs[0]);
      forall i | 0 <= i < |segs[1..]| ensures OwnsFiles(rest, segs[1..][i]) {
        assert OwnsFiles(files, segs[i + 1]) && NoSharedFile(segs[0], segs[i + 1]);
      }
      DeletePrefixExact(rest, segs[1..], k - 1);
      assert segs[1..][..k - 1] == segs[..k][1..];
      assert rest - AllFileNames(segs[..k][1..]) == files - AllFileNames(segs[..k]);
    }
  }

  lemma {:induction false} AllFileNamesAre(segs: seq<Segment>, f: FileName)
    ensures f in AllFileNames(segs) <==> exists i :: 0 <= i < |segs| && f in FileNames(segs[i])
  {
    if segs != [] {
      AllFileNamesAre(segs[1..], f);
      if f in AllFileNames(segs[1..]) {
        var i :| 0 <= i < |segs[1..]| && f in FileNames(segs[1..][i]);
        assert f in FileNames(segs[i + 1]);
      }
      if i :| 0 <= i < |segs| && f in FileNames(segs[i]) {
        assert i > 0 ==> f in FileNames(segs[1..][i - 1]);
      }
    }
  }

  /** Cleaning keeps the shortest suffix over the budget and deletes exactly the other segments' files. */
  lemma CleanExact(files: FileMap, segs: seq<Segment>, retention: nat)
    requires FilesPresent(files, segs)
    ensures exists k: nat ::
              && IsCut(segs, retention, k)
              && Clean(files, segs, retention) == (files - AllFileNames(segs[..k]), segs[k..], true)
    ensures var (files', segs', _) := Clean(files, segs, retention);
            Clean(files', segs', retention) == (files', segs', true)
  {
    var k := KeepFrom(segs, retention);
    CutUnique(segs, retention, k);
    DeletePrefixExact(files, segs, k);
  }

  /** No two segments share a file, and no segment has one name for both. */
  ghost predicate Apart(segs: seq<Segment>) {
    && (forall i :: 0 <= i < |segs| ==> segs[i].logName != segs[i].indexName)
    && forall i, j :: 0 <= i < j < |segs| ==> NoSharedFile(segs[i], segs[j])
  }

  /** The segments before `j` have both files, and the one at `j` does not, unless `j` is the end of the prefix. */
  ghost predicate StopsAt(files: FileMap, segs: seq<Segment>, k: nat, j: nat)
    requires k <= |segs|
  {
    && j <= k
    && (forall i :: 0 <= i < j ==> FileNames(segs[i]) <= files.Keys)
    && (j < k ==> !(FileNames(segs[j]) <= files.Keys))
  }

  /** Deleting a segment takes both files, or, when one is missing, the log file alone if it is there. */
  lemma DeleteExact(files: FileMap, s: Segment)
    requires s.logName != s.indexName
    ensures s.Delete(files) ==
            if FileNames(s) <= files.Keys then (files - FileNames(s), true) else (files - {s.logName}, false)
  {
    assert FileNames(s) <= files.Keys <==> s.logName in files && s.indexName in files;
    assert s.logName !in files ==> files - {s.logName} == files;
    assert files - {s.logName} - {s.indexName} == files - FileNames(s);
  }

  /**
   * Deletion in any directory: it goes on to the first segment of the prefix that lacks a file,
   * takes that one's log file, too, if it is there, and keeps the rest of the list.
   */
  lemma {:induction false} DeletePrefixStops(files: FileMap, segs: seq<Segment>, k: nat, j: nat)
    requires k <= |segs| && Apart(segs) && StopsAt(files, segs, k, j)
    ensures DeletePrefix(files, segs, k) ==
            if j == k then (files - AllFileNames(segs[..k]), segs[k..], true)
            else (files - AllFileNames(segs[..j]) - {segs[j].logName}, segs[j..], false)
  {
    hide Segment.Delete;
    hide NoSharedFile;
    if k == 0 {
      assert files - {} == files;
    } else {
      DeleteExact(files, segs[0]);
      if j == 0 {
        assert segs[0..] == segs && files - {} - {segs[0].logName} == files - {segs[0].logName};
      } else {
        var rest, tail := files - FileNames(segs[0]), segs[1..];
        StopsLater(files, segs, k, j);
        DeletePrefixStops(rest, tail, k - 1, j - 1);
        assert tail[..j - 1] == segs[..j][1..];
        assert rest - AllFileNames(segs[..j][1..]) == files - AllFileNames(segs[..j]);
      }
    }
  }

  lemma StopsLater(files: FileMap, segs: seq<Segment>, k: nat, j: nat)
    requires 0 < j <= k <= |segs| && Apart(segs) && StopsAt(files, segs, k, j)
    ensures Apart(segs[1..]) && StopsAt(files - FileNames(segs[0]), segs[1..], k - 1, j - 1)
  {
    var rest, tail := files - FileNames(segs[0]), segs[1..];
    forall i | 0 <= i < |tail| ensures FileNames(tail[i]) <= rest.Keys <==> FileNames(tail[i]) <= files.Keys {
      assert NoSharedFile(segs[0], segs[i + 1]);
    }
    assert forall i :: 0 <= i < |tail| ==> tail[i] == segs[i + 1];
  }

  /** Cleaning succeeds exactly when both files of every segment to be dropped are there. */
  lemma CleanFailsIff(files: FileMap, segs: seq<Segment>, retention: nat)
    requires Apart(segs)
    ensures Clean(files, segs, retention).2 <==>
            forall i :: 0 <= i < KeepFrom(segs, retention) ==> FileNames(segs[i]) <= files.Keys
  {
    var k := KeepFrom(segs, retention);
    var j := FirstLacking(files, segs, k);
    DeletePrefixStops(files, segs, k, j);
  }

  ghost function FirstLacking(files: FileMap, segs: seq<Segment>, k: nat): (j: nat)
    requires k <= |segs|
    ensures StopsAt(files, segs, k, j)
  {
    if k == 0 then
      0
    else
      var j := FirstLacking(files, segs, k - 1);
      if j == k - 1 && FileNames(segs[j]) <= files.Keys then k else j
  }
}
