/** The cleaner: a backward scan that chooses what to keep, then deletion from the front. */
module Cleaners {
  import opened Files
  import opened SegmentSpec
  import opened CleanerSpec
  import Segments

  datatype Cleaner = Cleaner(retentionBytes: nat) {

    /** Drop the oldest segments; the list, the files and the answer are those of CleanerSpec.Clean. */
    method Clean(dir: Directory, segments: seq<Segment>) returns (kept: seq<Segment>, ok: bool)
      modifies dir
      ensures (dir.files, kept, ok) == CleanerSpec.Clean(old(dir.files), segments, retentionBytes)
    {
      hide KeepFrom;
      hide Segment.Delete;
      var totalBytes := 0;
      var segmentPosition := |segments|;
      var i := |segments|;
      assert segments[|segments|..] == [];
      while i > 0
        invariant 0 <= i <= |segments| && segmentPosition == i
        invariant totalBytes == Bytes(segments[i..])
        invariant forall j :: i < j <= |segments| ==> Bytes(segments[j..]) <= retentionBytes
      {
        if totalBytes > retentionBytes {
          break;
        }
        i := i - 1;
        assert segments[i..][1..] == segments[i + 1..];
        totalBytes := totalBytes + segments[i].position;
        segmentPosition := segmentPosition - 1;
      }
      CutUnique(segments, retentionBytes, segmentPosition);

      kept := segments;
      ok := true;
      ghost var files0 := dir.files;
      for j := 0 to segmentPosition
        invariant kept == segments[j..] && ok
        invariant DeletePrefix(files0, segments, segmentPosition) ==
                  DeletePrefix(dir.files, kept, segmentPosition - j)
      {
        ok := Segments.Delete(dir, kept[0]);
        if !ok {
          return;
        }
        kept := kept[1..];
      }
    }
  }
}
