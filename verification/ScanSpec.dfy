/** The two directory scans: pairing log and index files by stem, at start-up and when reloading. */
module ScanSpec {
  import opened Names
  import opened Files

  predicate IsSegmentFile(f: FileName) {
    f.ext == LogExt || f.ext == IndexExt
  }

  /** Reloading: a stem is valid when it is met for the second time. */
  function ReloadStems(listing: seq<FileName>): seq<string> {
    if listing == [] then
      []
    else
      var before, f := listing[..|listing| - 1], listing[|listing| - 1];
      ReloadStems(before)
      + (if IsSegmentFile(f) && SeenStem(before, f.stem) then [f.stem] else [])
  }

  predicate SeenStem(listing: seq<FileName>, stem: string) {
    exists f <- listing :: IsSegmentFile(f) && f.stem == stem
  }

  /** Start-up: a stem is valid when its index file has a log file beside it. */
  function LoadStems(listing: seq<FileName>, files: FileMap): seq<string> {
    if listing == [] then
      []
    else
      var before, f := listing[..|listing| - 1], listing[|listing| - 1];
      LoadStems(before, files)
      + (if f.ext == IndexExt && FileName(f.stem, LogExt) in files then [f.stem] else [])
  }

  /** Start-up: the halves without a partner, to be removed. */
  function Orphans(listing: seq<FileName>, files: FileMap): seq<FileName> {
    if listing == [] then
      []
    else
      var before, f := listing[..|listing| - 1], listing[|listing| - 1];
      Orphans(before, files) + (if IsOrphan(f, files) then [f] else [])
  }

  predicate IsOrphan(f: FileName, files: FileMap) {
    || (f.ext == LogExt && FileName(f.stem, IndexExt) !in files)
    || (f.ext == IndexExt && FileName(f.stem, LogExt) !in files)
  }

  /** Both files of a segment with this stem are in the directory. */
  ghost predicate IsPair(stem: string, files: FileMap) {
    FileName(stem, LogExt) in files && FileName(stem, IndexExt) in files
  }

  lemma DistinctInit(l: seq<FileName>)
    requires Distinct(l) && l != []
    ensures Distinct(l[..|l| - 1])
    ensures l[|l| - 1] !in l[..|l| - 1]
    ensures forall f :: f in l <==> f in l[..|l| - 1] || f == l[|l| - 1]
  {
    var b := l[..|l| - 1];
    assert l == b + [l[|l| - 1]];
  }

  /** The scans met without duplicates, and by what is in the listing. */
  lemma {:induction false} ReloadStemsAre(listing: seq<FileName>, stem: string)
    requires Distinct(listing)
    ensures stem in ReloadStems(listing) <==>
            FileName(stem, LogExt) in listing && FileName(stem, IndexExt) in listing
    ensures Distinct(ReloadStems(listing))
  {
    if listing != [] {
      var b, f := listing[..|listing| - 1], listing[|listing| - 1];
      DistinctInit(listing);
      ReloadStemsAre(b, stem);
      ReloadStemsAre(b, f.stem);
    }
  }

  lemma {:induction false} LoadStemsAre(listing: seq<FileName>, files: FileMap, stem: string)
    requires Distinct(listing)
    ensures stem in LoadStems(listing, files) <==>
            FileName(stem, IndexExt) in listing && FileName(stem, LogExt) in files
    ensures Distinct(LoadStems(listing, files))
  {
    if listing != [] {
      var b, f := listing[..|listing| - 1], listing[|listing| - 1];
      DistinctInit(listing);
      LoadStemsAre(b, files, stem);
      LoadStemsAre(b, files, f.stem);
    }
  }

  lemma {:induction false} OrphansAre(listing: seq<FileName>, files: FileMap, f: FileName)
    requires Distinct(listing)
    ensures f in Orphans(listing, files) <==> f in listing && IsOrphan(f, files)
    ensures Distinct(Orphans(listing, files))
  {
    if listing != [] {
      DistinctInit(listing);
      OrphansAre(listing[..|listing| - 1], files, f);
      OrphansAre(listing[..|listing| - 1], files, listing[|listing| - 1]);
    }
  }

  /**
   * The two scans agree: in whatever orders the directory is listed, both find exactly the stems
   * that have both files, each once; and the orphans are exactly the other segment files.
   */
  lemma ScansAgree(l1: seq<FileName>, l2: seq<FileName>, files: FileMap)
    requires IsListing(l1, files) && IsListing(l2, files)
    ensures forall stem :: stem in ReloadStems(l1) <==> IsPair(stem, files)
    ensures forall stem :: stem in LoadStems(l2, files) <==> IsPair(stem, files)
    ensures Distinct(ReloadStems(l1)) && Distinct(LoadStems(l2, files))
    ensures forall f :: f in Orphans(l2, files) <==>
              f in files && IsSegmentFile(f) && !IsPair(f.stem, files)
  {
    ReloadStemsAre(l1, "");
    LoadStemsAre(l2, files, "");
    forall stem
      ensures stem in ReloadStems(l1) <==> IsPair(stem, files)
      ensures stem in LoadStems(l2, files) <==> IsPair(stem, files)
    {
      ReloadStemsAre(l1, stem);
      LoadStemsAre(l2, files, stem);
    }
    forall f: FileName
      ensures f in Orphans(l2, files) <==> f in files && IsSegmentFile(f) && !IsPair(f.stem, files)
    {
      OrphansAre(l2, files, f);
      assert f == FileName(f.stem, f.ext);
    }
  }
}
