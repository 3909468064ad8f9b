/** Opening and reloading any directory: the order of the listing, and exactly what is loaded. */
module AnyDirectory {
  import opened Base
  import opened Names
  import opened Files
  import opened SegmentSpec
  import opened ScanSpec
  import opened LogSpec
  import opened ConsumerSpec
  import opened Recovery

  /** Every pair in the directory is named by five digits, as the program names its segments. */
  ghost predicate Canonical(files: FileMap) {
    forall stem :: IsPair(stem, files) ==> IsFiveDigits(stem)
  }

  ghost predicate Loads(files: FileMap, stem: string) {
    LoadSegment(files, stem).1.Success?
  }

  /** The files of the pair are short enough for their lengths to be counted. */
  ghost predicate Loadable(files: FileMap, stem: string)
    requires IsPair(stem, files)
  {
    |files[FileName(stem, LogExt)]| < TWO_32 && |files[FileName(stem, IndexExt)]| / 8 < TWO_16
  }

  /** Loading a canonical pair changes no file. */
  lemma LoadPair(files: FileMap, stem: string)
    requires Canonical(files) && IsPair(stem, files)
    ensures LoadSegment(files, stem).0 == files
    ensures ParseU16(stem) == Some(DigitsValue(stem)) && Stem(DigitsValue(stem)) == stem
    ensures Loads(files, stem) <==> Loadable(files, stem)
    ensures Loads(files, stem) ==> LoadSegment(files, stem).1.value.start == DigitsValue(stem)
  {
    hide LoadSegment;
    LoadFiveDigits(files, stem);
    LoadAnswers(files, stem);
  }

  /** Loading canonical pairs: all are loaded, each from the unchanged directory, or one fails. */
  lemma {:induction false} LoadPairs(files: FileMap, stems: seq<string>)
    requires Canonical(files) && forall s <- stems :: IsPair(s, files)
    ensures LoadAll(files, stems).0 == files
    ensures LoadAll(files, stems).1.Success? <==> forall s <- stems :: Loads(files, s)
    ensures LoadAll(files, stems).1.Success? ==>
              |LoadAll(files, stems).1.value| == |stems|
              && forall j :: 0 <= j < |stems| ==>
                   Loads(files, stems[j]) && LoadAll(files, stems).1.value[j] == LoadSegment(files, stems[j]).1.value
    decreases |stems|
  {
    hide LoadSegment;
    hide Canonical;
    hide IsPair;
    if stems != [] {
      assert stems[0] in stems;
      assert forall s :: s in stems <==> s == stems[0] || s in stems[1..];
      LoadPair(files, stems[0]);
      LoadPairs(files, stems[1..]);
    }
  }

  lemma StartsDiffer(files: FileMap, stems: seq<string>)
    requires Canonical(files) && (forall s <- stems :: IsPair(s, files)) && Distinct(stems)
    requires LoadAll(files, stems).1.Success?
    ensures var loaded := LoadAll(files, stems).1.value;
            forall i, j :: 0 <= i < j < |loaded| ==> loaded[i].start != loaded[j].start
  {
    hide LoadAll;
    hide LoadSegment;
    hide Canonical;
    hide IsPair;
    LoadPairs(files, stems);
    var loaded := LoadAll(files, stems).1.value;
    forall i, j | 0 <= i < j < |loaded| ensures loaded[i].start != loaded[j].start {
      LoadPair(files, stems[i]);
      LoadPair(files, stems[j]);
    }
  }

  /** The same pairs in two orders load to the same sorted list, or fail together. */
  lemma LoadOrderIrrelevant(files: FileMap, a: seq<string>, b: seq<string>)
    requires Canonical(files) && Distinct(a) && Distinct(b)
    requires forall s :: s in a <==> s in b
    requires forall s <- a :: IsPair(s, files)
    ensures LoadAll(files, a).0 == LoadAll(files, b).0 == files
    ensures LoadAll(files, a).1.Success? <==> LoadAll(files, b).1.Success?
    ensures LoadAll(files, a).1.Success? ==> Sort(LoadAll(files, a).1.value) == Sort(LoadAll(files, b).1.value)
  {
    hide LoadAll;
    hide LoadSegment;
    hide Sort;
    LoadPairs(files, a);
    LoadPairs(files, b);
    if LoadAll(files, a).1.Success? {
      var x, y := LoadAll(files, a).1.value, LoadAll(files, b).1.value;
      StartsDiffer(files, a);
      StartsDiffer(files, b);
      SortIncreasing(x);
      SortIncreasing(y);
      SameLoaded(files, a, b);
      SameLoaded(files, b, a);
      IncreasingUnique(Sort(x), Sort(y));
    }
  }

  lemma SameLoaded(files: FileMap, a: seq<string>, b: seq<string>)
    requires Canonical(files) && forall s <- a :: s in b && IsPair(s, files)
    requires forall s <- b :: IsPair(s, files)
    requires LoadAll(files, a).1.Success? && LoadAll(files, b).1.Success?
    ensures forall t <- LoadAll(files, a).1.value :: t in LoadAll(files, b).1.value
  {
    hide LoadAll;
    hide LoadSegment;
    hide Canonical;
    hide IsPair;
    LoadPairs(files, a);
    LoadPairs(files, b);
    forall t | t in LoadAll(files, a).1.value ensures t in LoadAll(files, b).1.value {
      var i :| 0 <= i < |a| && LoadAll(files, a).1.value[i] == t;
      assert a[i] in b;
      var j :| 0 <= j < |b| && b[j] == a[i];
      assert LoadAll(files, b).1.value[j] == t;
    }
  }

  /**
   * Opening a directory does not depend on the order in which it is listed: for every directory
   * of canonically named pairs, with whatever contents and whatever stray files, the result is
   * the same. A commitlog with at least one segment has then lost exactly the unpaired files,
   * and one without any has removed nothing.
   */
  lemma OpenOrderIrrelevant(files: FileMap, l1: seq<FileName>, l2: seq<FileName>,
                            maxSize: nat, retention: nat)
    requires Canonical(files) && IsListing(l1, files) && IsListing(l2, files)
    ensures Open(files, l1, maxSize, retention) == Open(files, l2, maxSize, retention)
    ensures var r := Open(files, l1, maxSize, retention);
            r.Success? ==>
              r.value.files ==
              if r.value.segments == [] then files
              else map f | f in files && !(IsSegmentFile(f) && !IsPair(f.stem, files)) :: files[f]
  {
    hide LoadAll;
    hide Sort;
    hide LoadVSeg;
    hide Orphans;
    hide LoadStems;
    ScansAgree(l1, l1, files);
    ScansAgree(l2, l2, files);
    LoadOrderIrrelevant(files, LoadStems(l1, files), LoadStems(l2, files));
    assert RemoveAll(files, Orphans(l1, files)) == RemoveAll(files, Orphans(l2, files));
  }

  /** The segment that the pair with this stem loads to. */
  ghost predicate IsFrom(files: FileMap, stem: string, s: Segment) {
    IsPair(stem, files) && LoadSegment(files, stem).1 == Success(s)
  }

  /** Loading the pairs of a listing gives exactly what the pairs load to, unless one of them cannot be loaded. */
  lemma LoadedAre(files: FileMap, stems: seq<string>)
    requires Canonical(files) && Distinct(stems) && forall s <- stems :: IsPair(s, files)
    ensures var (files', r) := LoadAll(files, stems);
            && files' == files
            && (r.Success? <==> forall s <- stems :: Loadable(files, s))
            && (r.Success? ==>
                  && (forall t :: t in r.value <==> exists s <- stems :: IsFrom(files, s, t))
                  && forall i, j :: 0 <= i < j < |r.value| ==> r.value[i].start != r.value[j].start)
  {
    hide LoadAll;
    hide LoadSegment;
    hide Canonical;
    hide IsPair;
    hide Loadable;
    LoadPairs(files, stems);
    forall s | s in stems ensures Loads(files, s) <==> Loadable(files, s) {
      LoadPair(files, s);
    }
    var r := LoadAll(files, stems).1;
    if r.Success? {
      StartsDiffer(files, stems);
      forall t ensures t in r.value <==> exists s <- stems :: IsFrom(files, s, t) {
        if t in r.value {
          var i :| 0 <= i < |r.value| && r.value[i] == t;
          assert IsFrom(files, stems[i], t);
        }
        if s :| s in stems && IsFrom(files, s, t) {
          var i :| 0 <= i < |stems| && stems[i] == s;
          assert r.value[i] == t;
        }
      }
    }
  }

  /**
   * Opening any directory of canonically named pairs, in whatever order it is listed: it fails
   * exactly when some pair is too long to be loaded, and never panics; otherwise the segments are
   * what the pairs load to, in increasing order, and with two or more of them the last one is in
   * memory, too.
   */
  lemma OpenExact(files: FileMap, listing: seq<FileName>, maxSize: nat, retention: nat)
    requires Canonical(files) && IsListing(listing, files)
    ensures var r := Open(files, listing, maxSize, retention);
            && (r.Failure? ==> r.error == UnableToLoad)
            && (r.Success? <==> forall stem :: IsPair(stem, files) ==> Loadable(files, stem))
            && (r.Success? ==>
                  var segs := r.value.segments;
                  && Increasing(segs)
                  && (forall t :: t in segs <==> exists stem :: IsFrom(files, stem, t))
                  && r.value.maxSize == maxSize && r.value.retention == retention
                  && if |segs| > 1
                     then LoadVSeg(files, segs[|segs| - 1].start, maxSize) == Success(r.value.cur)
                     else r.value.cur == NewVSeg(maxSize, 0))
  {
    hide LoadAll;
    hide LoadSegment;
    hide LoadVSeg;
    hide LoadStems;
    hide Orphans;
    hide Sort;
    hide Canonical;
    hide IsPair;
    hide Loadable;
    var stems := LoadStems(listing, files);
    ScansAgree(listing, listing, files);
    LoadedAre(files, stems);
    var r := LoadAll(files, stems).1;
    if r.Success? {
      SortIncreasing(r.value);
      var segs := Sort(r.value);
      if |segs| > 1 {
        assert segs[|segs| - 1] in segs;
        LastLoadsAgain(files, segs[|segs| - 1], maxSize);
      }
    }
  }

  /** A segment loaded from disk can also be loaded into memory. */
  lemma LastLoadsAgain(files: FileMap, s: Segment, maxSize: nat)
    requires Canonical(files) && exists stem :: IsFrom(files, stem, s)
    ensures LoadVSeg(files, s.start, maxSize).Success?
  {
    hide LoadSegment;
    hide LoadVSeg;
    var stem :| IsFrom(files, stem, s);
    LoadPair(files, stem);
    LoadersAgree(files, s.start, maxSize);
  }

  lemma {:induction false} NewStemsAre(stems: seq<string>, segs: seq<Segment>)
    requires Distinct(stems) && forall s <- stems :: ParseU16(s).Some?
    ensures Distinct(NewStems(stems, segs))
    ensures forall s :: s in NewStems(stems, segs) <==> s in stems && !IsLoaded(segs, ParseU16(s).value)
  {
    hide ParseU16;
    hide IsLoaded;
    if stems != [] {
      var rest := stems[1..];
      assert stems == [stems[0]] + rest;
      assert forall s :: s in stems <==> s == stems[0] || s in rest;
      NewStemsAre(rest, segs);
    }
  }

  /** The number that five digits denote. */
  function StemValue(stem: string): u16 {
    if IsFiveDigits(stem) then DigitsValue(stem) else 0
  }

  lemma PairValue(files: FileMap, stem: string)
    requires Canonical(files) && IsPair(stem, files)
    ensures ParseU16(stem) == Some(StemValue(stem))
    ensures forall t :: IsFrom(files, stem, t) ==> t.start == StemValue(stem)
  {
    hide LoadSegment;
    hide ParseU16;
    LoadPair(files, stem);
  }

  /** A pair in the directory that no loaded segment starts at. */
  ghost predicate Unloaded(log: Log, stem: string) {
    IsPair(stem, log.files) && !IsLoaded(log.segments, StemValue(stem))
  }

  lemma ReloadedStems(log: Log, listing: seq<FileName>)
    requires Canonical(log.files) && IsListing(listing, log.files)
    ensures forall s <- ReloadStems(listing) :: ParseU16(s).Some?
    ensures var stems := NewStems(ReloadStems(listing), log.segments);
            Distinct(stems) && forall s :: s in stems <==> Unloaded(log, s)
  {
    hide LoadSegment;
    hide ReloadStems;
    hide NewStems;
    hide IsLoaded;
    hide Canonical;
    hide IsPair;
    hide ParseU16;
    hide StemValue;
    ScansAgree(listing, listing, log.files);
    forall stem | IsPair(stem, log.files) ensures ParseU16(stem) == Some(StemValue(stem)) {
      PairValue(log.files, stem);
    }
    NewStemsAre(ReloadStems(listing), log.segments);
  }

  /**
   * Reloading, on any log whose directory holds canonically named pairs: it panics exactly when a
   * pair that no loaded segment starts at is too long to be loaded. Otherwise the segments already
   * loaded stay as they are, in front of what exactly those other pairs load to, and nothing else
   * of the log or the directory changes.
   */
  lemma ReloadExact(log: Log, listing: seq<FileName>)
    requires Canonical(log.files) && IsListing(listing, log.files)
    ensures var r := Reload(log, listing);
            && (r.Failure? ==> r.error == Panicked)
            && (r.Success? <==> forall stem :: Unloaded(log, stem) ==> Loadable(log.files, stem))
            && (r.Success? ==>
                  && log.segments <= r.value.segments
                  && r.value == log.(segments := r.value.segments)
                  && forall t :: t in r.value.segments[|log.segments|..] <==>
                       exists stem :: Unloaded(log, stem) && IsFrom(log.files, stem, t))
  {
    hide LoadAll;
    hide LoadSegment;
    hide ReloadStems;
    hide NewStems;
    hide IsLoaded;
    hide Canonical;
    hide IsPair;
    hide Loadable;
    hide IsListing;
    hide ParseU16;
    hide IsFrom;
    hide StemValue;
    ReloadedStems(log, listing);
    var stems := NewStems(ReloadStems(listing), log.segments);
    forall s | s in stems ensures IsPair(s, log.files) {
      assert Unloaded(log, s);
    }
    LoadedAre(log.files, stems);
    var r := Reload(log, listing);
    if r.Success? {
      var added := LoadAll(log.files, stems).1.value;
      assert r.value.segments == log.segments + added;
      assert r.value.segments[|log.segments|..] == added;
    }
  }

  /**
   * Loading stems one after another, on any directory: the last stem is loaded from the directory
   * that the others left, and nothing is loaded after a failure.
   */
  lemma {:induction false} LoadAllSnoc(files: FileMap, stems: seq<string>, last: string)
    ensures LoadAll(files, []) == (files, Success([]))
    ensures var (files', r) := LoadAll(files, stems);
            var (files'', s) := LoadSegment(files', last);
            LoadAll(files, stems + [last]) ==
            if r.Failure? then (files', r)
            else (files'', if s.Failure? then Failure(s.error) else Success(r.value + [s.value]))
    decreases |stems|
  {
    hide LoadSegment;
    if stems == [] {
      var (f, s) := LoadSegment(files, last);
      assert stems + [last] == [last] && [last][1..] == [] && LoadAll(f, []) == (f, Success([]));
      assert s.Success? ==> [s.value] + [] == [s.value] == [] + [s.value];
    } else {
      var all := stems + [last];
      assert all[0] == stems[0] && all[1..] == stems[1..] + [last];
      var (f1, r1) := LoadSegment(files, stems[0]);
      LoadAllSnoc(f1, stems[1..], last);
      var (f2, r2) := LoadAll(f1, stems[1..]);
      var (f3, s) := LoadSegment(f2, last);
      assert r1.Success? && r2.Success? && s.Success? ==>
          [r1.value] + (r2.value + [s.value]) == [r1.value] + r2.value + [s.value];
    }
  }

  lemma {:induction false} BadStemFails(files: FileMap, stems: seq<string>)
    requires exists s <- stems :: ParseU16(s).None?
    ensures LoadAll(files, stems).1.Failure?
    decreases |stems|
  {
    hide LoadSegment;
    hide ParseU16;
    LoadKeepsFiles(files, stems[0]);
    if ParseU16(stems[0]).Some? {
      var s :| s in stems && ParseU16(s).None?;
      assert s in stems[1..];
      BadStemFails(LoadSegment(files, stems[0]).0, stems[1..]);
    }
  }

  /**
   * A pair of files whose stem is no 16-bit number keeps any directory from being opened, and
   * makes every reload and every poll panic.
   */
  lemma UnparsablePair(log: Log, listing: seq<FileName>, stem: string, maxSize: nat, retention: nat,
                       offset: u32, timeoutMillis: nat, clock: Clock)
    requires IsListing(listing, log.files) && IsPair(stem, log.files) && ParseU16(stem).None?
    ensures Open(log.files, listing, maxSize, retention) == Failure(UnableToLoad)
    ensures Reload(log, listing) == Failure(Panicked)
    ensures Poll(log, offset, timeoutMillis, clock) == (log, offset, Failure(PollPanicked))
  {
    hide LoadAll;
    hide LoadStems;
    hide ReloadStems;
    hide ParseU16;
    var some := SomeListing(log.files);
    ScansAgree(listing, listing, log.files);
    ScansAgree(some, some, log.files);
    BadStemFails(log.files, LoadStems(listing, log.files));
  }
}
