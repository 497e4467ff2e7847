/**
  The second half of the year selection in `process_chat`: the files of the
  export folder are bucketed by the year in their names, and the years to
  process are the sorted union of the chat years and the media years.
*/
module MediaBuckets {
  import opened PythonText
  import opened YearParsing

  /** The names in the export folder that are never treated as media. */
  const NonMedia: set<string> := {"_chat.txt", "files.txt", "output.txt"}

  /** The year a file is filed under: none for the excluded names, for
      names without a four-digit third field, and for the year 0, which
      `if year:` treats as no year. */
  function MediaYear(file: string): Option<nat> {
    if file in NonMedia then None
    else
      match ExtractYearFromFilename(file)
      case Some(y) => if y != 0 then Some(y) else None
      case None => None
  }

  /** The files of year `y`, in folder-listing order. */
  function MediaOfYear(files: seq<string>, y: nat): seq<string> {
    if files == [] then []
    else
      var last := files[|files| - 1];
      MediaOfYear(files[..|files| - 1], y) + (if MediaYear(last) == Some(y) then [last] else [])
  }

  /** The years some file is filed under. */
  function MediaYears(files: seq<string>): set<nat> {
    if files == [] then {}
    else
      var last := files[|files| - 1];
      MediaYears(files[..|files| - 1]) + (if MediaYear(last).Some? then {MediaYear(last).value} else {})
  }

  /** `media_by_year` as it should be after the loop: one bucket per media
      year, holding that year's files. */
  function Buckets(files: seq<string>): map<nat, seq<string>> {
    map y | y in MediaYears(files) :: MediaOfYear(files, y)
  }

  lemma {:induction false} NoMediaOutsideMediaYears(files: seq<string>, y: nat)
    requires y !in MediaYears(files)
    ensures MediaOfYear(files, y) == []
    decreases |files|
  {
    if files != [] {
      NoMediaOutsideMediaYears(files[..|files| - 1], y);
    }
  }

  /** How the buckets grow by one file: it is appended to the bucket of its
      year, which is created if needed, or it is skipped. */
  lemma BucketsSnoc(files: seq<string>)
    requires files != []
    ensures var init, last := files[..|files| - 1], files[|files| - 1];
      Buckets(files) ==
        match MediaYear(last)
        case None => Buckets(init)
        case Some(y) => Buckets(init)[y := GetOrEmpty(Buckets(init), y) + [last]]
  {
    var init, last := files[..|files| - 1], files[|files| - 1];
    var m, m' := Buckets(init), Buckets(files);
    match MediaYear(last)
    case None =>
      assert MediaYears(files) == MediaYears(init);
      forall y | y in MediaYears(files) ensures MediaOfYear(files, y) == MediaOfYear(init, y) {
      }
    case Some(y) =>
      if y !in MediaYears(init) { NoMediaOutsideMediaYears(init, y); }
      assert MediaYears(files) == MediaYears(init) + {y};
      var n := m[y := GetOrEmpty(m, y) + [last]];
      forall y' | y' in MediaYears(files) ensures n[y'] == m'[y'] {
        assert MediaOfYear(files, y') == MediaOfYear(init, y') + (if y == y' then [last] else []);
      }
      assert n == m';
  }

  /** The media loop of `process_chat`: every file that is not excluded and
      has a non-zero year in its name is appended to the list of that year. */
  method BucketMedia(allFiles: seq<string>) returns (mediaByYear: map<nat, seq<string>>)
    ensures mediaByYear == Buckets(allFiles)
  {
    mediaByYear := map[];
    var i := 0;
    while i < |allFiles|
      invariant 0 <= i <= |allFiles|
      invariant mediaByYear == Buckets(allFiles[..i])
    {
      var file := allFiles[i];
      assert allFiles[..i + 1][..i] == allFiles[..i];
      BucketsSnoc(allFiles[..i + 1]);
      if file !in NonMedia {
        var year := ExtractYearFromFilename(file);
        if year.Some? && year.value != 0 {
          mediaByYear := mediaByYear[year.value := GetOrEmpty(mediaByYear, year.value) + [file]];
        }
      }
      i := i + 1;
    }
    assert allFiles[..i] == allFiles;
  }

  // ---------------------------------------------------------------------
  // Properties of the buckets

  /** Looking a year up in the buckets gives that year's files, or none. */
  lemma BucketOfBuckets(files: seq<string>, y: nat)
    ensures GetOrEmpty(Buckets(files), y) == MediaOfYear(files, y)
  {
    if y !in MediaYears(files) {
      NoMediaOutsideMediaYears(files, y);
    }
  }

  /** A file is in the bucket of `y` exactly when it is listed, is not one
      of the excluded names, and its name carries the non-zero year `y`. */
  lemma {:induction false} InBucketIff(files: seq<string>, f: string, y: nat)
    ensures f in MediaOfYear(files, y) <==>
      f in files && f !in NonMedia && y != 0 && ExtractYearFromFilename(f) == Some(y)
    decreases |files|
  {
    if files != [] {
      var init := files[..|files| - 1];
      InBucketIff(init, f, y);
      assert files == init + [files[|files| - 1]];
    }
  }

  /** A year has a bucket exactly when some listed file is filed under it. */
  lemma {:induction false} MediaYearsIff(files: seq<string>, y: nat)
    ensures y in MediaYears(files) <==> exists j :: 0 <= j < |files| && MediaYear(files[j]) == Some(y)
    decreases |files|
  {
    if files != [] {
      var init := files[..|files| - 1];
      MediaYearsIff(init, y);
      if exists j :: 0 <= j < |files| && MediaYear(files[j]) == Some(y) {
        var j :| 0 <= j < |files| && MediaYear(files[j]) == Some(y);
        if j < |init| { assert init[j] == files[j]; }
      }
      if exists j :: 0 <= j < |init| && MediaYear(init[j]) == Some(y) {
        var j :| 0 <= j < |init| && MediaYear(init[j]) == Some(y);
        assert files[j] == init[j];
      }
    }
  }

  /** No file is in two buckets. */
  lemma OneBucketPerFile(files: seq<string>, f: string, y1: nat, y2: nat)
    requires f in MediaOfYear(files, y1) && f in MediaOfYear(files, y2)
    ensures y1 == y2
  {
    InBucketIff(files, f, y1);
    InBucketIff(files, f, y2);
  }

  /** Every bucket holds at least one file. */
  lemma {:induction false} BucketsNonEmpty(files: seq<string>, y: nat)
    requires y in MediaYears(files)
    ensures MediaOfYear(files, y) != []
    decreases |files|
  {
    var init := files[..|files| - 1];
    if y in MediaYears(init) {
      BucketsNonEmpty(init, y);
    }
  }

  /** The excluded names carry no year in any case: none has a `-`. */
  lemma NonMediaHaveNoYear(name: string)
    requires name in NonMedia
    ensures ExtractYearFromFilename(name) == None
  {
    assert NoneIn(name, {'-'});
    SplitWithoutSeparator(name, {'-'});
  }

  // ---------------------------------------------------------------------
  // The years to process

  /** Descending from any member of `s` reaches its least member. */
  lemma MinBelow(s: set<nat>, x: nat)
    requires x in s
    ensures exists m :: m in s && forall z :: z in s ==> m <= z
    decreases x
  {
    if !(forall z :: z in s ==> x <= z) {
      var z :| z in s && z < x;
      MinBelow(s, z);
    }
  }

  /** The least year of a non-empty set. */
  function Least(s: set<nat>): (m: nat)
    requires s != {}
    ensures m in s && forall z :: z in s ==> m <= z
  {
    var x :| x in s;
    MinBelow(s, x);
    var m :| m in s && forall z :: z in s ==> m <= z;
    m
  }

  predicate Ascending(r: seq<nat>) {
    forall i, j :: 0 <= i < j < |r| ==> r[i] < r[j]
  }

  lemma ConsAscending(m: nat, rest: seq<nat>)
    requires Ascending(rest) && forall x :: x in rest ==> m < x
    ensures Ascending([m] + rest)
  {
    forall i, j | 0 <= i < j < |[m] + rest| ensures ([m] + rest)[i] < ([m] + rest)[j] {
      assert ([m] + rest)[j] == rest[j - 1];
      if i > 0 {
        assert ([m] + rest)[i] == rest[i - 1];
      } else {
        assert rest[j - 1] in rest;
      }
    }
  }

  /** `sorted(s)` for a set of years: ascending, no duplicates, the same
      elements. */
  function SortedYears(s: set<nat>): (r: seq<nat>)
    ensures |r| == |s|
    ensures forall x :: x in r <==> x in s
    ensures Ascending(r)
    decreases |s|
  {
    if s == {} then []
    else
      var m := Least(s);
      var rest := SortedYears(s - {m});
      ConsAscending(m, rest);
      [m] + rest
  }

  /** Line 93: the chat years and the media years, merged and sorted. */
  function YearsToProcess(chatYears: set<nat>, mediaYears: set<nat>): (r: seq<nat>)
    ensures forall y :: y in r <==> y in chatYears || y in mediaYears
    ensures Ascending(r)
  {
    SortedYears(chatYears + mediaYears)
  }
}
