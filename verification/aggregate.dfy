/**
  `visualize_defects` (vusial_map.py) once the CSV is parsed: rows are sorted by
  time, grouped by photo filename, re-sorted by time, turned into a route and,
  for every group whose photo exists, a map marker.

  Timestamps are integer milliseconds, coordinates integer micro-degrees; a missing
  coordinate (an empty CSV field, NaN once parsed) is `None`.
 */
module Aggregate {
  import opened Wrappers
  import opened Strings
  import opened Sorting
  import opened Paths

  /** One parsed CSV row (the confidence column is read but never used, so it is not kept). */
  datatype Record = Record(timestamp: int, className: string, filename: string,
                           lat: Option<int>, lon: Option<int>)

  /** One row of the grouped frame: a photo and what was found on it. */
  datatype FrameGroup = FrameGroup(filename: string, timestamp: int,
                                   lat: Option<int>, lon: Option<int>, defects: string)

  /** A map marker: its position and the popup's frame label, time, defects and image subtype. */
  datatype Marker = Marker(lat: Option<int>, lon: Option<int>, frame: string,
                           timestamp: int, defects: string, imageType: string)

  /** What the map shows: the route polyline, the markers, and a warning per missing photo. */
  datatype Report = Report(route: seq<(Option<int>, Option<int>)>, markers: seq<Marker>, warnings: seq<string>)

  function RecordTime(r: Record): int { r.timestamp }

  function GroupTime(g: FrameGroup): int { g.timestamp }

  /** The distinct filenames of the input. */
  ghost function FileSet(records: seq<Record>): set<string> {
    set r | r in records :: r.filename
  }

  /** The distinct class names logged for filename `f`. */
  ghost function ClassSet(records: seq<Record>, f: string): set<string> {
    set r | r in records && r.filename == f :: r.className
  }

  /** `rs` is an order `df.sort_values('timestamp')` may produce from `records`. */
  ghost predicate TimeSorted(rs: seq<Record>, records: seq<Record>) {
    SortedBy(rs, RecordTime) && multiset(rs) == multiset(records)
  }

  // ---------------------------------------------------------------------------
  // groupby('filename')

  /** The filename column. */
  function Filenames(rs: seq<Record>): (fs: seq<string>)
    ensures |fs| == |rs| && forall i :: 0 <= i < |rs| ==> fs[i] == rs[i].filename
  {
    seq(|rs|, i requires 0 <= i < |rs| => rs[i].filename)
  }

  /** The rows of one group, in input order. */
  function RowsOf(rs: seq<Record>, f: string): (sub: seq<Record>)
    ensures forall i :: 0 <= i < |sub| ==> sub[i].filename == f && sub[i] in rs
    ensures forall i :: 0 <= i < |rs| && rs[i].filename == f ==> rs[i] in sub
  {
    if |rs| == 0 then []
    else if rs[0].filename == f then [rs[0]] + RowsOf(rs[1..], f)
    else RowsOf(rs[1..], f)
  }

  /** Grouping keeps the time order of the rows. */
  lemma {:induction false} RowsOfSorted(rs: seq<Record>, f: string)
    requires SortedBy(rs, RecordTime)
    ensures SortedBy(RowsOf(rs, f), RecordTime)
  {
    if |rs| > 0 {
      RowsOfSorted(rs[1..], f);
      var tail := RowsOf(rs[1..], f);
      forall j | 0 <= j < |tail| ensures RecordTime(rs[0]) <= RecordTime(tail[j]) {
        var i :| 0 <= i < |rs[1..]| && rs[1..][i] == tail[j];
        assert rs[i + 1] == tail[j];
      }
      SortedCons(rs[0], tail, RecordTime);
    }
  }

  /** The position of the first non-missing value, or -1 when all are missing. */
  function FirstPresentIndex(xs: seq<Option<int>>): (i: int)
    ensures -1 <= i < |xs|
    ensures i >= 0 ==> xs[i].Some?
    ensures forall j :: 0 <= j < |xs| && (i < 0 || j < i) ==> xs[j].None?
  {
    if |xs| == 0 then -1
    else if xs[0].Some? then 0
    else
      var i := FirstPresentIndex(xs[1..]);
      assert forall j :: 0 < j < |xs| ==> xs[j] == xs[1..][j - 1];
      if i < 0 then -1 else i + 1
  }

  /** pandas `'first'`: the first non-missing value of the column within the group. */
  function FirstPresent(xs: seq<Option<int>>): (r: Option<int>)
    ensures r.None? <==> forall i :: 0 <= i < |xs| ==> xs[i].None?
    ensures r.Some? ==> exists i :: 0 <= i < |xs| && xs[i] == r && forall j :: 0 <= j < i ==> xs[j].None?
  {
    var i := FirstPresentIndex(xs);
    if i < 0 then None else xs[i]
  }

  function LatOf(r: Record): Option<int> { r.lat }

  function LonOf(r: Record): Option<int> { r.lon }

  /** One coordinate column of some rows. */
  function Column(rs: seq<Record>, col: Record -> Option<int>): (xs: seq<Option<int>>)
    ensures |xs| == |rs| && forall i :: 0 <= i < |rs| ==> xs[i] == col(rs[i])
  {
    seq(|rs|, i requires 0 <= i < |rs| => col(rs[i]))
  }

  function Classes(rs: seq<Record>): (cs: seq<string>)
    ensures |cs| == |rs| && forall i :: 0 <= i < |rs| ==> cs[i] == rs[i].className
  {
    seq(|rs|, i requires 0 <= i < |rs| => rs[i].className)
  }

  /**
    `', '.join(sorted(set(classes)))`: the distinct classes, listed in increasing
    order, joined; any strictly increasing listing of them gives the same string.
   */
  function Defects(classes: seq<string>): (d: string)
    ensures forall ss :: StrictlyIncreasing(ss) && Elems(ss) == Elems(classes) ==> d == Join(ss, ", ")
  {
    forall ss | StrictlyIncreasing(ss) && Elems(ss) == Elems(classes) ensures SortedSet(classes) == ss {
      StrictlyIncreasingUnique(SortedSet(classes), ss);
    }
    Join(SortedSet(classes), ", ")
  }

  /** The aggregate of one filename's rows: `'first'` of lat, lon, timestamp and the joined defects. */
  function MakeGroup(rs: seq<Record>, f: string): FrameGroup
    requires exists i :: 0 <= i < |rs| && rs[i].filename == f
  {
    var sub := RowsOf(rs, f);
    var i :| 0 <= i < |rs| && rs[i].filename == f;
    assert rs[i] in sub;
    FrameGroup(f, sub[0].timestamp, FirstPresent(Column(sub, LatOf)), FirstPresent(Column(sub, LonOf)),
               Defects(Classes(sub)))
  }

  /** The group keys in the order `groupby` emits them: the distinct filenames, sorted. */
  function GroupKeys(rs: seq<Record>): (fs: seq<string>)
    ensures StrictlyIncreasing(fs)
    ensures forall j, k :: 0 <= j < k < |fs| ==> fs[j] != fs[k]
    ensures Elems(fs) == Elems(Filenames(rs))
    ensures forall k :: 0 <= k < |fs| ==> exists i :: 0 <= i < |rs| && rs[i].filename == fs[k]
  {
    var fs := SortedSet(Filenames(rs));
    StrictlyIncreasingDistinct(fs);
    KeysOccur(rs, fs);
    fs
  }

  lemma KeysOccur(rs: seq<Record>, fs: seq<string>)
    requires Elems(fs) == Elems(Filenames(rs))
    ensures forall k :: 0 <= k < |fs| ==> Occurs(rs, fs[k])
  {
    forall k | 0 <= k < |fs| ensures Occurs(rs, fs[k]) {
      assert fs[k] in Elems(fs);
      KeyOccurs(rs, fs[k]);
    }
  }

  /** Some row of `rs` has filename `f`. */
  ghost predicate Occurs(rs: seq<Record>, f: string) {
    exists i :: 0 <= i < |rs| && rs[i].filename == f
  }

  lemma KeyOccurs(rs: seq<Record>, f: string)
    requires f in Elems(Filenames(rs))
    ensures Occurs(rs, f)
  {
    var i :| 0 <= i < |rs| && Filenames(rs)[i] == f;
    assert rs[i].filename == f;
  }

  /** `groupby('filename').agg(...)` over the rows in the order given. */
  function GroupRows(rs: seq<Record>): (gs: seq<FrameGroup>)
    ensures |gs| == |GroupKeys(rs)|
    ensures forall k :: 0 <= k < |gs| ==> gs[k].filename == GroupKeys(rs)[k]
  {
    var fs := GroupKeys(rs);
    seq(|fs|, k requires 0 <= k < |fs| => MakeGroup(rs, fs[k]))
  }

  /**
    Lines 17-31: sort the rows by time, group them by filename, then sort the
    groups by time. Neither sort promises an order among equal timestamps.
   */
  function Aggregate(records: seq<Record>): (gs: seq<FrameGroup>)
    ensures SortedBy(gs, GroupTime)
    ensures multiset(gs) == multiset(GroupRows(SortBy(records, RecordTime)))
  {
    SortBy(GroupRows(SortBy(records, RecordTime)), GroupTime)
  }

  function FileOf(g: FrameGroup): string { g.filename }

  /** Reordering a table keeps it one row per filename of `files`. */
  lemma PermutedShape(grouped: seq<FrameGroup>, gs: seq<FrameGroup>, files: set<string>)
    requires multiset(grouped) == multiset(gs)
    requires |grouped| == |files|
    requires forall j, k :: 0 <= j < k < |grouped| ==> grouped[j].filename != grouped[k].filename
    requires forall f :: f in files <==> exists k :: 0 <= k < |grouped| && grouped[k].filename == f
    ensures |gs| == |files|
    ensures forall j, k :: 0 <= j < k < |gs| ==> gs[j].filename != gs[k].filename
    ensures forall f :: f in files <==> exists k :: 0 <= k < |gs| && gs[k].filename == f
  {
    assert |gs| == |multiset(gs)| == |multiset(grouped)| == |grouped|;
    PermutationKeepsKeysDistinct(grouped, gs, FileOf);
    SameGroups(grouped, gs);
    forall f | f in files ensures exists k :: 0 <= k < |gs| && gs[k].filename == f {
      var k :| 0 <= k < |grouped| && grouped[k].filename == f;
      assert grouped[k] in gs;
    }
    forall f | (exists k :: 0 <= k < |gs| && gs[k].filename == f) ensures f in files {
      var k :| 0 <= k < |gs| && gs[k].filename == f;
      assert gs[k] in grouped;
    }
  }

  /** The aggregated table has one row per distinct filename of the log. */
  lemma AggregateShape(records: seq<Record>)
    ensures |Aggregate(records)| == |FileSet(records)|
    ensures forall j, k :: 0 <= j < k < |Aggregate(records)| ==>
              Aggregate(records)[j].filename != Aggregate(records)[k].filename
    ensures forall f :: f in FileSet(records) <==>
              exists k :: 0 <= k < |Aggregate(records)| && Aggregate(records)[k].filename == f
  {
    var rs := SortBy(records, RecordTime);
    OneGroupPerFile(records, rs);
    PermutedShape(GroupRows(rs), Aggregate(records), FileSet(records));
  }

  /** Each aggregated row is the group `MakeGroup` builds for its filename from the time-sorted log. */
  lemma AggregateGroup(records: seq<Record>, k: nat)
    requires k < |Aggregate(records)|
    ensures exists i :: 0 <= i < |SortBy(records, RecordTime)| &&
              SortBy(records, RecordTime)[i].filename == Aggregate(records)[k].filename
    ensures Aggregate(records)[k] == MakeGroup(SortBy(records, RecordTime), Aggregate(records)[k].filename)
  {
    var rs := SortBy(records, RecordTime);
    var gs := Aggregate(records);
    SameGroups(GroupRows(rs), gs);
    assert gs[k] in gs;
    MemberOfGrouping(rs, gs[k]);
  }

  /** Every group `GroupRows` emits is the one `MakeGroup` builds for its filename. */
  lemma MemberOfGrouping(rs: seq<Record>, g: FrameGroup)
    requires g in GroupRows(rs)
    ensures exists i :: 0 <= i < |rs| && rs[i].filename == g.filename
    ensures g == MakeGroup(rs, g.filename)
  {
    var j :| 0 <= j < |GroupRows(rs)| && GroupRows(rs)[j] == g;
    GroupOf(rs, j);
  }

  lemma SameGroups(a: seq<FrameGroup>, b: seq<FrameGroup>)
    requires multiset(a) == multiset(b)
    ensures forall g :: g in a <==> g in b
  {
    forall g ensures g in a <==> g in b {
      assert g in a <==> g in multiset(a);
      assert g in b <==> g in multiset(b);
    }
  }

  // ---------------------------------------------------------------------------
  // Properties of the grouping, for every order the row sort may produce

  lemma SameMembers(rs: seq<Record>, records: seq<Record>)
    requires multiset(rs) == multiset(records)
    ensures forall r :: r in rs <==> r in records
  {
    forall r ensures r in rs <==> r in records {
      assert r in rs <==> r in multiset(rs);
      assert r in records <==> r in multiset(records);
    }
  }

  /** The filenames grouped on are the filenames of the input. */
  lemma FilesOfGrouping(records: seq<Record>, rs: seq<Record>)
    requires multiset(rs) == multiset(records)
    ensures Elems(GroupKeys(rs)) == FileSet(records)
  {
    var fs := Filenames(rs);
    forall f | f in Elems(fs) ensures f in FileSet(records) {
      var i :| 0 <= i < |fs| && fs[i] == f;
      assert rs[i] in multiset(records);
    }
    forall f | f in FileSet(records) ensures f in Elems(fs) {
      var r :| r in records && r.filename == f;
      assert r in multiset(rs);
      var i :| 0 <= i < |rs| && rs[i] == r;
      assert fs[i] == f;
    }
  }

  /** Exactly one group per distinct filename of the input. */
  lemma OneGroupPerFile(records: seq<Record>, rs: seq<Record>)
    requires multiset(rs) == multiset(records)
    ensures |GroupRows(rs)| == |FileSet(records)|
    ensures forall j, k :: 0 <= j < k < |GroupRows(rs)| ==> GroupRows(rs)[j].filename != GroupRows(rs)[k].filename
    ensures forall f :: f in FileSet(records) <==> exists k :: 0 <= k < |GroupRows(rs)| && GroupRows(rs)[k].filename == f
  {
    var gs := GroupRows(rs);
    var fs := GroupKeys(rs);
    FilesOfGrouping(records, rs);
    DistinctCard(fs);
    forall f | f in FileSet(records) ensures exists k :: 0 <= k < |gs| && gs[k].filename == f {
      var k :| 0 <= k < |fs| && fs[k] == f;
      assert gs[k].filename == f;
    }
  }

  /** The group of `f` in `GroupRows(rs)` is `MakeGroup(rs, f)`. */
  lemma GroupOf(rs: seq<Record>, k: nat)
    requires k < |GroupRows(rs)|
    ensures exists i :: 0 <= i < |rs| && rs[i].filename == GroupKeys(rs)[k]
    ensures GroupRows(rs)[k] == MakeGroup(rs, GroupKeys(rs)[k])
  {
  }

  /** A group's timestamp is the earliest timestamp among its rows. */
  lemma GroupTimeIsEarliest(records: seq<Record>, rs: seq<Record>, f: string)
    requires TimeSorted(rs, records)
    requires exists i :: 0 <= i < |rs| && rs[i].filename == f
    ensures forall r :: r in records && r.filename == f ==> MakeGroup(rs, f).timestamp <= r.timestamp
    ensures exists r :: r in records && r.filename == f && r.timestamp == MakeGroup(rs, f).timestamp
  {
    SameMembers(rs, records);
    var sub := RowsOf(rs, f);
    RowsOfSorted(rs, f);
    forall r | r in records && r.filename == f ensures sub[0].timestamp <= r.timestamp {
      var i :| 0 <= i < |rs| && rs[i] == r;
      assert r in sub;
      var j :| 0 <= j < |sub| && sub[j] == r;
      if j > 0 {
        assert RecordTime(sub[0]) <= RecordTime(sub[j]);
      }
    }
    assert sub[0] in rs;
  }

  /** The rows of a group are the input rows with that filename. */
  lemma RowsOfMembers(records: seq<Record>, rs: seq<Record>, f: string)
    requires multiset(rs) == multiset(records)
    ensures forall r :: r in RowsOf(rs, f) <==> r in records && r.filename == f
  {
    SameMembers(rs, records);
    forall r | r in records && r.filename == f ensures r in RowsOf(rs, f) {
      var i :| 0 <= i < |rs| && rs[i] == r;
    }
  }

  /** In time-sorted rows, the first non-missing value is the earliest one present. */
  lemma FirstInSorted(sub: seq<Record>, col: Record -> Option<int>)
    requires SortedBy(sub, RecordTime)
    ensures FirstPresent(Column(sub, col)).None? <==> forall r :: r in sub ==> col(r).None?
    ensures FirstPresent(Column(sub, col)).Some? ==>
            exists r :: && r in sub && col(r) == FirstPresent(Column(sub, col))
                        && forall q :: q in sub && q.timestamp < r.timestamp ==> col(q).None?
  {
    if FirstPresent(Column(sub, col)).Some? {
      FirstFoundInSorted(sub, col);
    } else {
      NoneFoundInSorted(sub, col);
    }
  }

  lemma FirstFoundInSorted(sub: seq<Record>, col: Record -> Option<int>)
    requires SortedBy(sub, RecordTime)
    requires FirstPresent(Column(sub, col)).Some?
    ensures exists r :: && r in sub && col(r) == FirstPresent(Column(sub, col))
                        && forall q :: q in sub && q.timestamp < r.timestamp ==> col(q).None?
  {
    var xs := Column(sub, col);
    var i :| 0 <= i < |xs| && xs[i] == FirstPresent(xs) && forall j :: 0 <= j < i ==> xs[j].None?;
    forall q | q in sub && q.timestamp < sub[i].timestamp ensures col(q).None? {
      var j :| 0 <= j < |sub| && sub[j] == q;
      assert j < i;
      assert xs[j].None?;
    }
    assert sub[i] in sub;
  }

  lemma NoneFoundInSorted(sub: seq<Record>, col: Record -> Option<int>)
    requires FirstPresent(Column(sub, col)).None?
    ensures forall r :: r in sub ==> col(r).None?
  {
    var xs := Column(sub, col);
    forall r | r in sub ensures col(r).None? {
      var j :| 0 <= j < |sub| && sub[j] == r;
      assert xs[j].None?;
    }
  }

  /**
    `'first'` of a coordinate column is the earliest non-missing value among the
    group's rows (up to rows with equal timestamps, whose order the sort does not
    fix), and missing only when every row of the group misses it.
   */
  lemma FirstIsEarliestPresent(records: seq<Record>, rs: seq<Record>, f: string, col: Record -> Option<int>)
    requires TimeSorted(rs, records)
    ensures FirstPresent(Column(RowsOf(rs, f), col)).None? <==>
            forall r :: r in records && r.filename == f ==> col(r).None?
    ensures FirstPresent(Column(RowsOf(rs, f), col)).Some? ==>
            exists r :: && r in records && r.filename == f && col(r) == FirstPresent(Column(RowsOf(rs, f), col))
                        && forall q :: q in records && q.filename == f && q.timestamp < r.timestamp ==> col(q).None?
  {
    RowsOfMembers(records, rs, f);
    RowsOfSorted(rs, f);
    FirstInSorted(RowsOf(rs, f), col);
  }

  /**
    A group's latitude and longitude are each the earliest non-missing value of
    its rows; `'first'` takes them independently of each other.
   */
  lemma GroupCoordinates(records: seq<Record>, rs: seq<Record>, f: string)
    requires TimeSorted(rs, records)
    requires exists i :: 0 <= i < |rs| && rs[i].filename == f
    ensures MakeGroup(rs, f).lat.None? <==> forall r :: r in records && r.filename == f ==> r.lat.None?
    ensures MakeGroup(rs, f).lat.Some? ==>
            exists r :: && r in records && r.filename == f && r.lat == MakeGroup(rs, f).lat
                        && forall q :: q in records && q.filename == f && q.timestamp < r.timestamp ==> q.lat.None?
    ensures MakeGroup(rs, f).lon.None? <==> forall r :: r in records && r.filename == f ==> r.lon.None?
    ensures MakeGroup(rs, f).lon.Some? ==>
            exists r :: && r in records && r.filename == f && r.lon == MakeGroup(rs, f).lon
                        && forall q :: q in records && q.filename == f && q.timestamp < r.timestamp ==> q.lon.None?
  {
    FirstIsEarliestPresent(records, rs, f, LatOf);
    FirstIsEarliestPresent(records, rs, f, LonOf);
  }

  /**
    A group's defects string is the distinct class names of its rows, sorted and
    joined by ", ": for any strictly increasing listing `ss` of that set.
   */
  lemma GroupDefects(records: seq<Record>, rs: seq<Record>, f: string, ss: seq<string>)
    requires TimeSorted(rs, records)
    requires exists i :: 0 <= i < |rs| && rs[i].filename == f
    requires StrictlyIncreasing(ss) && Elems(ss) == ClassSet(records, f)
    ensures MakeGroup(rs, f).defects == Join(ss, ", ")
  {
    SameMembers(rs, records);
    var sub := RowsOf(rs, f);
    var cs := Classes(sub);
    assert Elems(SortedSet(cs)) == ClassSet(records, f) by {
      forall c ensures c in Elems(cs) <==> c in ClassSet(records, f) {
        if c in Elems(cs) {
          var i :| 0 <= i < |cs| && cs[i] == c;
          assert sub[i] in rs;
        }
        if c in ClassSet(records, f) {
          var r :| r in records && r.filename == f && r.className == c;
          var i :| 0 <= i < |rs| && rs[i] == r;
          assert r in sub;
          var j :| 0 <= j < |sub| && sub[j] == r;
          assert cs[j] == c;
        }
      }
    }
    StrictlyIncreasingUnique(SortedSet(cs), ss);
  }

  /** Row `k` of the aggregated table carries the earliest timestamp of its photo's detections. */
  lemma AggregateRowTime(records: seq<Record>, k: nat)
    requires k < |Aggregate(records)|
    ensures forall r :: r in records && r.filename == Aggregate(records)[k].filename ==>
              Aggregate(records)[k].timestamp <= r.timestamp
    ensures exists r :: r in records && r.filename == Aggregate(records)[k].filename &&
              r.timestamp == Aggregate(records)[k].timestamp
  {
    AggregateGroup(records, k);
    GroupTimeIsEarliest(records, SortBy(records, RecordTime), Aggregate(records)[k].filename);
  }

  /** Row `k`'s coordinates are the earliest non-missing ones of its photo's detections. */
  lemma AggregateRowCoordinates(records: seq<Record>, k: nat)
    requires k < |Aggregate(records)|
    ensures Aggregate(records)[k].lat.None? <==>
              forall r :: r in records && r.filename == Aggregate(records)[k].filename ==> r.lat.None?
    ensures Aggregate(records)[k].lon.None? <==>
              forall r :: r in records && r.filename == Aggregate(records)[k].filename ==> r.lon.None?
    ensures Aggregate(records)[k].lat.Some? ==>
              exists r :: && r in records && r.filename == Aggregate(records)[k].filename
                          && r.lat == Aggregate(records)[k].lat
                          && forall q :: q in records && q.filename == r.filename && q.timestamp < r.timestamp ==> q.lat.None?
    ensures Aggregate(records)[k].lon.Some? ==>
              exists r :: && r in records && r.filename == Aggregate(records)[k].filename
                          && r.lon == Aggregate(records)[k].lon
                          && forall q :: q in records && q.filename == r.filename && q.timestamp < r.timestamp ==> q.lon.None?
  {
    AggregateGroup(records, k);
    GroupCoordinates(records, SortBy(records, RecordTime), Aggregate(records)[k].filename);
  }

  /** Row `k`'s defects are its photo's distinct classes in sorted order, joined by ", ". */
  lemma AggregateRowDefects(records: seq<Record>, k: nat, ss: seq<string>)
    requires k < |Aggregate(records)|
    requires StrictlyIncreasing(ss) && Elems(ss) == ClassSet(records, Aggregate(records)[k].filename)
    ensures Aggregate(records)[k].defects == Join(ss, ", ")
  {
    AggregateGroup(records, k);
    GroupDefects(records, SortBy(records, RecordTime), Aggregate(records)[k].filename, ss);
  }

  /** Duplicated classes collapse and the rest are sorted: pothole, pothole, crack gives "crack, pothole". */
  lemma DefectsExample()
    ensures Defects(["pothole", "pothole", "crack"]) == "crack, pothole"
  {
    var cs := ["pothole", "pothole", "crack"];
    assert LexLess("crack", "pothole");
    assert SortedSet(cs[..1]) == ["pothole"];
    assert cs[..2][..1] == cs[..1];
    assert SortedSet(cs[..2]) == ["pothole"];
    assert cs[..2] == cs[..|cs| - 1];
    assert SortedSet(cs) == ["crack", "pothole"];
  }

  // ---------------------------------------------------------------------------
  // Route and markers (lines 39-69)

  /** The route: one point per group, in group order. */
  function Route(gs: seq<FrameGroup>): (route: seq<(Option<int>, Option<int>)>)
    ensures |route| == |gs|
    ensures forall k :: 0 <= k < |gs| ==> route[k] == (gs[k].lat, gs[k].lon)
  {
    seq(|gs|, k requires 0 <= k < |gs| => (gs[k].lat, gs[k].lon))
  }

  /** The marker of a group whose photo exists at `path`. */
  function MarkerFor(g: FrameGroup, path: string): (m: Marker)
    ensures m.frame + SplitExt(g.filename).1 == g.filename
    ensures m.lat == g.lat && m.lon == g.lon && m.timestamp == g.timestamp && m.defects == g.defects
    ensures |SplitExt(path).1| == 0 ==> m.imageType == ""
    ensures |SplitExt(path).1| > 0 ==> "." + m.imageType == SplitExt(path).1
  {
    var ext := SplitExt(path).1;
    ExtType(ext);
    Marker(g.lat, g.lon, SplitExt(g.filename).0, g.timestamp, g.defects, LStripDots(ext))
  }

  /** Where the photo of `g` is looked for: `os.path.join(photo_dir, filename)`. */
  function PhotoPath(photoDir: string, g: FrameGroup): string {
    PathJoin(photoDir, g.filename)
  }

  /** Each group's photo path paired with the marker it would get. */
  function Candidates(gs: seq<FrameGroup>, photoDir: string): (cs: seq<(string, Marker)>)
    ensures |cs| == |gs|
    ensures forall k :: 0 <= k < |gs| ==>
              cs[k] == (PhotoPath(photoDir, gs[k]), MarkerFor(gs[k], PhotoPath(photoDir, gs[k])))
  {
    seq(|gs|, k requires 0 <= k < |gs| => (PhotoPath(photoDir, gs[k]), MarkerFor(gs[k], PhotoPath(photoDir, gs[k]))))
  }

  /**
    The marker loop over `(path, marker)` candidates: a candidate whose path is
    among the existing `files` contributes its marker, any other a warning naming the path.
   */
  function SkipMissing<M>(cs: seq<(string, M)>, files: set<string>): (r: (seq<M>, seq<string>))
    ensures |r.0| + |r.1| == |cs|
  {
    if |cs| == 0 then ([], [])
    else
      var rest := SkipMissing(cs[1..], files);
      if cs[0].0 in files then ([cs[0].1] + rest.0, rest.1)
      else (rest.0, [cs[0].0] + rest.1)
  }

  /** A candidate whose photo exists gets its marker; one whose photo is missing gets a warning instead. */
  lemma {:induction false} SkipMissingKeeps<M>(cs: seq<(string, M)>, files: set<string>)
    ensures var r := SkipMissing(cs, files);
            forall k :: 0 <= k < |cs| ==>
              && (cs[k].0 in files ==> cs[k].1 in r.0)
              && (cs[k].0 !in files ==> cs[k].0 in r.1)
  {
    if |cs| > 0 {
      SkipMissingKeeps(cs[1..], files);
      assert forall k :: 0 < k < |cs| ==> cs[k] == cs[1..][k - 1];
    }
  }

  /** Every marker and every warning comes from a candidate with the photo present or missing respectively. */
  lemma {:induction false} SkipMissingSources<M>(cs: seq<(string, M)>, files: set<string>)
    ensures forall m :: m in SkipMissing(cs, files).0 ==> exists k :: 0 <= k < |cs| && cs[k].0 in files && cs[k].1 == m
    ensures forall w :: w in SkipMissing(cs, files).1 ==> exists k :: 0 <= k < |cs| && cs[k].0 !in files && cs[k].0 == w
  {
    if |cs| > 0 {
      SkipMissingSources(cs[1..], files);
      var r := SkipMissing(cs, files);
      var rest := SkipMissing(cs[1..], files);
      var tail := cs[1..];
      forall m | m in r.0 ensures exists k :: 0 <= k < |cs| && cs[k].0 in files && cs[k].1 == m {
        if m in rest.0 {
          var k :| 0 <= k < |tail| && tail[k].0 in files && tail[k].1 == m;
          assert cs[k + 1] == tail[k];
        }
      }
      forall w | w in r.1 ensures exists k :: 0 <= k < |cs| && cs[k].0 !in files && cs[k].0 == w {
        if w in rest.1 {
          var k :| 0 <= k < |tail| && tail[k].0 !in files && tail[k].0 == w;
          assert cs[k + 1] == tail[k];
        }
      }
    }
  }

  /** Markers keep candidate order: the markers of a prefix come before those of the rest. */
  lemma {:induction false} SkipMissingInOrder<M>(a: seq<(string, M)>, b: seq<(string, M)>, files: set<string>)
    ensures SkipMissing(a + b, files) ==
            (SkipMissing(a, files).0 + SkipMissing(b, files).0, SkipMissing(a, files).1 + SkipMissing(b, files).1)
  {
    var rb := SkipMissing(b, files);
    if |a| == 0 {
      assert a + b == b;
      assert [] + rb.0 == rb.0 && [] + rb.1 == rb.1;
    } else {
      assert (a + b)[0] == a[0];
      assert (a + b)[1..] == a[1..] + b;
      SkipMissingInOrder(a[1..], b, files);
      var ra := SkipMissing(a[1..], files);
      assert [a[0].1] + (ra.0 + rb.0) == ([a[0].1] + ra.0) + rb.0;
      assert [a[0].0] + (ra.1 + rb.1) == ([a[0].0] + ra.1) + rb.1;
    }
  }

  /** The marker loop (lines 43-69): markers for groups whose photo exists, warnings for the others. */
  function Markers(gs: seq<FrameGroup>, photoDir: string, files: set<string>): (r: (seq<Marker>, seq<string>))
    ensures |r.0| + |r.1| == |gs|
    ensures forall k :: 0 <= k < |gs| ==>
              && (PhotoPath(photoDir, gs[k]) in files ==> MarkerFor(gs[k], PhotoPath(photoDir, gs[k])) in r.0)
              && (PhotoPath(photoDir, gs[k]) !in files ==> PhotoPath(photoDir, gs[k]) in r.1)
    ensures forall m :: m in r.0 ==> exists k :: 0 <= k < |gs| && PhotoPath(photoDir, gs[k]) in files &&
                                                m == MarkerFor(gs[k], PhotoPath(photoDir, gs[k]))
    ensures forall w :: w in r.1 ==> exists k :: 0 <= k < |gs| && PhotoPath(photoDir, gs[k]) !in files &&
                                                w == PhotoPath(photoDir, gs[k])
  {
    var cs := Candidates(gs, photoDir);
    SkipMissingKeeps(cs, files);
    SkipMissingSources(cs, files);
    SkipMissing(cs, files)
  }

  /** Every row of photo `f` lacks a latitude. */
  ghost predicate LatMissing(records: seq<Record>, f: string) {
    forall r :: r in records && r.filename == f ==> r.lat.None?
  }

  /** Every row of photo `f` lacks a longitude. */
  ghost predicate LonMissing(records: seq<Record>, f: string) {
    forall r :: r in records && r.filename == f ==> r.lon.None?
  }

  /**
    Whether folium accepts the table (lines 34-40): the map centre is the mean of
    each coordinate column, NaN for an empty table, and `PolyLine` checks every
    point; folium raises on a NaN location in either place.
   */
  predicate Drawable(gs: seq<FrameGroup>) {
    |gs| > 0 && forall k :: 0 <= k < |gs| ==> gs[k].lat.Some? && gs[k].lon.Some?
  }

  /** A group has both coordinates iff some row of its photo has a latitude and some row a longitude. */
  lemma GroupHasCoordinates(records: seq<Record>, k: nat)
    requires k < |Aggregate(records)|
    ensures Aggregate(records)[k].lat.Some? <==> !LatMissing(records, Aggregate(records)[k].filename)
    ensures Aggregate(records)[k].lon.Some? <==> !LonMissing(records, Aggregate(records)[k].filename)
  {
    AggregateRowCoordinates(records, k);
  }

  /** The table can be drawn iff the log is not empty and every photo has some latitude and some longitude. */
  lemma DrawableIff(records: seq<Record>)
    ensures Drawable(Aggregate(records)) <==> |records| > 0 && EveryPhotoLocated(records)
  {
    var gs := Aggregate(records);
    AggregateShape(records);
    if |records| > 0 {
      assert records[0].filename in FileSet(records);
    }
    forall k | 0 <= k < |gs|
      ensures (gs[k].lat.Some? <==> !LatMissing(records, gs[k].filename))
      ensures (gs[k].lon.Some? <==> !LonMissing(records, gs[k].filename))
    {
      GroupHasCoordinates(records, k);
    }
    DrawableOf(gs, FileSet(records), records);
  }

  /** Some row of every photo has a latitude, and some row a longitude. */
  ghost predicate EveryPhotoLocated(records: seq<Record>) {
    forall f :: f in FileSet(records) ==> !LatMissing(records, f) && !LonMissing(records, f)
  }

  /** A table with one group per file, each located iff its file is, is drawable iff it is not empty and every file is located. */
  lemma DrawableOf(gs: seq<FrameGroup>, files: set<string>, records: seq<Record>)
    requires files == FileSet(records)
    requires |gs| == |files|
    requires forall f :: f in files <==> exists k :: 0 <= k < |gs| && gs[k].filename == f
    requires forall k :: 0 <= k < |gs| ==>
               (gs[k].lat.Some? <==> !LatMissing(records, gs[k].filename)) &&
               (gs[k].lon.Some? <==> !LonMissing(records, gs[k].filename))
    requires |records| > 0 <==> |files| > 0
    ensures Drawable(gs) <==> |records| > 0 && EveryPhotoLocated(records)
  {
    if Drawable(gs) {
      forall f | f in files ensures !LatMissing(records, f) && !LonMissing(records, f) {
        var k :| 0 <= k < |gs| && gs[k].filename == f;
      }
    }
    if |records| > 0 && EveryPhotoLocated(records) {
      forall k | 0 <= k < |gs| ensures gs[k].lat.Some? && gs[k].lon.Some? {
        assert gs[k].filename in files;
      }
    }
  }

  /**
    The whole of `visualize_defects` after reading the CSV. The result is `None`
    where folium raises and no map is saved: for an empty log, and as soon as one
    photo has no latitude or no longitude on any of its rows.
   */
  function Visualize(records: seq<Record>, photoDir: string, files: set<string>): (r: Option<Report>)
    ensures r.None? <==> |records| == 0 || !EveryPhotoLocated(records)
    ensures r.Some? ==> |r.value.route| == |FileSet(records)| && |r.value.markers| + |r.value.warnings| == |r.value.route|
    ensures r.Some? ==> forall k :: 0 <= k < |r.value.route| ==> r.value.route[k].0.Some? && r.value.route[k].1.Some?
    ensures r.Some? ==> r.value.route == Route(Aggregate(records))
    ensures r.Some? ==> (r.value.markers, r.value.warnings) == Markers(Aggregate(records), photoDir, files)
  {
    AggregateShape(records);
    DrawableIff(records);
    var gs := Aggregate(records);
    if Drawable(gs) then
      DrawShape(gs, photoDir, files);
      Some(Draw(gs, photoDir, files))
    else None
  }

  /** The drawn route has one complete point per group, and each point yields one marker or one warning. */
  lemma DrawShape(gs: seq<FrameGroup>, photoDir: string, files: set<string>)
    requires Drawable(gs)
    ensures |Draw(gs, photoDir, files).route| == |gs|
    ensures |Draw(gs, photoDir, files).markers| + |Draw(gs, photoDir, files).warnings| == |gs|
    ensures forall k :: 0 <= k < |gs| ==>
              Draw(gs, photoDir, files).route[k].0.Some? && Draw(gs, photoDir, files).route[k].1.Some?
  {
    var r := Draw(gs, photoDir, files);
    assert r.route == Route(gs);
  }

  /** Route and markers of a drawable table. */
  function Draw(gs: seq<FrameGroup>, photoDir: string, files: set<string>): (r: Report)
    requires Drawable(gs)
    ensures r.route == Route(gs) && (r.markers, r.warnings) == Markers(gs, photoDir, files)
  {
    var ms := Markers(gs, photoDir, files);
    Report(Route(gs), ms.0, ms.1)
  }
}
