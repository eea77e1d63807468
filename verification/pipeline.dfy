/**
  The two halves of the system joined: the rows the capture loop logs, read back
  as the aggregator reads them (an empty coordinate field becomes missing), give
  one map group per saved photo, carrying the coordinates of that photo's frame.
 */
module Pipeline {
  import opened Wrappers
  import Numerals
  import opened Sorting
  import opened Paths
  import Capture
  import opened Aggregate

  /** A logged row as the aggregator parses it. */
  function ToRecord(row: Capture.Row): (r: Record)
    ensures r.filename == row.filename && r.className == row.className && r.timestamp == row.timestamp
    ensures forall c :: row.lat == Capture.CoordField(c) ==> r.lat == c
    ensures forall c :: row.lon == Capture.CoordField(c) ==> r.lon == c
  {
    forall c: Option<int> ensures Capture.ReadCoordField(Capture.CoordField(c)) == c {
      Capture.CoordFieldRoundTrip(c);
    }
    Record(row.timestamp, row.className, row.filename,
           Capture.ReadCoordField(row.lat), Capture.ReadCoordField(row.lon))
  }

  /** The log as the aggregator reads it: the header names the columns, every later line is parsed. */
  function Records(s: Capture.Session): (rs: seq<Record>)
    ensures |rs| == |s.rows| && forall i :: 0 <= i < |rs| ==> rs[i] == ToRecord(s.rows[i])
  {
    var lines := Capture.CsvLines(s);
    seq(|lines| - 1, i requires 0 <= i < |lines| - 1 => ToRecord(lines[i + 1].row))
  }

  /** The filenames mentioned by the parsed log are exactly the photo names the loop wrote. */
  lemma FilesArePhotos(s: Capture.Session)
    requires Capture.Inv(s)
    ensures FileSet(Records(s)) == Elems(s.photos)
  {
    SameFiles(Records(s), s.rows, s.photos);
  }

  /** Records carrying the filenames of rows that match the photos name exactly those photos. */
  lemma SameFiles(rs: seq<Record>, rows: seq<Capture.Row>, photos: seq<string>)
    requires |rs| == |rows| && forall i :: 0 <= i < |rs| ==> rs[i].filename == rows[i].filename
    requires Capture.RowsMatch(photos, rows)
    ensures FileSet(rs) == Elems(photos)
  {
    forall f | f in FileSet(rs) ensures f in Elems(photos) {
      var r :| r in rs && r.filename == f;
      var i :| 0 <= i < |rs| && rs[i] == r;
      assert rows[i].filename in photos;
    }
    forall f | f in Elems(photos) ensures f in FileSet(rs) {
      var k :| 0 <= k < |photos| && photos[k] == f;
      var i :| 0 <= i < |rows| && rows[i].filename == photos[k];
      assert rs[i] in rs;
    }
  }

  /** The map gets exactly one group per photo the loop saved. */
  lemma OneGroupPerPhoto(s: Capture.Session)
    requires Capture.Inv(s)
    ensures |Aggregate.Aggregate(Records(s))| == |s.photos|
    ensures forall f :: f in s.photos <==>
              exists k :: 0 <= k < |Aggregate.Aggregate(Records(s))| && Aggregate.Aggregate(Records(s))[k].filename == f
  {
    FilesArePhotos(s);
    Capture.PhotosDistinct(s);
    AggregateShape(Records(s));
    GroupsOfDistinctNames(s.photos, Aggregate.Aggregate(Records(s)), FileSet(Records(s)));
  }

  /** A table with one group per name of a repetition-free list has one group per list entry. */
  lemma GroupsOfDistinctNames(names: seq<string>, gs: seq<FrameGroup>, files: set<string>)
    requires forall j, k :: 0 <= j < k < |names| ==> names[j] != names[k]
    requires files == Elems(names)
    requires |gs| == |files|
    requires forall f :: f in files <==> exists k :: 0 <= k < |gs| && gs[k].filename == f
    ensures |gs| == |names|
    ensures forall f :: f in names <==> exists k :: 0 <= k < |gs| && gs[k].filename == f
  {
    DistinctCard(names);
    forall f ensures f in names <==> f in Elems(names) {
      if f in names {
        var k :| 0 <= k < |names| && names[k] == f;
      }
    }
  }

  /** Over a whole session from start: as many map groups as detections counted. */
  lemma {:induction false} GroupsOfSession(t0: int, ts: seq<Capture.Tick>)
    ensures |Aggregate.Aggregate(Records(Capture.Run(Capture.Start(t0), ts)))| ==
            Capture.Run(Capture.Start(t0), ts).detectCount
  {
    Capture.StartInv(t0);
    Capture.RunInv(Capture.Start(t0), ts);
    OneGroupPerPhoto(Capture.Run(Capture.Start(t0), ts));
  }

  /** A group's coordinates are the ones logged on every row of its photo. */
  lemma GroupKeepsFrameLocation(s: Capture.Session, k: nat, i: nat)
    requires Capture.Inv(s)
    requires k < |Aggregate.Aggregate(Records(s))|
    requires i < |s.rows| && s.rows[i].filename == Aggregate.Aggregate(Records(s))[k].filename
    ensures Aggregate.Aggregate(Records(s))[k].lat == Capture.ReadCoordField(s.rows[i].lat)
    ensures Aggregate.Aggregate(Records(s))[k].lon == Capture.ReadCoordField(s.rows[i].lon)
  {
    var rs := Records(s);
    var g := Aggregate.Aggregate(rs)[k];
    AggregateRowCoordinates(rs, k);
    PhotoRowsShareLocation(s, i);
    assert rs[i] in rs;
    UniformColumn(rs, g.filename, g.lat, ToRecord(s.rows[i]).lat, LatOf);
    UniformColumn(rs, g.filename, g.lon, ToRecord(s.rows[i]).lon, LonOf);
  }

  /** Every parsed row of a photo carries that photo's location. */
  lemma PhotoRowsShareLocation(s: Capture.Session, i: nat)
    requires Capture.Inv(s) && i < |s.rows|
    ensures forall r :: r in Records(s) && r.filename == s.rows[i].filename ==>
              r.lat == ToRecord(s.rows[i]).lat && r.lon == ToRecord(s.rows[i]).lon
  {
    var rs := Records(s);
    forall r | r in rs && r.filename == s.rows[i].filename
      ensures r.lat == ToRecord(s.rows[i]).lat && r.lon == ToRecord(s.rows[i]).lon
    {
      var j :| 0 <= j < |rs| && rs[j] == r;
      assert s.rows[j].lat == s.rows[i].lat && s.rows[j].lon == s.rows[i].lon;
    }
  }

  /** When all rows of `f` agree on a column, the earliest present value is that value. */
  lemma UniformColumn(rs: seq<Record>, f: string, x: Option<int>, v: Option<int>, col: Record -> Option<int>)
    requires forall r :: r in rs && r.filename == f ==> col(r) == v
    requires exists r :: r in rs && r.filename == f
    requires x.None? <==> forall r :: r in rs && r.filename == f ==> col(r).None?
    requires x.Some? ==> exists r :: r in rs && r.filename == f && col(r) == x
    ensures x == v
  {
  }

  /** The marker of photo `detect_{n}.jpg` is labelled `detect_{n}` and embeds a jpg image. */
  lemma PhotoMarkerLabel(g: FrameGroup, photoDir: string, n: nat)
    requires g.filename == Capture.PhotoName(n)
    ensures MarkerFor(g, PhotoPath(photoDir, g)).frame == "detect_" + Numerals.Digits(n)
    ensures MarkerFor(g, PhotoPath(photoDir, g)).imageType == "jpg"
  {
    var path := PhotoPath(photoDir, g);
    PhotoNameParts(n);
    assert SplitExt(path).1 == ".jpg" by {
      ExtOfJoin(photoDir, g.filename);
    }
    JpgType();
  }

  /** The image subtype of a `.jpg` photo is `jpg`. */
  lemma JpgType()
    ensures LStripDots(".jpg") == "jpg"
  {
    LStripOneDot("jpg");
    assert "." + "jpg" == ".jpg";
  }

  /** `os.path.splitext` cuts `detect_{n}.jpg` into `detect_{n}` and `.jpg`. */
  lemma PhotoNameParts(n: nat)
    ensures SplitExt(Capture.PhotoName(n)) == ("detect_" + Numerals.Digits(n), ".jpg")
  {
    var root := "detect_" + Numerals.Digits(n);
    assert root[0] == 'd';
    forall i | 0 <= i < |root| ensures root[i] != '/' {
      if i >= 7 {
        assert root[i] == Numerals.Digits(n)[i - 7];
      }
    }
    assert Capture.PhotoName(n) == root + ".jpg";
    SplitExtOfName(root, ".jpg");
  }

  /**
    The map is drawn iff at least one row was logged and every row carries both
    coordinates: a single failed location query leaves its photo without a
    latitude and longitude, and folium then rejects the whole map.
   */
  lemma ReportIffLocated(s: Capture.Session, photoDir: string, files: set<string>)
    requires Capture.Inv(s) && Capture.FieldsReadable(s)
    ensures Visualize(Records(s), photoDir, files).Some? <==>
            |s.rows| > 0 && forall i :: 0 <= i < |s.rows| ==> s.rows[i].lat != "" && s.rows[i].lon != ""
  {
    if exists i :: 0 <= i < |s.rows| && (s.rows[i].lat == "" || s.rows[i].lon == "") {
      var i :| 0 <= i < |s.rows| && (s.rows[i].lat == "" || s.rows[i].lon == "");
      MissingFieldUnlocates(s, i);
    } else if |s.rows| > 0 {
      FullFieldsLocate(s);
    }
  }

  /** When every row carries both coordinates, every photo of the parsed log is located. */
  lemma FullFieldsLocate(s: Capture.Session)
    requires Capture.FieldsReadable(s)
    requires forall i :: 0 <= i < |s.rows| ==> s.rows[i].lat != "" && s.rows[i].lon != ""
    ensures EveryPhotoLocated(Records(s))
  {
    var rs := Records(s);
    forall f | f in FileSet(rs) ensures !LatMissing(rs, f) && !LonMissing(rs, f) {
      var r :| r in rs && r.filename == f;
      var j :| 0 <= j < |rs| && rs[j] == r;
      assert Capture.ReadableField(s.rows[j].lat) && Capture.ReadableField(s.rows[j].lon);
    }
  }

  /** A row with an empty coordinate field leaves its whole photo without that coordinate. */
  lemma MissingFieldUnlocates(s: Capture.Session, i: nat)
    requires Capture.Inv(s) && i < |s.rows|
    requires s.rows[i].lat == "" || s.rows[i].lon == ""
    ensures !EveryPhotoLocated(Records(s))
  {
    var rs := Records(s);
    PhotoRowsShareLocation(s, i);
    assert rs[i] in rs;
    assert Capture.CoordField(None) == "";
    if s.rows[i].lat == "" {
      assert LatMissing(rs, s.rows[i].filename);
    } else {
      assert LonMissing(rs, s.rows[i].filename);
    }
  }

  /** Over a whole session from start: a map is drawn iff something was detected and every location query succeeded. */
  lemma {:induction false} SessionReport(t0: int, ts: seq<Capture.Tick>, photoDir: string, files: set<string>)
    ensures var s := Capture.Run(Capture.Start(t0), ts);
            Visualize(Records(s), photoDir, files).Some? <==>
            s.detectCount > 0 && forall i :: 0 <= i < |s.rows| ==> s.rows[i].lat != "" && s.rows[i].lon != ""
  {
    var s := Capture.Run(Capture.Start(t0), ts);
    Capture.StartInv(t0);
    Capture.RunInv(Capture.Start(t0), ts);
    Capture.RunFieldsReadable(Capture.Start(t0), ts);
    ReportIffLocated(s, photoDir, files);
    Capture.SomethingLogged(s);
  }
}
