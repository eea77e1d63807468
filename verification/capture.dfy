/**
  The capture loop of real_time.py as a pure step function. Each pass of the
  `while True` loop is one `Tick`: what the camera read returned, the clock, the
  detector's boxes, the location the helper reported and whether 'q' was pressed.
  Times are integer milliseconds; coordinates are integer micro-degrees and
  confidences integer thousandths, the precision the CSV writes them with.
 */
module Capture {
  import opened Wrappers
  import Numerals

  /** `INTERVAL = 1.0` seconds between detection attempts, in milliseconds. */
  const Interval: int := 1000

  /** The CSV header row written when the session opens. */
  const HeaderRow: seq<string> := ["timestamp", "class", "filename", "confidence", "lat", "lon"]

  /**
    One detected object: its class name (`model.names[cls]`), its confidence in
    thousandths, and the wall-clock reading taken when its row is written.
   */
  datatype Box = Box(className: string, confidence: int, stamp: int)

  /** What one pass of the loop observes. */
  datatype Tick = Tick(
    ok: bool,                        // `ret` from `cap.read()`
    now: int,                        // `time.time()` after the frame is written
    boxes: seq<Box>,                 // the detector's result, used only when the gate opens
    location: Option<(int, int)>,    // `get_location()`, queried only for a detecting frame
    quit: bool)                      // `waitKey(1) == ord('q')`

  /** One CSV data row, field by field as written. */
  datatype Row = Row(timestamp: int, className: string, filename: string,
                     confidence: string, lat: string, lon: string)

  /** A line of the CSV file: the header naming the columns, or a data row. */
  datatype Line = Header(columns: seq<string>) | Data(row: Row)

  /**
    The state the loop threads through its passes: the gate's `last_time`,
    `detect_count`, the number of frames sent to the video writer, the names of
    the photos the loop wrote (in order; the result of `cv2.imwrite` is never
    checked, so a name is recorded whether or not the file was stored), the CSV
    rows appended (in order) and whether the loop has exited.
   */
  datatype Session = Session(lastTime: int, detectCount: nat, framesWritten: nat,
                             photos: seq<string>, rows: seq<Row>, stopped: bool)

  /** The session right before the loop: `last_time = time.time()`, nothing written yet. */
  function Start(t0: int): (s: Session)
    ensures s.lastTime == t0 && !s.stopped
    ensures s.detectCount == 0 && s.framesWritten == 0 && s.photos == [] && s.rows == []
  {
    Session(t0, 0, 0, [], [], false)
  }

  /** The photo saved for the `n`-th detecting frame: `detect_{n}.jpg`. */
  function PhotoName(n: nat): string {
    "detect_" + Numerals.Digits(n) + ".jpg"
  }

  /** A photo name is `detect_`, digits and `.jpg`, and the digits read back as the counter value. */
  lemma PhotoNameReadsBack(n: nat)
    ensures var name := PhotoName(n);
            && |name| > 11 && name[..7] == "detect_" && name[|name| - 4..] == ".jpg"
            && Numerals.AllDigits(name[7..|name| - 4]) && Numerals.ValueOf(name[7..|name| - 4]) == n
  {
    var name := PhotoName(n);
    assert name[7..|name| - 4] == Numerals.Digits(n);
    Numerals.ValueOfDigits(n);
  }

  /** Distinct counter values name distinct photos. */
  lemma PhotoNameInjective(a: nat, b: nat)
    ensures PhotoName(a) == PhotoName(b) <==> a == b
  {
    if PhotoName(a) == PhotoName(b) {
      var da, db := Numerals.Digits(a), Numerals.Digits(b);
      assert |da| == |db|;
      assert PhotoName(a)[7..7 + |da|] == da;
      assert PhotoName(b)[7..7 + |db|] == db;
      Numerals.DigitsInjective(a, b);
    }
  }

  /** A coordinate field: `f"{x:.6f}"` when present, the empty string for `None`. */
  function CoordField(c: Option<int>): (f: string)
    ensures f == "" <==> c.None?
  {
    match c
    case None => ""
    case Some(v) => Numerals.FormatFixed(v, 6)
  }

  /** How a reader recovers the coordinate from its field: empty means missing. */
  function ReadCoordField(f: string): Option<int> {
    if f == "" then None else Numerals.ParseFixed(f, 6)
  }

  /** Reading a coordinate field gives back the coordinate written, present or not. */
  lemma CoordFieldRoundTrip(c: Option<int>)
    ensures ReadCoordField(CoordField(c)) == c
  {
    if c.Some? {
      Numerals.FixedRoundTrip(c.value, 6);
    }
  }

  /** The rows logged for one detecting frame: one per box, in box order. */
  function FrameRows(boxes: seq<Box>, filename: string, location: Option<(int, int)>): (rows: seq<Row>)
    ensures |rows| == |boxes|
    ensures forall i :: 0 <= i < |rows| ==>
              && rows[i].timestamp == boxes[i].stamp
              && rows[i].className == boxes[i].className
              && rows[i].confidence == Numerals.FormatFixed(boxes[i].confidence, 3)
    ensures forall i :: 0 <= i < |rows| ==>
              && rows[i].filename == filename
              && rows[i].lat == CoordField(if location.Some? then Some(location.value.0) else None)
              && rows[i].lon == CoordField(if location.Some? then Some(location.value.1) else None)
  {
    var lat := CoordField(if location.Some? then Some(location.value.0) else None);
    var lon := CoordField(if location.Some? then Some(location.value.1) else None);
    seq(|boxes|, i requires 0 <= i < |boxes| =>
      Row(boxes[i].stamp, boxes[i].className, filename, Numerals.FormatFixed(boxes[i].confidence, 3), lat, lon))
  }

  /** Whether the pass `t` runs the detector: the loop is live, the read worked and the gate is open. */
  predicate Fires(s: Session, t: Tick) {
    !s.stopped && t.ok && t.now - s.lastTime >= Interval
  }

  /** Whether the pass `t` saves a photo: the detector runs and finds at least one box. */
  predicate Detects(s: Session, t: Tick) {
    Fires(s, t) && |t.boxes| > 0
  }

  /** The detection branch (lines 84-113): reset the gate, then save and log if anything was found. */
  function Detect(s: Session, t: Tick): Session {
    var gated := s.(lastTime := t.now);
    if |t.boxes| == 0 then gated
    else
      var n := s.detectCount + 1;
      var name := PhotoName(n);
      gated.(detectCount := n, photos := s.photos + [name],
             rows := s.rows + FrameRows(t.boxes, name, t.location))
  }

  /** One pass of `while True` (lines 75-118). */
  function Step(s: Session, t: Tick): (r: Session)
    ensures s.stopped ==> r == s
    ensures r.stopped <==> s.stopped || !t.ok || t.quit
    ensures r.framesWritten == s.framesWritten + (if !s.stopped && t.ok then 1 else 0)
    ensures r.lastTime == if Fires(s, t) then t.now else s.lastTime
    ensures r.detectCount == s.detectCount + (if Detects(s, t) then 1 else 0)
    ensures r.photos == s.photos + (if Detects(s, t) then [PhotoName(r.detectCount)] else [])
    ensures r.rows == s.rows + (if Detects(s, t) then FrameRows(t.boxes, PhotoName(r.detectCount), t.location) else [])
  {
    assert s.photos + [] == s.photos && s.rows + [] == s.rows;
    if s.stopped then s
    else if !t.ok then s.(stopped := true)
    else
      var written := s.(framesWritten := s.framesWritten + 1);
      var detected := if t.now - s.lastTime >= Interval then Detect(written, t) else written;
      detected.(stopped := t.quit)
  }

  /** The loop run over a sequence of passes. */
  function Run(s: Session, ts: seq<Tick>): (r: Session)
    ensures r.framesWritten >= s.framesWritten && r.detectCount >= s.detectCount && r.lastTime >= s.lastTime
    ensures s.photos <= r.photos && s.rows <= r.rows
    ensures s.stopped ==> r.stopped
    decreases |ts|
  {
    if |ts| == 0 then s else Run(Step(s, ts[0]), ts[1..])
  }

  /** The CSV file of a session: the header, then every data row in order. */
  function CsvLines(s: Session): (lines: seq<Line>)
    ensures |lines| == |s.rows| + 1 && lines[0] == Header(HeaderRow)
    ensures forall i :: 0 < i < |lines| ==> lines[i] == Data(s.rows[i - 1])
  {
    [Header(HeaderRow)] + seq(|s.rows|, i requires 0 <= i < |s.rows| => Data(s.rows[i]))
  }

  // ---------------------------------------------------------------------------
  // Invariants of the loop

  /** Photos are `detect_1.jpg, ..., detect_{detect_count}.jpg`, in that order. */
  ghost predicate PhotosNumbered(s: Session) {
    && |s.photos| == s.detectCount
    && forall k :: 0 <= k < |s.photos| ==> s.photos[k] == PhotoName(k + 1)
  }

  /** Every row names a photo the loop wrote, and every photo name written has at least one row. */
  ghost predicate RowsMatchPhotos(s: Session) {
    RowsMatch(s.photos, s.rows)
  }

  ghost predicate RowsMatch(photos: seq<string>, rows: seq<Row>) {
    && (forall i :: 0 <= i < |rows| ==> rows[i].filename in photos)
    && (forall k :: 0 <= k < |photos| ==> exists i :: 0 <= i < |rows| && rows[i].filename == photos[k])
  }

  /** Rows of the same photo carry the same coordinates (one location query per frame). */
  ghost predicate CoordinatesPerPhoto(s: Session) {
    forall i, j :: 0 <= i < |s.rows| && 0 <= j < |s.rows| && s.rows[i].filename == s.rows[j].filename ==>
      s.rows[i].lat == s.rows[j].lat && s.rows[i].lon == s.rows[j].lon
  }

  ghost predicate Inv(s: Session) {
    PhotosNumbered(s) && RowsMatchPhotos(s) && CoordinatesPerPhoto(s)
  }

  lemma StartInv(t0: int)
    ensures Inv(Start(t0))
  {
  }

  /** The name of the next photo is not among the photos already saved. */
  lemma NextPhotoIsNew(s: Session)
    requires PhotosNumbered(s)
    ensures PhotoName(s.detectCount + 1) !in s.photos
  {
    if PhotoName(s.detectCount + 1) in s.photos {
      var k :| 0 <= k < |s.photos| && s.photos[k] == PhotoName(s.detectCount + 1);
      PhotoNameInjective(k + 1, s.detectCount + 1);
    }
  }

  /** The invariant only looks at the counter, the photos and the rows. */
  lemma InvSameContents(s: Session, r: Session)
    requires Inv(s)
    requires r.detectCount == s.detectCount && r.photos == s.photos && r.rows == s.rows
    ensures Inv(r)
  {
    assert RowsMatch(r.photos, r.rows);
  }

  /** Saving a new photo with at least one row for it keeps the invariant. */
  lemma InvAddFrame(s: Session, r: Session, added: seq<Row>)
    requires Inv(s)
    requires r.detectCount == s.detectCount + 1
    requires r.photos == s.photos + [PhotoName(r.detectCount)]
    requires r.rows == s.rows + added
    requires |added| > 0
    requires forall i :: 0 <= i < |added| ==> added[i].filename == PhotoName(r.detectCount)
    requires forall i :: 0 <= i < |added| ==> added[i].lat == added[0].lat && added[i].lon == added[0].lon
    ensures Inv(r)
  {
    var name := PhotoName(r.detectCount);
    NextPhotoIsNew(s);
    forall i | 0 <= i < |r.rows|
      ensures r.rows[i].filename in r.photos
      ensures i >= |s.rows| <==> r.rows[i].filename == name
    {
      if i >= |s.rows| {
        assert r.rows[i] == added[i - |s.rows|];
      } else {
        assert r.rows[i] == s.rows[i];
      }
    }
    forall k | 0 <= k < |r.photos|
      ensures exists i :: 0 <= i < |r.rows| && r.rows[i].filename == r.photos[k]
    {
      if k < |s.photos| {
        assert r.photos[k] == s.photos[k];
        var i :| 0 <= i < |s.rows| && s.rows[i].filename == s.photos[k];
        assert r.rows[i] == s.rows[i];
      } else {
        assert r.rows[|s.rows|] == added[0];
      }
    }
    forall i, j | 0 <= i < |r.rows| && 0 <= j < |r.rows| && r.rows[i].filename == r.rows[j].filename
      ensures r.rows[i].lat == r.rows[j].lat && r.rows[i].lon == r.rows[j].lon
    {
      if i >= |s.rows| {
        assert r.rows[i] == added[i - |s.rows|] && r.rows[j] == added[j - |s.rows|];
      } else {
        assert r.rows[i] == s.rows[i] && r.rows[j] == s.rows[j];
      }
    }
  }

  /** Every pass keeps the invariant. */
  lemma StepInv(s: Session, t: Tick)
    requires Inv(s)
    ensures Inv(Step(s, t))
  {
    var r := Step(s, t);
    if Detects(s, t) {
      InvAddFrame(s, r, FrameRows(t.boxes, PhotoName(r.detectCount), t.location));
    } else {
      assert r.rows == s.rows + [];
      assert r.photos == s.photos + [];
      InvSameContents(s, r);
    }
  }

  /** Every run of the loop keeps the invariant. */
  lemma {:induction false} RunInv(s: Session, ts: seq<Tick>)
    requires Inv(s)
    ensures Inv(Run(s, ts))
    decreases |ts|
  {
    if |ts| > 0 {
      StepInv(s, ts[0]);
      RunInv(Step(s, ts[0]), ts[1..]);
    }
  }

  /** Saved photos are pairwise distinct, so no photo overwrites another within a session. */
  lemma PhotosDistinct(s: Session)
    requires PhotosNumbered(s)
    ensures forall j, k :: 0 <= j < k < |s.photos| ==> s.photos[j] != s.photos[k]
  {
    forall j, k | 0 <= j < k < |s.photos|
      ensures s.photos[j] != s.photos[k]
    {
      PhotoNameInjective(j + 1, k + 1);
    }
  }

  /** A coordinate field is empty or reads back as a value. */
  predicate ReadableField(f: string) {
    f == "" || ReadCoordField(f).Some?
  }

  /** Every coordinate field logged so far is empty or a readable value. */
  ghost predicate FieldsReadable(s: Session) {
    forall i :: 0 <= i < |s.rows| ==> ReadableField(s.rows[i].lat) && ReadableField(s.rows[i].lon)
  }

  /** Every pass logs only readable coordinate fields. */
  lemma StepFieldsReadable(s: Session, t: Tick)
    requires FieldsReadable(s)
    ensures FieldsReadable(Step(s, t))
  {
    var r := Step(s, t);
    if Detects(s, t) {
      var lat := if t.location.Some? then Some(t.location.value.0) else None;
      var lon := if t.location.Some? then Some(t.location.value.1) else None;
      CoordFieldRoundTrip(lat);
      CoordFieldRoundTrip(lon);
      AppendReadable(s.rows, FrameRows(t.boxes, PhotoName(r.detectCount), t.location), CoordField(lat), CoordField(lon));
    } else {
      assert r.rows == s.rows;
    }
  }

  /** Appending rows whose fields are readable keeps every field readable. */
  lemma AppendReadable(rows: seq<Row>, added: seq<Row>, lat: string, lon: string)
    requires forall i :: 0 <= i < |rows| ==> ReadableField(rows[i].lat) && ReadableField(rows[i].lon)
    requires forall i :: 0 <= i < |added| ==> added[i].lat == lat && added[i].lon == lon
    requires ReadableField(lat) && ReadableField(lon)
    ensures forall i :: 0 <= i < |rows + added| ==>
              ReadableField((rows + added)[i].lat) && ReadableField((rows + added)[i].lon)
  {
    forall i | 0 <= i < |rows + added|
      ensures ReadableField((rows + added)[i].lat) && ReadableField((rows + added)[i].lon)
    {
      if i >= |rows| {
        assert (rows + added)[i] == added[i - |rows|];
      } else {
        assert (rows + added)[i] == rows[i];
      }
    }
  }

  /** Every run logs only readable coordinate fields. */
  lemma {:induction false} RunFieldsReadable(s: Session, ts: seq<Tick>)
    requires FieldsReadable(s)
    ensures FieldsReadable(Run(s, ts))
    decreases |ts|
  {
    if |ts| > 0 {
      StepFieldsReadable(s, ts[0]);
      RunFieldsReadable(Step(s, ts[0]), ts[1..]);
    }
  }

  /** Some row has been logged iff some photo has been saved. */
  lemma SomethingLogged(s: Session)
    requires Inv(s)
    ensures |s.rows| > 0 <==> s.detectCount > 0
  {
    if s.detectCount > 0 {
      var i :| 0 <= i < |s.rows| && s.rows[i].filename == s.photos[0];
    }
    if |s.rows| > 0 {
      assert s.rows[0].filename in s.photos;
    }
  }

  // ---------------------------------------------------------------------------
  // Properties of whole runs

  /** The passes whose frame reaches the video writer: every tick up to the first failed read or the first 'q'. */
  function GoodReads(ts: seq<Tick>): nat {
    if |ts| == 0 || !ts[0].ok then 0
    else 1 + (if ts[0].quit then 0 else GoodReads(ts[1..]))
  }

  /** Frames written to the video equal the successful reads the loop performed. */
  lemma {:induction false} FramesEqualReads(s: Session, ts: seq<Tick>)
    requires !s.stopped
    ensures Run(s, ts).framesWritten == s.framesWritten + GoodReads(ts)
    decreases |ts|
  {
    if |ts| > 0 {
      var s' := Step(s, ts[0]);
      if s'.stopped {
        StoppedRun(s', ts[1..]);
      } else {
        FramesEqualReads(s', ts[1..]);
      }
    }
  }

  /** Once stopped, the loop does nothing more: no frame, no photo, no row. */
  lemma {:induction false} StoppedRun(s: Session, ts: seq<Tick>)
    requires s.stopped
    ensures Run(s, ts) == s
    decreases |ts|
  {
    if |ts| > 0 {
      StoppedRun(Step(s, ts[0]), ts[1..]);
    }
  }

  /** Ticks after the loop has exited change nothing. */
  lemma {:induction false} NothingAfterStop(s: Session, ts: seq<Tick>, more: seq<Tick>)
    requires Run(s, ts).stopped
    ensures Run(s, ts + more) == Run(s, ts)
    decreases |ts|
  {
    if |ts| == 0 {
      assert ts + more == more;
      StoppedRun(s, more);
    } else {
      assert (ts + more)[1..] == ts[1..] + more;
      NothingAfterStop(Step(s, ts[0]), ts[1..], more);
    }
  }

  /** One detection attempt: when it happened and how many boxes it found. */
  datatype Attempt = Attempt(time: int, found: nat)

  /** The detection attempts of a run, in order. */
  function Attempts(s: Session, ts: seq<Tick>): seq<Attempt>
    decreases |ts|
  {
    if |ts| == 0 then []
    else (if Fires(s, ts[0]) then [Attempt(ts[0].now, |ts[0].boxes|)] else []) + Attempts(Step(s, ts[0]), ts[1..])
  }

  /**
    Detection attempts are at least `Interval` apart, the first at least `Interval`
    after the gate's starting time, and the gate ends at the last attempt.
   */
  lemma {:induction false} AttemptsSpaced(s: Session, ts: seq<Tick>)
    ensures var a := Attempts(s, ts);
            && (|a| > 0 ==> a[0].time >= s.lastTime + Interval)
            && (forall i :: 0 < i < |a| ==> a[i].time >= a[i - 1].time + Interval)
            && Run(s, ts).lastTime == if |a| == 0 then s.lastTime else a[|a| - 1].time
    decreases |ts|
  {
    if |ts| > 0 {
      var s' := Step(s, ts[0]);
      AttemptsSpaced(s', ts[1..]);
      var rest := Attempts(s', ts[1..]);
      if Fires(s, ts[0]) {
        var a := [Attempt(ts[0].now, |ts[0].boxes|)] + rest;
        assert a[1..] == rest;
      }
    }
  }

  /** Attempts that found something: the ones that saved a photo. */
  function Detecting(a: seq<Attempt>): nat {
    if |a| == 0 then 0 else (if a[0].found > 0 then 1 else 0) + Detecting(a[1..])
  }

  /** Rows the attempts logged: one per box found. */
  function BoxesFound(a: seq<Attempt>): nat {
    if |a| == 0 then 0 else a[0].found + BoxesFound(a[1..])
  }

  lemma DetectingConcat(a: seq<Attempt>, b: seq<Attempt>)
    ensures Detecting(a + b) == Detecting(a) + Detecting(b)
    ensures BoxesFound(a + b) == BoxesFound(a) + BoxesFound(b)
  {
    if |a| > 0 {
      assert (a + b)[1..] == a[1..] + b;
      DetectingConcat(a[1..], b);
    } else {
      assert a + b == b;
    }
  }

  /**
    The counter advances once per attempt that found something, and the log grows
    by one row per box found; empty attempts add neither.
   */
  lemma {:induction false} CountsOfRun(s: Session, ts: seq<Tick>)
    ensures Run(s, ts).detectCount == s.detectCount + Detecting(Attempts(s, ts))
    ensures |Run(s, ts).rows| == |s.rows| + BoxesFound(Attempts(s, ts))
    ensures |Run(s, ts).photos| == |s.photos| + Detecting(Attempts(s, ts))
    decreases |ts|
  {
    if |ts| > 0 {
      var s' := Step(s, ts[0]);
      CountsOfRun(s', ts[1..]);
      var head := if Fires(s, ts[0]) then [Attempt(ts[0].now, |ts[0].boxes|)] else [];
      DetectingConcat(head, Attempts(s', ts[1..]));
    }
  }
}
