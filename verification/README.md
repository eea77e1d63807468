# Road-defect capture and map report, modelled in Dafny

The system has two halves.

- **The live capture loop** (`real_time.py`) reads camera frames and writes every good frame to the session video. At most once per `INTERVAL` it runs the defect detector. For every frame with at least one detection it:
  - saves a photo `detect_{n}.jpg`;
  - asks a location helper for `(lat, lon)`;
  - appends one CSV row per detected box: `timestamp, class, filename, confidence, lat, lon`.

  The loop ends when a read fails or the operator presses `q`.
- **The report** (`vusial_map.py`, `visualize_defects`) reads that CSV and builds the map:
  - it sorts the rows by time and groups them by photo filename;
  - each group gets the first timestamp and coordinates plus the sorted, de-duplicated class names;
  - it re-sorts the groups by time and draws a route through them;
  - it places one marker per group whose photo exists on disk.

  folium refuses a NaN location. The report therefore fails, and no map is saved, when the log is empty or when some photo has no latitude or no longitude on any of its rows. One failed location query during capture is enough for that.

The model is a set of pure functions.

| Module | What it models |
|---|---|
| `Wrappers` | `Option`. |
| `Strings` | Python's `str.strip`, `str.split()` with no argument, `', '.join`, and string ordering by code points. |
| `Numerals` | Decimal digits and fixed-point rendering (`:.6f`, `:.3f`) of integer values, with a parser that reads a rendering back. |
| `Sorting` | A sort by an integer key, specified only as "a permutation with non-decreasing keys", and `sorted(set(xs))` on strings. |
| `Paths` | `os.path.join` and `os.path.splitext` for POSIX paths, and `str.lstrip('.')`. |
| `Location` | The token rule of `get_location`. |
| `Capture` | One pass of the capture loop as a step function on a session state; whole runs; the loop invariants. |
| `Aggregate` | `visualize_defects` after the CSV is parsed: grouping, ordering, route and markers. |
| `Pipeline` | The two halves joined. Rows written by the loop and read back by the report give one map group per saved photo, carrying that photo's coordinates. |

Representation choices:

- Times are integer milliseconds, so `INTERVAL = 1.0` s becomes `Interval == 1000`.
- Coordinates are integer micro-degrees and confidences integer thousandths. These are exactly the precisions the CSV writes, so the rendering `f"{x:.6f}"` is an exact fixed-point rendering that the reader parses back.
- Each detected box carries the clock reading taken when its row is written (`Box.stamp`). The per-box read on line 104 overwrites the earlier read on line 99, so that earlier value is never used.
- The location helper's output and the float conversion are parameters of `GetLocation`.
- The detector's boxes, the camera read, the clock and the `q` key are fields of each `Tick`.
- `DataFrame.sort_values` uses an unstable sort. Every property of the grouping is therefore proved for *any* sorted permutation of the rows (`TimeSorted`). None of them depends on how equal timestamps are ordered.
- `groupby('filename')` emits its groups in filename order (`GroupKeys`), before they are re-sorted by time.
- Rows of one photo need not share a timestamp: the code reads the clock again for every row (line 104). Rows of one photo share filename and coordinates, and each has its own clock reading.
- A group's coordinates are not simply those of its earliest row: pandas `'first'` takes the first *non-missing* value of each column separately. The model follows the code (`FirstPresent`, `AggregateRowCoordinates`).

## Model

| member | source | states |
|---|---|---|
| Location.GetLocation | real_time.py:24-38 | The helper failing gives no location; fewer than two whitespace tokens in the stripped output gives none; otherwise the result is the first two tokens converted, or none when either conversion fails. |
| Strings.Strip | real_time.py:32 | `strip()` returns a slice of its input whose cut-off ends are all whitespace, and which itself neither starts nor ends with whitespace. |
| Strings.Split | real_time.py:33 | Every element of `split()` is a non-empty run of non-space characters. That alone is also met by `[]`. The tokens are pinned down by `SplitToken` (each token is split off whole, whatever whitespace follows it), `SplitSkipsLeading` (whitespace before the first token is skipped) and `SplitEmpty` (nothing is left once only whitespace remains). |
| Strings.SplitToken | real_time.py:33 | A run of non-space characters followed by whitespace (any kind, any amount) or by the end is the first token, and the rest of the tokens are those of what follows it. |
| Strings.SplitEmpty | real_time.py:33-34 | `split()` gives no tokens iff the text is all whitespace, which is the case where `get_location` finds fewer than two parts. |
| Strings.SplitSkipsLeading | real_time.py:33 | Leading whitespace never changes the tokens. |
| Location.ReadsRequestedFormat | real_time.py:30-35 | Output in the requested `"<lat> <lon>"` format is read back as exactly that pair. |
| Location.IgnoresExtraTokens | real_time.py:33-35 | Tokens after the second never change the result. |
| Strings.SplitStrip | real_time.py:32-33 | Splitting the stripped output gives the same tokens as splitting the raw output. |
| Strings.SplitJoin | real_time.py:33 | Splitting tokens joined by single blanks gives back those tokens. |
| Capture.Start | real_time.py:71-72 | The loop starts running, with the gate at the start time, the counter at zero, and no frame, photo or row written. |
| Capture.Step | real_time.py:75-118 | A stopped loop does nothing. A failed read or `q` stops it. Each good read writes one frame. The gate opens iff at least `Interval` has passed, and then resets to `now` whatever the detector found. The counter advances by one, and exactly one photo `detect_{n}.jpg` and that frame's rows are appended, iff the gate opened and boxes were found. |
| Capture.FrameRows | real_time.py:102-112 | One row per box, in box order. Each row carries its box's class, confidence and clock reading. All rows share the photo's filename and the coordinates from the single location query. |
| Numerals.FormatFixed | real_time.py:109-111 | The rendering with p decimals has the layout `FixedShape`: a minus sign iff the value is negative, then digits, a point and exactly p digits; a non-negative value has at least one digit before the point. |
| Numerals.FormatFixedWhole | real_time.py:109-111 | After the optional sign, the part before the point is the decimal numeral of the whole part of the absolute value, so it has no leading zero. |
| Capture.CoordField | real_time.py:110-111 | A coordinate field is the empty string exactly when the coordinate is missing. |
| Capture.CoordFieldRoundTrip | real_time.py:110-111 | Reading a coordinate field back gives the coordinate written, present or missing. |
| Numerals.FixedRoundTrip | real_time.py:109-111 | Parsing the fixed-point rendering of any value with p decimals gives back that value. |
| Capture.PhotoNameReadsBack | real_time.py:93 | `detect_{n}.jpg` is `detect_`, then the decimal digits of n, then `.jpg`; reading the digits back gives n. |
| Capture.PhotoNameInjective | real_time.py:92-93 | Two counter values give the same photo name iff they are equal. |
| Capture.CsvLines | real_time.py:55-58 | The CSV holds the header line naming the six columns first, then every data row in append order. |
| Capture.StepFieldsReadable | real_time.py:110-111 | Each pass logs only coordinate fields that are empty or read back as a value. |
| Capture.SomethingLogged | real_time.py:89-112 | Under the loop invariant, some row has been logged iff the counter is positive. |
| Capture.StepInv | real_time.py:89-112 | Each pass preserves the loop invariant. Photos are `detect_1..detect_n` for counter n. Every row names a photo the loop wrote. Every photo name written has a row. Rows of one photo share coordinates. |
| Capture.Run | real_time.py:75-118 | Over any sequence of passes the frame count, the counter and the gate time never decrease, the photo and row lists only grow at their ends, and a stopped loop stays stopped. |
| Capture.RunInv | real_time.py:75-118 | The invariant holds after any sequence of passes. |
| Capture.PhotosDistinct | real_time.py:92-95 | Saved photo names are pairwise distinct, so no photo overwrites another. |
| Capture.FramesEqualReads | real_time.py:76-81 | Frames written equal the successful reads up to the first failed read or `q`. |
| Capture.StoppedRun | real_time.py:77-78 | Once stopped, any further passes leave the session unchanged. |
| Capture.NothingAfterStop | real_time.py:117-118 | After the loop has exited, later ticks change nothing: no frame, photo or row. |
| Capture.AttemptsSpaced | real_time.py:71-85 | Successive detection attempts are at least `Interval` apart, and the first comes at least `Interval` after the start time. Attempts are passes where the gate opened, with or without boxes. The gate ends at the last attempt's time. |
| Capture.CountsOfRun | real_time.py:89-112 | Over a run, the counter and the photo list grow by the number of attempts that found boxes. The row list grows by the total number of boxes those attempts found. |
| Sorting.SortBy | vusial_map.py:19 | The sorted rows are a permutation of the input with non-decreasing timestamps. No tie order is promised. |
| Sorting.SortedSet | vusial_map.py:25 | `sorted(set(xs))` is strictly increasing and holds exactly the distinct elements of `xs`. |
| Sorting.StrictlyIncreasingUnique | vusial_map.py:25 | A set has only one strictly increasing listing, so the defects string does not depend on the order or repetition of the classes. |
| Aggregate.FirstPresent | vusial_map.py:22-23 | `'first'` is missing iff every value is missing. Otherwise it is a value present at some position with only missing values before it. |
| Aggregate.GroupKeys | vusial_map.py:20 | The group keys are the distinct filenames of the rows, strictly increasing, each one occurring in some row. |
| Aggregate.GroupRows | vusial_map.py:20-26 | `groupby` gives one group per key, in key order, and the group at position k is the one for the k-th key. Its columns are stated by `GroupTimeIsEarliest`, `FirstIsEarliestPresent` and `GroupDefects`. |
| Aggregate.Defects | vusial_map.py:25 | The defects string is the `", "`-join of the unique strictly increasing listing of the distinct classes, whatever order they come in. |
| Aggregate.Aggregate | vusial_map.py:17-31 | The aggregated table is ordered by non-decreasing timestamp and is a permutation of the groups of the time-sorted rows. |
| Aggregate.AggregateShape | vusial_map.py:17-28 | Exactly one group per distinct filename of the log: as many groups as filenames, no filename twice, and each filename in the log has a group. |
| Aggregate.OneGroupPerFile | vusial_map.py:20-26 | For any permutation of the rows, grouping yields exactly one group per distinct filename. |
| Aggregate.AggregateRowTime | vusial_map.py:19-24 | A group's timestamp is the minimum timestamp among its photo's rows. |
| Aggregate.GroupTimeIsEarliest | vusial_map.py:19-24 | For any time-sorted order of the rows, a group's `'first'` timestamp is no later than any of its rows and equals one of them. |
| Aggregate.AggregateRowCoordinates | vusial_map.py:19-23 | A group's lat (and separately its lon) is missing iff every row of its photo misses it. Otherwise it is the value of a row with no earlier row carrying that coordinate. |
| Aggregate.FirstIsEarliestPresent | vusial_map.py:19-23 | Within any time-sorted order of the rows, `'first'` of a column is the earliest non-missing value of the group. |
| Aggregate.AggregateRowDefects | vusial_map.py:25 | A group's defects string is its photo's distinct class names in increasing order, joined by `", "`. |
| Aggregate.GroupDefects | vusial_map.py:25 | The same, for the group built from any time-sorted order of the rows. |
| Aggregate.DefectsExample | vusial_map.py:25 | The classes pothole, pothole, crack give `"crack, pothole"`. |
| Aggregate.Route | vusial_map.py:39-40 | The route has one point per group, in group order, made of that group's lat and lon. |
| Aggregate.MarkerFor | vusial_map.py:51-69 | A marker stands at its group's coordinates and shows its time and defects. Its frame label followed by the filename's extension is the filename. Its image type is the photo path's extension without the dot, or empty when the path has no extension. |
| Aggregate.Markers | vusial_map.py:43-69 | A group whose photo path exists gets its marker. A group whose path is missing gets a warning naming that path instead. Every marker and every warning comes from such a group. |
| Aggregate.SkipMissing | vusial_map.py:43-47 | Each group yields exactly one marker or one warning: the markers and warnings together are as many as the groups. |
| Aggregate.SkipMissingKeeps | vusial_map.py:43-47 | A group whose path exists has its marker among the markers. A group whose path is missing has its path among the warnings. |
| Aggregate.SkipMissingSources | vusial_map.py:43-47 | Every marker comes from a group whose path exists, and every warning names the path of a group whose path is missing. |
| Aggregate.SkipMissingInOrder | vusial_map.py:43-47 | The marker loop keeps group order: markers and warnings from a prefix of the groups come before those from the rest. |
| Aggregate.Visualize | vusial_map.py:17-69 | No map is produced iff the log is empty or some photo lacks a latitude or a longitude on all of its rows; folium raises at lines 36 or 40 in those cases. Otherwise the route is the route of the aggregated table and the markers and warnings are those of the marker loop over it. The route has one point per distinct filename, every point has both coordinates, and every point yields exactly one marker or one warning. |
| Aggregate.DrawShape | vusial_map.py:39-47 | For a table folium accepts, the route has one point per group, each with both coordinates, and markers plus warnings number the groups. |
| Aggregate.DrawableIff | vusial_map.py:34-40 | The aggregated table has a defined centre and only complete route points iff the log is not empty and every photo has some latitude and some longitude. |
| Paths.SplitExt | vusial_map.py:51-54 | `splitext` cuts a path into root and extension that concatenate back to the path. The extension is empty, or a dot followed by characters that are neither dot nor separator. A non-empty extension has a non-dot character of the last path component before it, so a leading dot of a hidden file never starts one. An empty extension means that every dot of the last component has only dots before it in that component. |
| Paths.PathJoinShape | vusial_map.py:44 | `os.path.join(dir, name)` ends with the name. An absolute name replaces the directory. Otherwise the path starts with the directory and ends with the name, with one `/` between them exactly when the directory is not empty and does not already end in `/`, and nothing else. |
| Paths.ExtOfJoin | vusial_map.py:44-51 | The extension of the joined photo path is the extension of the filename. |
| Paths.LStripDots | vusial_map.py:51 | `lstrip('.')` returns the suffix of its input left after removing the leading dots: what it removed is all dots, and the result does not start with a dot. |
| Paths.SplitExtOfName | vusial_map.py:54 | A separator-free name that contains a non-dot character, followed by a one-dot extension, splits into exactly that name and that extension. |
| Pipeline.Records | vusial_map.py:12 | The aggregator reads one record per data line of the log, in order, after the header. |
| Pipeline.ToRecord | vusial_map.py:12 | Reading a logged row back keeps filename, class and timestamp. It recovers every coordinate written, with an empty field read as missing. |
| Pipeline.FilesArePhotos | real_time.py:92-112 | The filenames in the log are exactly the photo names the loop wrote. |
| Pipeline.OneGroupPerPhoto | vusial_map.py:17-28 | The map gets exactly one group per saved photo, and each photo has a group. |
| Pipeline.GroupsOfSession | real_time.py:92 | Over a whole session from start, the number of map groups equals the final `detect_count`. |
| Pipeline.GroupKeepsFrameLocation | real_time.py:98 | A group's coordinates are the ones logged on the rows of its photo: the single location query of that frame. |
| Pipeline.ReportIffLocated | vusial_map.py:34-40 | For a log the loop wrote, a map is produced iff at least one row was logged and no row has an empty coordinate field. |
| Pipeline.SessionReport | real_time.py:98-111 | Over a whole session from start, a map is produced iff something was detected and every location query succeeded. |
| Pipeline.PhotoMarkerLabel | vusial_map.py:51-54 | The marker of `detect_{n}.jpg` is labelled `detect_{n}` and has image type `jpg`. |

## Left out

- Camera capture, the video writer, `imshow`/`waitKey` and resource release (real_time.py:61-66, 116-124) are device and UI I/O. A read's success, the `q` key and the frame counter are tick inputs and state.
- The result of `cv2.imwrite` (real_time.py:95) is never checked, so the loop logs rows for a photo even when storing it failed. `Session.photos` records the names the loop wrote. Whether the file really exists is left to `os.path.exists` in the report, which is the set `files`.
- YOLO loading and inference (real_time.py:69, 87-91) are an opaque foreign model. The boxes are a tick input. The photo's pixel content is not modelled, only its name.
- The `CoreLocationCLI` subprocess and its timeout (real_time.py:30-31) are process I/O. Its output, or `None` when running it raised, is a parameter of `GetLocation`, and so is `float()`.
- Floating point is left out. Coordinates and confidences are integers at the precision the CSV prints, so rounding of wider floats in `:.6f`/`:.3f` is not modelled, and neither is parsing of arbitrary float text (exponents, `nan`, `inf`).
- Times are integer milliseconds rather than the float seconds of `time.time()` (real_time.py:71, 83-84), so the gate comparison is exact. Float rounding of the difference `now - last_time` is not modelled.
- ISO timestamp strings are replaced by integer times: `isoformat()` and `parse_dates` are library formatting.
- pandas CSV parsing (vusial_map.py:12) is replaced by a sequence of parsed records. `Pipeline.ToRecord` stands for that reading of a logged row.
- The confidence column is written by the loop but never used by the report, so parsed records do not keep it.
- The map centre (`mean` of lat/lon) and zoom (vusial_map.py:34-36) are float arithmetic, so their values are not modelled. What is modelled is whether folium accepts them: a NaN centre or a NaN route point makes the report fail (`Aggregate.Visualize` returns `None`).
- Base64 encoding, the HTML popup, folium's `Map`/`Marker`/`PolyLine` and `save` (vusial_map.py:49-50, 56-73) are rendering. A marker is the data the popup shows, and the route is the list of points.
- `os.path.exists` is a parameter: the set of existing paths.
- Directory creation and the module-level call of `visualize_defects` (real_time.py:50-52, vusial_map.py:75-79) are configuration and I/O.
- Aggregate.Aggregate: the concrete sort is a stable insertion sort. No lemma about it depends on tie order, because pandas' default sort is not stable.
- Numerals.FormatFixed: with p == 0 it keeps the point (`"3."`), where Python's `:.0f` omits it. The code only uses p = 3 and p = 6.
- Paths.SplitExt: only POSIX paths are modelled (separator `/`, no alternative separator).
