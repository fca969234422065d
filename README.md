# ParQIA parking-occupancy core in Dafny

ParQIA estimates how many spaces of a parking lot are free from a camera or
video feed. An external object detector finds vehicles. The code around that
detector is modelled here:

- the slot-occupancy mapper and class filter of `ParkingDetector`;
- the monitoring script, which smooths raw car counts over a median window
  of nine, turns them into a free count, and writes the count to a
  spreadsheet row only when it changed;
- the video-analysis script, which processes a frame whenever the configured
  number of seconds has elapsed on the wall clock and reports vehicles and
  slot occupancy.

Modules:

- `Detector` (detector.dfy) covers the point-in-box test, the class-filter
  loop of `detect` (`Detect`) and `compute_slot_occupancy`
  (`ComputeSlotOccupancy`). Both loops are methods proved against the
  functions `Kept` and `OccupancyOf`. The lemmas about those functions give
  the "occupied iff a centroid lies in the slot" equivalence, the counts, the
  ascending id list, and independence from detection order.
- `Smoothing` (smoothing.dfy) covers the `deque(maxlen=9)` window as the
  class `HistoryWindow`, the truncated median of the window, and the
  free-count arithmetic.
- `Sheets` (sheets.dfy) models the worksheet as the class `Sheet`, which holds
  rows of cell texts. Each spreadsheet call gets a flag saying whether it
  raises, so every exception path is modelled. The module also holds the row
  search (`FindRow`, an `enumerate` loop with an early exit) and
  `update_sheet_if_needed` (`UpdateSheetIfNeeded`), proved against the
  function `Gate`.
- `Monitor` (monitor.dfy) covers the sampling stride, the single-image path,
  and the video loop. The loop is `MonitorLoop`, proved against the fold
  `Run` of one `Step` per cycle.
- `Stream` (stream.dfy) covers the configuration defaults and the
  `process_video` loop. The loop is `ProcessVideo`, proved against the
  schedule function `Schedule` of processed read positions.

Inputs that come from outside the program are parameters.

- **Detector output:**
  - The detector's raw boxes are data: `RawBox` has a class id, corners and a
    confidence.
  - The class-name table `model.names` is a function `names: int -> string`.
  - The car count of the monitoring script, `count_cars`, is a natural number
    per cycle.
- **Clock:** the wall-clock time of each cycle or read is a `real`, and the
  formatted date stamp is a string.
- **Reads:** the frame reads are a finite sequence of `Read` values; a read
  past its end fails.
- **Spreadsheet:** which spreadsheet call raises is given by `Faults`.

Coordinates and times are exact `real`s, so the `/2.0` centroid is exact.
Numbers written to the sheet are held as their decimal text.

Behaviour of the code worth noting, which the model follows:

- **Rate limit:** there is none. `UPDATE_MIN_SECONDS` is read at
  src/main.py:14 and never used. The gate writes whenever the free count
  differs from the last posted one.
- **Confidence:** the detector adapter does not check confidence again after
  the detector call. It keeps every box the detector returns whose class
  passes the filter.
- **Degenerate boxes:** the point-in-box test is inclusive. A zero-area box
  holds its own corner point; the test does not reject it.
- **Polygons:** slots are axis-aligned boxes only. There is no point-in-polygon
  test in the modelled code.

## Model

| member | source | states |
|---|---|---|
| Detector.PointInBox | src/detector.py:74-76 | `_point_in_bbox`: the test is inclusive on all four edges, and a box whose corners are swapped contains no point |
| Detector.PointInBoxExamples | src/detector.py:74-76 | the test is inclusive: (5,5) lies in (0,0,10,10), the corner (0,10) lies in it, and (5,5) does not lie in (6,0,10,10) |
| Detector.CentroidInsideBox | src/detector.py:99-101 | the centroid `((x1+x2)/2, (y1+y2)/2)` of a well-formed box lies inside that box |
| Detector.Detect | src/detector.py:51-71 | the nested loop over results and boxes returns exactly `Kept(Flatten(results))`: the records of the boxes whose class passes the filter, in reading order |
| Detector.KeptAppend | src/detector.py:51-69 | filtering a concatenation of boxes gives the concatenation of the filtered parts, so order is preserved |
| Detector.KeptMembership | src/detector.py:55-69 | a record is in the output iff it is built from some input box whose class is allowed (no list, or the class is on it) |
| Detector.KeptWithoutFilter | src/detector.py:55-56 | with `classes` None every box is kept, the k-th record coming from the k-th box |
| Detector.HitSlotsIff | src/detector.py:103-106 | the inner loop marks id `id` iff some slot with that id contains the point |
| Detector.OccupiedByIff | src/detector.py:98-106 | an id is occupied iff some detection and some slot with that id exist such that the detection's centroid lies in the slot's box (so one detection can mark several overlapping slots) |
| Detector.OccupiedAreSlotIds | src/detector.py:103-106 | every occupied id is the id of a configured slot |
| Detector.SlotIdsBound | src/detector.py:108 | there are at most as many distinct slot ids as configured slots |
| Detector.SortedList | src/detector.py:116 | `sorted(list(ids))` is strictly ascending, has exactly the elements of the set, and has its size |
| Detector.StrictlyIncreasingUnique | src/detector.py:116 | two strictly ascending lists with the same elements are equal, so the sorted id list is determined by the set |
| Detector.SortIds | src/detector.py:116 | repeatedly taking the least remaining id yields the sorted list of the set |
| Detector.ComputeSlotOccupancy | src/detector.py:96-117 | the nested marking loop, the counts and the sorted id list yield exactly `OccupancyOf(detections, slots)` |
| Detector.OccupancyCounts | src/detector.py:108-110 | total is the number of configured slots, occupied is the number of listed ids and at most the total, free is total minus occupied |
| Detector.OccupancyIds | src/detector.py:98-116 | the listed ids are strictly ascending, each one is a configured slot id, and an id is listed iff a detection's centroid lies in a slot with that id |
| Detector.NoDetectionsAllFree | src/detector.py:96-110 | with no detections no id is listed and every slot is free |
| Detector.OccupancyOrderIndependent | src/detector.py:96-110 | two detection lists with the same elements (as multisets) give the same snapshot |
| Detector.SingleCarScenario | src/detector.py:96-117 | 16 slots, one car (10,10,40,40) inside only slot 1 (0,0,50,50): ids [1] and 15 free |
| Smoothing.LastN | src/main.py:137 | the deque's eviction keeps `min(len, 9)` counts |
| Smoothing.LastNIsSuffix | src/main.py:137 | what the deque keeps is the newest part of the sequence: the dropped prefix followed by the kept counts is the whole sequence |
| Smoothing.LastNAppendOne | src/main.py:137 | appending one count to the last n counts and keeping the last n is the same as keeping the last n of the whole sequence |
| Smoothing.AppendAllIsLastN | src/main.py:137 | appending counts one by one to a window of at most nine gives the last nine of (old window followed by all the counts) |
| Smoothing.WindowIsRecentCounts | src/main.py:137 | from an empty window, after n appends the window has at most 9 counts and equals the last `min(n, 9)` counts in arrival order |
| Smoothing.HistoryWindow.constructor | src/main.py:114 | the window starts empty |
| Smoothing.HistoryWindow.Append | src/main.py:137 | `hist.append(autos)` leaves the last nine of (old window followed by the new count), and keeps the window at most nine long |
| Smoothing.Insert | src/main.py:138 | inserting a count adds exactly that count (as a multiset) and one to the length |
| Smoothing.InsertSorted | src/main.py:138 | inserting into an ascending sequence keeps it ascending, with the inserted count or the old head first |
| Smoothing.SortAsc | src/main.py:138 | the sort used by the median is ascending, a permutation of the window, and as long as it |
| Smoothing.Median | src/main.py:138 | `int(np.median(hist))`; for an odd-length window it is one of the counts held |
| Smoothing.Middle | src/main.py:138 | the middle of a sorted window lies between its two middle counts, and is the middle count for an odd length |
| Smoothing.SortedAscMonotone | src/main.py:138 | neighbour-wise ascending order gives `s[i] <= s[j]` for all `i <= j` |
| Smoothing.MiddleBetweenEnds | src/main.py:138 | the middle value or averaged middle pair of a sorted sequence lies between its first and last element |
| Smoothing.MedianWithinBounds | src/main.py:138 | `int(np.median(hist))` lies between any lower and upper bound of all counts in the window |
| Smoothing.MedianBetweenHeldCounts | src/main.py:138 | the smoothed count is at least some count held in the window and at most some count held in it |
| Smoothing.SortAscConstant | src/main.py:138 | a window of equal counts sorts to itself |
| Smoothing.MedianSuppressesOutliers | src/main.py:138 | a window `[lo, hi]` followed by seven counts v, with `lo <= v < hi`, smooths to v (for example [3,10,4,4,4,4,4,4,4] gives 4) |
| Smoothing.OccupiedSpots | src/main.py:139 | `min(autos_sm, TOTAL)`: at most each argument and equal to one of them |
| Smoothing.FreeSpots | src/main.py:140 | `max(0, TOTAL - ocupadas)`: at least `TOTAL - ocupadas` and equal to it or to 0 |
| Smoothing.FreeCountBalance | src/main.py:139-140 | with `TOTAL >= 0`, occupied is `min(count, TOTAL)`, `0 <= libres <= TOTAL`, and libres plus occupied is TOTAL |
| Sheets.NatToString | src/main.py:53 | `str(n)` of a natural is non-empty, made of decimal digits only, and begins with `0` only when it is the single digit of 0 |
| Sheets.NatToStringValue | src/main.py:53 | the digits of `str(n)` read back as a decimal number give n |
| Sheets.IntToString | src/main.py:53 | `str(ROW_ID)` is non-empty, holds no white space, starts with `-` iff the id is negative, and is decimal digits after that sign with no leading zero (except the single digit of 0) |
| Sheets.IntToStringValue | src/main.py:53 | `str(ROW_ID)` read back as a signed decimal number gives ROW_ID |
| Sheets.IntToStringInjective | src/main.py:53 | two ids with the same text are the same id, so the search key names exactly one id |
| Sheets.TrimLeft | src/main.py:53 | stripping leading white space never lengthens the text and leaves no white space first |
| Sheets.TrimLeftSuffix | src/main.py:53 | stripping leading white space leaves a suffix of the text, and everything removed before it is white space |
| Sheets.TrimRight | src/main.py:53 | stripping trailing white space never lengthens the text and leaves no white space last |
| Sheets.TrimRightPrefix | src/main.py:53 | stripping trailing white space leaves a prefix of the text, and everything removed after it is white space |
| Sheets.TrimStrips | src/main.py:53 | `str(val).strip()` keeps a middle part of the cell text: what is removed on each side is white space, and the part kept neither starts nor ends with white space |
| Sheets.TrimNoSpace | src/main.py:53 | text without white space is its own `strip()`, so the search key `str(ROW_ID)` is its own strip |
| Sheets.SetCellFrame | src/main.py:62-69 | `update_cell(r, col, v)` for col 4, 5 or 8 changes only row r, and in it only column col, which then holds v; cells created by padding read as empty |
| Sheets.OnlyRowColumnsChangedTrans | src/main.py:62-69 | successive writes confined to columns 4, 5 and 8 of one row stay confined to them |
| Sheets.Sheet.constructor | src/main.py:21 | the sheet holds its initial rows |
| Sheets.Sheet.ColValues | src/main.py:50 | `col_values(1)` returns the first cell of every row, or raises and returns nothing |
| Sheets.Sheet.AppendRow | src/main.py:59 | `append_row` adds exactly the given row at the end, or raises and leaves the sheet unchanged |
| Sheets.Sheet.UpdateCell | src/main.py:62-69 | `update_cell` writes one cell, padding the row with empty cells, or raises and leaves the sheet unchanged |
| Sheets.FirstMatchFrom | src/main.py:52-55 | from position i on: the first row whose stripped id equals the key, with no match before it, or none when no later row matches |
| Sheets.FirstMatch | src/main.py:52-55 | the first 1-based row whose stripped id equals the key, no earlier row matching, or None iff no row matches |
| Sheets.FirstMatchUnique | src/main.py:52-55 | any answer with those properties is the search's answer |
| Sheets.FindKey | src/main.py:52-55 | the `enumerate(ids, start=1)` loop with `break` returns `FirstMatch(ids, key)` |
| Sheets.FindRow | src/main.py:51-55 | the search for `str(ROW_ID)` returns `FirstMatch(ids, str(ROW_ID))` |
| Sheets.Gate | src/main.py:44-84 | one gate call returns either the previous state or `(libres, now)`, changes the state only when a write was due, and either keeps the number of rows or appends the new row |
| Sheets.UpdateSheetIfNeeded | src/main.py:44-84 | the sheet afterwards and the returned `(last_posted, last_time)` are exactly those of `Gate` for each outcome of each call |
| Sheets.GateSkipsWhenUnchanged | src/main.py:81-84 | when `libres == last_posted` nothing is written and the state is returned unchanged |
| Sheets.GateStateAfterAttempt | src/main.py:64-79 | an attempted write returns `(libres, now)` iff the read and the append (or the column 4 and 5 updates) complete, and the previous state otherwise; a failure on column 8 does not change the result |
| Sheets.GateCompletes | src/main.py:75 | when every deciding call completes, the gate returns `(libres, now)` |
| Sheets.GateAppendsMissingRow | src/main.py:57-59 | with no row for the id, a completed write appends exactly one row `[ROW_ID, "", "", libres, TOTAL, "TEST Düsseldorf", ""]` |
| Sheets.GateUpdatesFoundRow | src/main.py:61-71 | with a row for the id, only columns 4, 5 and 8 of that row change; each holds libres, TOTAL and the stamp when its call and all earlier ones completed; a column 4 failure changes nothing |
| Sheets.UpdateFoundRowCells | src/main.py:62-71 | the three cell updates of a found row, stopping at the first that raises, change only columns 4, 5 and 8 of it and write the given texts there |
| Sheets.AppendedRowIsFoundNext | src/main.py:50-59 | after appending the row for a missing id, the next search finds it at row `len(rows) + 1` |
| Sheets.RepeatedValueWrittenOnce | src/main.py:48 | the same free count on two consecutive cycles is attempted on the first only, when that write completed |
| Sheets.SkipThenChange | src/main.py:48 | right after `a` was posted, a repeated `a` is skipped and a different `b` is attempted |
| Sheets.ChangesAreWritten | src/main.py:143 | threading the state through cycles, the counts `a, a, b` with `a != b` (for example 5, 5, 3) are attempted on cycles 1 and 3 only |
| Sheets.FailedWriteIsRetried | src/main.py:77-79 | a failed read returns the previous state and leaves the sheet unchanged, so the same count is attempted again next cycle |
| Monitor.RoundHalfEven | src/main.py:112 | Python's `round` gives an integer within 0.5 of the value, and the even one on a tie |
| Monitor.FpsOrDefault | src/main.py:111 | `fps or 30.0`: never 0, and the reported rate whenever that is not 0 |
| Monitor.FrameInterval | src/main.py:112 | `max(1, int(round(fps * S)))` is at least 1 |
| Monitor.FrameIntervalBounds | src/main.py:111-112 | the stride is at least 1; for a product `fps*S >= 1` it is within 0.5 of it; a reported fps of 0 behaves as 30 |
| Monitor.DefaultStride | src/main.py:111-112 | with the default `FRAME_EVERY_SECONDS` of 30, a rate of 0 (taken as 30 fps) gives a stride of 900 frames and 25 fps gives 750 |
| Monitor.Step | src/main.py:136-143 | one cycle leaves the new count as the newest in a window of at most nine, and the posted state either unchanged or the free count of the new window |
| Monitor.MonitorLoop | src/main.py:114-143 | the video loop's window, sheet and `(last_posted, last_time)` after the cycles are those of `Run` from an empty window and no posted value |
| Monitor.RunHistory | src/main.py:137 | the loop's window depends only on the car counts: it is the counts appended one by one |
| Monitor.RecentCounts | src/main.py:137 | a window equal to the last k counts holds, at position j, the count of cycle `n - k + j` |
| Monitor.WindowAfterLoop | src/main.py:114-137 | after n cycles the window holds at most 9 counts, the car counts of the last `min(n, 9)` cycles in arrival order |
| Monitor.PostedWithinTotal | src/main.py:136-143 | with `TOTAL >= 0`, every free count the loop ever posted lies between 0 and TOTAL |
| Monitor.UnchangedCycleWritesNothing | src/main.py:143 | a cycle whose free count equals the last posted one leaves the sheet and the posted state as they were |
| Monitor.ProcessImage | src/main.py:100-103 | the single-image path sends `max(0, TOTAL - min(autos, TOTAL))` to the gate with no previous value |
| Monitor.ImageAlwaysWrites | src/main.py:101-103 | the single-image path always attempts the write, with a free count between 0 and TOTAL |
| Stream.ResolveConfig | src/parqia_yolo_stream.py:18-23 | a missing `source` is an error, and only that; every key that is given is used as given, and each missing key independently takes its default ("yolov8n.pt", 0.4, 2.0, [2,3,5,7], []) |
| Stream.ConfigDefaults | src/parqia_yolo_stream.py:19-23 | with only `source` given: model "yolov8n.pt", confidence 0.4, interval 2.0, classes [2,3,5,7], no slots |
| Stream.Schedule | src/parqia_yolo_stream.py:44-57 | the processed positions from read i on are positions of reads from i on, at most one per read |
| Stream.ScheduleShape | src/parqia_yolo_stream.py:44-58 | the processed read positions are strictly ascending and every processed read succeeded |
| Stream.ProcessedIff | src/parqia_yolo_stream.py:50-57 | up to the first failed read, a read is processed iff `now - last_process_time >= frame_interval_sec`; processing sets `last_process_time` to `now` and skipping leaves it unchanged |
| Stream.StopsAtFirstFailure | src/parqia_yolo_stream.py:45-48 | no read at or after a failed read is processed |
| Stream.ProcessedAreSpaced | src/parqia_yolo_stream.py:50-57 | the first processed read comes at least the interval after the start, each later one at least the interval after the previous one |
| Stream.ProcessedPairwiseApart | src/parqia_yolo_stream.py:38-58 | with a non-negative interval, no two processed frames are closer than the interval |
| Stream.ProcessFrame | src/parqia_yolo_stream.py:60-68 | one processed frame: detect, count detections, and compute occupancy only when slots are configured |
| Stream.ProcessVideo | src/parqia_yolo_stream.py:38-68 | the loop's reports are one per scheduled read, `frame_index` is the number of processed frames, and `last_process_time` is the time of the last one (0 if none) |
| Stream.ReportContents | src/parqia_yolo_stream.py:57-68 | the k-th report is frame number k+1 and its vehicle count is the number of kept detections; occupancy is present iff slots are configured, and then it is the mapper's snapshot |

## Left out

- YOLO inference (`model.predict`, `count_cars` and the `conf` threshold passed to the detector) is a foreign call. Its raw boxes and car counts are inputs.
- `apply_rois` and the fixed crop of src/main.py:130-134 are pixel operations of OpenCV. The crop is computed but not used.
- Google Sheets authentication and the client library (src/main.py:17-21) are left out. Each call is modelled by its effect on the rows and a flag saying whether it raises. A call that raises is taken to leave the sheet unchanged.
- `col_values` dropping trailing empty cells is not modelled. The search only looks for a matching id, and trailing empty cells never match a decimal id.
- Video capture, `grab`/`retrieve`, rewinding on end of stream, `sleep`, the HTTP image fetch and `cv2.imread` are I/O. In the monitoring loop each cycle is a successful retrieve with its count. In `process_video` the reads are a finite sequence, and a read past its end fails.
- JSON and argparse loading are not modelled, apart from the default values. A key that is present with the value JSON `null` is not modelled. For `classes` such a value would turn the filter off; use `Detect` with `None` for that case.
- The printing and logging of both scripts, the `start_time`/total-time report, and `cap.release()` are output only.
- The interactive region-drawing tool is not part of this model.
- Floating-point behaviour of `fps * S`, `round` and `np.median` is left out. The model uses exact arithmetic. `round` is exact round-half-to-even, and the median of non-negative counts is the middle count or the floored mean of the two middle counts.
- The text comparison `str(val).strip() == str(ROW_ID)` is exact character comparison. `strip` removes Python's white-space characters. Cell values are taken to be already rendered as text.
- TrimLeft: its own contract gives only the shape of the result; that the result is the text without its leading white space is stated by the lemma `TrimLeftSuffix`, which keeps the row search cheap to verify.
- TrimRight: its own contract gives only the shape of the result; that the result is the text without its trailing white space is stated by the lemma `TrimRightPrefix`, for the same reason.
- Sheets.ChangesAreWritten: states the 5, 5, 3 run for any two distinct counts. It requires the first write to complete, because a failed first write would be retried on cycle 2.
