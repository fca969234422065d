/**
 * The video analysis script: its configuration defaults and the
 * `process_video` loop, which reads frames until a read fails, processes a
 * frame only when the configured interval has elapsed on the wall clock since
 * the last processed one, and reports the vehicles and the slot occupancy.
 */
module Stream {
  import opened Wrappers
  import opened Detector

  // ---------------------------------------------------------------------------
  // Configuration

  /** The keys of the configuration file; a key that is absent is `None`. */
  datatype RawConfig = RawConfig(
    source: Option<string>,
    modelPath: Option<string>,
    conf: Option<real>,
    frameIntervalSec: Option<real>,
    classes: Option<seq<int>>,
    parkingSlots: Option<seq<Slot>>)

  datatype StreamConfig = StreamConfig(
    source: string,
    modelPath: string,
    conf: real,
    frameIntervalSec: real,
    classes: seq<int>,
    parkingSlots: seq<Slot>)

  /** `cfg["source"]` raises when the key is absent. */
  datatype ConfigError = MissingSource

  /** The configuration with every absent optional key given its default. */
  function ResolveConfig(raw: RawConfig): (r: Result<StreamConfig, ConfigError>)
    ensures r.Failure? <==> raw.source.None?
    ensures r.Success? ==> r.value.source == raw.source.value
    ensures r.Success? && raw.modelPath.Some? ==> r.value.modelPath == raw.modelPath.value
    ensures r.Success? && raw.conf.Some? ==> r.value.conf == raw.conf.value
    ensures r.Success? && raw.frameIntervalSec.Some? ==> r.value.frameIntervalSec == raw.frameIntervalSec.value
    ensures r.Success? && raw.classes.Some? ==> r.value.classes == raw.classes.value
    ensures r.Success? && raw.parkingSlots.Some? ==> r.value.parkingSlots == raw.parkingSlots.value
    ensures r.Success? && raw.modelPath.None? ==> r.value.modelPath == "yolov8n.pt"
    ensures r.Success? && raw.conf.None? ==> r.value.conf == 0.4
    ensures r.Success? && raw.frameIntervalSec.None? ==> r.value.frameIntervalSec == 2.0
    ensures r.Success? && raw.classes.None? ==> r.value.classes == [2, 3, 5, 7]
    ensures r.Success? && raw.parkingSlots.None? ==> r.value.parkingSlots == []
  {
    match raw.source
    case None => Failure(MissingSource)
    case Some(source) =>
      Success(StreamConfig(
        source,
        match raw.modelPath case Some(p) => p case None => "yolov8n.pt",
        match raw.conf case Some(c) => c case None => 0.4,
        match raw.frameIntervalSec case Some(s) => s case None => 2.0,
        match raw.classes case Some(c) => c case None => [2, 3, 5, 7],
        match raw.parkingSlots case Some(s) => s case None => []))
  }

  /**
   * Defaults when only the source is given: model "yolov8n.pt", confidence
   * 0.4, two seconds between processed frames, classes car, motorcycle, bus
   * and truck, and no slots.
   */
  lemma ConfigDefaults(source: string)
    ensures ResolveConfig(RawConfig(Some(source), None, None, None, None, None))
         == Success(StreamConfig(source, "yolov8n.pt", 0.4, 2.0, [2, 3, 5, 7], []))
  {
  }

  // ---------------------------------------------------------------------------
  // The frame loop

  /** One `cap.read()`: whether it succeeded, the clock just after it, and the detector's raw boxes. */
  datatype Read = Read(ok: bool, now: real, results: seq<seq<RawBox>>)

  /** What is reported for one processed frame. */
  datatype Report = Report(frameIndex: nat, numVehicles: nat, occupancy: Option<Occupancy>)


  /**
   * The positions of the reads processed from position `i` on, when the last
   * processed time is `last`: the loop stops at the first failed read and
   * skips a read when less than `interval` has elapsed since `last`.
   */
  function Schedule(frames: seq<Read>, interval: real, i: nat, last: real): (p: seq<nat>)
    requires i <= |frames|
    ensures |p| <= |frames| - i
    ensures forall k :: 0 <= k < |p| ==> i <= p[k] < |frames|
    decreases |frames| - i
  {
    if i == |frames| || !frames[i].ok then []
    else if frames[i].now - last < interval then Schedule(frames, interval, i + 1, last)
    else [i] + Schedule(frames, interval, i + 1, frames[i].now)
  }

  /** Each read is processed at most once, in order, and only reads that succeeded are processed. */
  lemma {:induction false} ScheduleShape(frames: seq<Read>, interval: real, i: nat, last: real)
    requires i <= |frames|
    ensures var p := Schedule(frames, interval, i, last);
      && StrictlyIncreasing(p)
      && forall k :: 0 <= k < |p| ==> frames[p[k]].ok
    decreases |frames| - i
  {
    if i < |frames| && frames[i].ok {
      var last' := if frames[i].now - last < interval then last else frames[i].now;
      ScheduleShape(frames, interval, i + 1, last');
    }
  }

  /** The report for a processed read, the `index`-th one. */
  ghost function ReportFor(read: Read, index: nat, cfg: StreamConfig, names: int -> string): Report
  {
    var detections := Kept(Flatten(read.results), Some(cfg.classes), names);
    Report(index, |detections|,
           if cfg.parkingSlots != [] then Some(OccupancyOf(detections, cfg.parkingSlots)) else None)
  }

  /** The reports for the reads at positions `p`, numbered from 1. */
  ghost function ReportsAt(frames: seq<Read>, p: seq<nat>, cfg: StreamConfig, names: int -> string): seq<Report>
    requires forall k :: 0 <= k < |p| ==> p[k] < |frames|
  {
    seq(|p|, k requires 0 <= k < |p| => ReportFor(frames[p[k]], k + 1, cfg, names))
  }

  /** The reports of a whole run, one per processed read, numbered from 1. */
  ghost function Reports(frames: seq<Read>, cfg: StreamConfig, names: int -> string): seq<Report>
  {
    ReportsAt(frames, Schedule(frames, cfg.frameIntervalSec, 0, 0.0), cfg, names)
  }

  /** The time of the last of the reads at positions `p`, or 0 when there is none. */
  function LastTime(frames: seq<Read>, p: seq<nat>): real
    requires forall k :: 0 <= k < |p| ==> p[k] < |frames|
  {
    if p == [] then 0.0 else frames[p[|p| - 1]].now
  }

  /** `last_process_time` at the end of a run: that of the last processed read, or 0. */
  function FinalTime(frames: seq<Read>, interval: real): real
  {
    LastTime(frames, Schedule(frames, interval, 0, 0.0))
  }

  /** The work done on one processed frame: detect, then count slots when any are configured. */
  method ProcessFrame(read: Read, frameIndex: nat, cfg: StreamConfig, names: int -> string) returns (report: Report)
    ensures report == ReportFor(read, frameIndex, cfg, names)
  {
    var detections := Detect(read.results, Some(cfg.classes), names);
    var numVehicles := |detections|;
    var occupancy: Option<Occupancy> := None;
    if cfg.parkingSlots != [] {
      var occ := ComputeSlotOccupancy(detections, cfg.parkingSlots);
      occupancy := Some(occ);
    }
    report := Report(frameIndex, numVehicles, occupancy);
  }

  /**
   * `process_video` over the reads its capture returns (a read past the end
   * of `frames` fails); `names` is the detector's class-name table.
   */
  method ProcessVideo(cfg: StreamConfig, frames: seq<Read>, names: int -> string)
    returns (reports: seq<Report>, frameIndex: nat, lastProcessTime: real)
    ensures reports == Reports(frames, cfg, names)
    ensures frameIndex == |reports|
    ensures lastProcessTime == FinalTime(frames, cfg.frameIntervalSec)
  {
    var interval := cfg.frameIntervalSec;
    lastProcessTime := 0.0;
    frameIndex := 0;
    reports := [];
    ghost var done: seq<nat> := [];
    var i := 0;
    while i < |frames|
      invariant 0 <= i <= |frames|
      invariant |done| == frameIndex == |reports|
      invariant forall k :: 0 <= k < |done| ==> done[k] < i
      invariant Schedule(frames, interval, 0, 0.0) == done + Schedule(frames, interval, i, lastProcessTime)
      invariant reports == ReportsAt(frames, done, cfg, names)
      invariant lastProcessTime == LastTime(frames, done)
    {
      var read := frames[i];
      if !read.ok {
        ScheduleEnds(frames, interval, i, lastProcessTime, done);
        break;
      }
      var now := read.now;
      if now - lastProcessTime < interval {
        ScheduleSkips(frames, interval, i, lastProcessTime, done);
        i := i + 1;
        continue;
      }
      ScheduleTakes(frames, interval, i, lastProcessTime, done);
      lastProcessTime := now;
      frameIndex := frameIndex + 1;
      var report := ProcessFrame(read, frameIndex, cfg, names);
      ReportsAtSnoc(frames, done, i, cfg, names);
      reports := reports + [report];
      done := done + [i];
      i := i + 1;
    }
    if i == |frames| {
      ScheduleEnds(frames, interval, i, lastProcessTime, done);
    }
  }

  /** At the end of the reads or at a failed read, nothing further is processed. */
  lemma ScheduleEnds(frames: seq<Read>, interval: real, i: nat, last: real, done: seq<nat>)
    requires i == |frames| || (i < |frames| && !frames[i].ok)
    ensures Schedule(frames, interval, i, last) == []
    ensures done + Schedule(frames, interval, i, last) == done
  {
  }

  /** A read that comes too soon is skipped and leaves `last` as it was. */
  lemma ScheduleSkips(frames: seq<Read>, interval: real, i: nat, last: real, done: seq<nat>)
    requires i < |frames| && frames[i].ok && frames[i].now - last < interval
    ensures done + Schedule(frames, interval, i, last) == done + Schedule(frames, interval, i + 1, last)
  {
  }

  /** Processing read `i` puts it at the head of the rest of the schedule. */
  lemma ScheduleTakes(frames: seq<Read>, interval: real, i: nat, last: real, done: seq<nat>)
    requires i < |frames| && frames[i].ok && frames[i].now - last >= interval
    requires forall k :: 0 <= k < |done| ==> done[k] < |frames|
    ensures done + Schedule(frames, interval, i, last) == (done + [i]) + Schedule(frames, interval, i + 1, frames[i].now)
    ensures LastTime(frames, done + [i]) == frames[i].now
  {
  }

  lemma ReportsAtSnoc(frames: seq<Read>, p: seq<nat>, i: nat, cfg: StreamConfig, names: int -> string)
    requires i < |frames|
    requires forall k :: 0 <= k < |p| ==> p[k] < |frames|
    ensures ReportsAt(frames, p + [i], cfg, names)
         == ReportsAt(frames, p, cfg, names) + [ReportFor(frames[i], |p| + 1, cfg, names)]
  {
  }

  // ---------------------------------------------------------------------------
  // Properties of the schedule

  /** `last_process_time` as it stands when read `j` is examined. */
  function TimeBefore(frames: seq<Read>, interval: real, i: nat, last: real, j: nat): real
    requires i <= j <= |frames|
    decreases j - i
  {
    if i == j then last
    else TimeBefore(frames, interval, i + 1, if frames[i].now - last < interval then last else frames[i].now, j)
  }

  /**
   * Up to the first failed read, a read is processed iff at least `interval`
   * has elapsed since `last_process_time`; processing it sets
   * `last_process_time` to its time, and skipping it changes nothing.
   */
  lemma {:induction false} ProcessedIff(frames: seq<Read>, interval: real, i: nat, last: real, j: nat)
    requires i <= j < |frames|
    requires forall m :: i <= m <= j ==> frames[m].ok
    ensures j in Schedule(frames, interval, i, last) <==> frames[j].now - TimeBefore(frames, interval, i, last, j) >= interval
    ensures TimeBefore(frames, interval, i, last, j + 1)
         == if j in Schedule(frames, interval, i, last) then frames[j].now else TimeBefore(frames, interval, i, last, j)
    decreases j - i
  {
    if i < j {
      var last' := if frames[i].now - last < interval then last else frames[i].now;
      ProcessedIff(frames, interval, i + 1, last', j);
      var rest := Schedule(frames, interval, i + 1, last');
      assert j in Schedule(frames, interval, i, last) <==> j in rest;
    }
  }

  /** No read at or after a failed read is processed. */
  lemma {:induction false} StopsAtFirstFailure(frames: seq<Read>, interval: real, i: nat, last: real, f: nat)
    requires i <= f < |frames| && !frames[f].ok
    ensures forall k :: 0 <= k < |Schedule(frames, interval, i, last)| ==> Schedule(frames, interval, i, last)[k] < f
    decreases |frames| - i
  {
    if i < f && frames[i].ok {
      var last' := if frames[i].now - last < interval then last else frames[i].now;
      StopsAtFirstFailure(frames, interval, i + 1, last', f);
    }
  }

  /**
   * The first processed read comes at least `interval` after `last`, and each
   * processed read at least `interval` after the one processed before it.
   */
  lemma {:induction false} ProcessedAreSpaced(frames: seq<Read>, interval: real, i: nat, last: real)
    requires i <= |frames|
    ensures var p := Schedule(frames, interval, i, last);
      && (p != [] ==> frames[p[0]].now - last >= interval)
      && (forall k :: 0 <= k < |p| - 1 ==> frames[p[k + 1]].now - frames[p[k]].now >= interval)
    decreases |frames| - i
  {
    if i < |frames| && frames[i].ok {
      var last' := if frames[i].now - last < interval then last else frames[i].now;
      ProcessedAreSpaced(frames, interval, i + 1, last');
    }
  }

  /** With a non-negative interval, any two processed reads are at least `interval` apart. */
  lemma ProcessedPairwiseApart(frames: seq<Read>, interval: real, a: nat, b: nat)
    requires interval >= 0.0
    requires a < b < |Schedule(frames, interval, 0, 0.0)|
    ensures var p := Schedule(frames, interval, 0, 0.0);
      frames[p[b]].now - frames[p[a]].now >= interval
    decreases b - a
  {
    var p := Schedule(frames, interval, 0, 0.0);
    ProcessedAreSpaced(frames, interval, 0, 0.0);
    if a + 1 < b {
      ProcessedPairwiseApart(frames, interval, a, b - 1);
      assert frames[p[b]].now - frames[p[b - 1]].now >= interval;
    }
  }

  /**
   * The k-th report carries frame number k + 1, the number of kept
   * detections, and an occupancy exactly when slots are configured.
   */
  lemma ReportContents(frames: seq<Read>, cfg: StreamConfig, names: int -> string, k: nat)
    requires k < |Reports(frames, cfg, names)|
    ensures var p := Schedule(frames, cfg.frameIntervalSec, 0, 0.0);
      var r := Reports(frames, cfg, names)[k];
      var detections := Kept(Flatten(frames[p[k]].results), Some(cfg.classes), names);
      && r.frameIndex == k + 1
      && r.numVehicles == |detections|
      && (r.occupancy.Some? <==> cfg.parkingSlots != [])
      && (r.occupancy.Some? ==> r.occupancy.value == OccupancyOf(detections, cfg.parkingSlots))
  {
  }
}
