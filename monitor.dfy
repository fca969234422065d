/**
 * The monitoring script: the sampling stride derived from the frame rate,
 * the single-image path, and the cycle of the video loop that feeds the raw
 * car count through the smoothing window into the update gate.
 */
module Monitor {
  import opened Wrappers
  import opened Smoothing
  import opened Sheets

  /** `ROW_ID`, `TOTAL` and `S` (seconds between measurements) as read from the environment. */
  datatype Settings = Settings(rowId: int, total: int, everySeconds: int)

  /** The values used when the environment does not set them. */
  const Defaults := Settings(5, 16, 30)

  /**
   * With the default period of 30 seconds, a reported rate of 0 (taken as 30
   * fps) gives a stride of 900 frames and a rate of 25 fps one of 750.
   */
  lemma DefaultStride()
    ensures FrameInterval(0.0, Defaults.everySeconds) == 900
    ensures FrameInterval(25.0, Defaults.everySeconds) == 750
  {
    assert RoundHalfEven(900.0) == 900;
    assert RoundHalfEven(750.0) == 750;
  }

  // ---------------------------------------------------------------------------
  // Sampling stride

  /** Python's `round` on an exact value: the nearest integer, ties to the even one. */
  function RoundHalfEven(x: real): (r: int)
    ensures x - 0.5 <= r as real <= x + 0.5
    ensures (r as real - x == 0.5 || x - r as real == 0.5) ==> r % 2 == 0
  {
    var f := x.Floor;
    var frac := x - f as real;
    if frac < 0.5 then f
    else if frac > 0.5 then f + 1
    else if f % 2 == 0 then f
    else f + 1
  }

  /** `cap.get(CAP_PROP_FPS) or 30.0`: a reported rate of zero falls back to 30. */
  function FpsOrDefault(fps: real): (r: real)
    ensures r != 0.0
    ensures fps != 0.0 ==> r == fps
  {
    if fps == 0.0 then 30.0 else fps
  }

  /** `max(1, int(round(fps * S)))`: frames advanced per measurement. */
  function FrameInterval(reportedFps: real, everySeconds: int): (n: int)
    ensures n >= 1
  {
    var n := RoundHalfEven(FpsOrDefault(reportedFps) * everySeconds as real);
    if n > 1 then n else 1
  }

  /**
   * The stride is at least one frame whatever the rate and period; when the
   * product rate times period is at least one frame, it is that product
   * rounded to the nearest frame, and a rate of zero is taken as 30.
   */
  lemma FrameIntervalBounds(reportedFps: real, everySeconds: int)
    ensures FrameInterval(reportedFps, everySeconds) >= 1
    ensures var p := FpsOrDefault(reportedFps) * everySeconds as real;
      p >= 1.0 ==> p - 0.5 <= FrameInterval(reportedFps, everySeconds) as real <= p + 0.5
    ensures reportedFps == 0.0 ==> FrameInterval(reportedFps, everySeconds) == FrameInterval(30.0, everySeconds)
  {
  }

  // ---------------------------------------------------------------------------
  // One cycle of the video loop

  /** What one retrieved frame contributes: its car count, the clock, the stamp and the faults. */
  datatype CycleInput = CycleInput(autos: nat, now: real, stamp: string, faults: Faults)

  /** The free spots reported for the smoothed count of `window`. */
  function LibresOf(window: seq<nat>, total: int): nat
    requires window != []
  {
    FreeSpots(OccupiedSpots(Median(window), total), total)
  }

  /** The state the loop carries from one cycle to the next. */
  datatype LoopState = LoopState(history: seq<nat>, rows: seq<seq<string>>, reported: Reported)

  /**
   * One cycle of the video loop once a frame was retrieved: append the count,
   * smooth, compute the free spots and run the gate. The new count is the
   * newest in a window of at most `Capacity`, and the posted state either
   * stays or becomes the free count of the new window.
   */
  function Step(s: LoopState, c: CycleInput, cfg: Settings): (r: LoopState)
    ensures |r.history| <= Capacity && r.history != [] && r.history[|r.history| - 1] == c.autos
    ensures r.reported == s.reported || r.reported.lastPosted == Some(LibresOf(r.history, cfg.total))
  {
    var hist := LastN(s.history + [c.autos], Capacity);
    var g := Gate(s.rows, s.reported, LibresOf(hist, cfg.total), c.now, cfg.rowId, cfg.total, c.stamp, c.faults);
    LoopState(hist, g.rows, g.state)
  }

  /** The loop state after the cycles `cycles`, one after the other. */
  function Run(s: LoopState, cycles: seq<CycleInput>, cfg: Settings): LoopState
    decreases |cycles|
  {
    if cycles == [] then s else Step(Run(s, cycles[..|cycles| - 1], cfg), cycles[|cycles| - 1], cfg)
  }

  function CountsOf(cycles: seq<CycleInput>): (counts: seq<nat>)
    ensures |counts| == |cycles|
    ensures forall k :: 0 <= k < |cycles| ==> counts[k] == cycles[k].autos
  {
    seq(|cycles|, k requires 0 <= k < |cycles| => cycles[k].autos)
  }

  /**
   * The video loop over the frames it retrieves; `hist` is the window at the
   * end and `st` the last `(last_posted, last_time)`.
   */
  method MonitorLoop(sheet: Sheet, cycles: seq<CycleInput>, cfg: Settings) returns (hist: seq<nat>, st: Reported)
    modifies sheet
    ensures LoopState(hist, sheet.rows, st) == Run(LoopState([], old(sheet.rows), Initial), cycles, cfg)
  {
    var window := new HistoryWindow();
    st := Initial;
    for i := 0 to |cycles|
      invariant window.Valid()
      invariant LoopState(window.items, sheet.rows, st) == Run(LoopState([], old(sheet.rows), Initial), cycles[..i], cfg)
    {
      var c := cycles[i];
      window.Append(c.autos);
      var autosSm := Median(window.items);
      var ocupadas := OccupiedSpots(autosSm, cfg.total);
      var libres := FreeSpots(ocupadas, cfg.total);
      st := UpdateSheetIfNeeded(sheet, libres, st, c.now, cfg.rowId, cfg.total, c.stamp, c.faults);
      assert cycles[..i + 1][..i] == cycles[..i];
    }
    assert cycles[..|cycles|] == cycles;
    hist := window.items;
  }

  lemma {:induction false} RunHistory(s: LoopState, cycles: seq<CycleInput>, cfg: Settings)
    ensures Run(s, cycles, cfg).history == AppendAll(s.history, CountsOf(cycles))
    decreases |cycles|
  {
    if cycles != [] {
      var init := cycles[..|cycles| - 1];
      RunHistory(s, init, cfg);
      assert CountsOf(cycles)[..|cycles| - 1] == CountsOf(init);
    }
  }

  /**
   * After the loop, the window holds at most nine counts: the last
   * `min(n, 9)` raw counts in arrival order.
   */
  lemma WindowAfterLoop(start: LoopState, cycles: seq<CycleInput>, cfg: Settings)
    requires start.history == []
    ensures var h := Run(start, cycles, cfg).history;
      var n := |cycles|;
      var k := if n < Capacity then n else Capacity;
      && |h| <= Capacity
      && |h| == k
      && forall j :: 0 <= j < k ==> h[j] == cycles[n - k + j].autos
  {
    WindowIsLastCounts(start, cycles, cfg);
    LastCountsShape(Run(start, cycles, cfg).history, cycles);
  }

  lemma LastCountsShape(h: seq<nat>, cycles: seq<CycleInput>)
    requires var n := |cycles|;
      var k := if n < Capacity then n else Capacity;
      h == CountsOf(cycles)[n - k..]
    ensures var n := |cycles|;
      var k := if n < Capacity then n else Capacity;
      && |h| <= Capacity
      && |h| == k
      && forall j :: 0 <= j < k ==> h[j] == cycles[n - k + j].autos
  {
    var n := |cycles|;
    RecentCounts(h, cycles, if n < Capacity then n else Capacity);
  }

  lemma WindowIsLastCounts(start: LoopState, cycles: seq<CycleInput>, cfg: Settings)
    requires start.history == []
    ensures var n := |cycles|;
      var k := if n < Capacity then n else Capacity;
      Run(start, cycles, cfg).history == CountsOf(cycles)[n - k..]
  {
    var xs := CountsOf(cycles);
    RunHistory(start, cycles, cfg);
    WindowIsRecentCounts(xs);
  }

  lemma RecentCounts(h: seq<nat>, cycles: seq<CycleInput>, k: nat)
    requires k <= |cycles|
    requires h == CountsOf(cycles)[|cycles| - k..]
    ensures |h| == k
    ensures forall j :: 0 <= j < k ==> h[j] == cycles[|cycles| - k + j].autos
  {
  }

  /**
   * With a non-negative total, every free count the loop has posted lies
   * between 0 and the total.
   */
  lemma {:induction false} PostedWithinTotal(s: LoopState, cycles: seq<CycleInput>, cfg: Settings)
    requires cfg.total >= 0
    requires s.reported.lastPosted.Some? ==> 0 <= s.reported.lastPosted.value <= cfg.total
    ensures var p := Run(s, cycles, cfg).reported.lastPosted;
      p.Some? ==> 0 <= p.value <= cfg.total
    decreases |cycles|
  {
    if cycles != [] {
      var init := cycles[..|cycles| - 1];
      PostedWithinTotal(s, init, cfg);
      var prev := Run(s, init, cfg);
      var hist := LastN(prev.history + [cycles[|cycles| - 1].autos], Capacity);
      FreeCountBalance(Median(hist), cfg.total);
    }
  }

  /**
   * A cycle whose free count equals the last posted one leaves the sheet and
   * the posted state as they were; only the window moves.
   */
  lemma UnchangedCycleWritesNothing(s: LoopState, c: CycleInput, cfg: Settings)
    requires s.reported.lastPosted == Some(LibresOf(LastN(s.history + [c.autos], Capacity), cfg.total))
    ensures Step(s, c, cfg).rows == s.rows && Step(s, c, cfg).reported == s.reported
  {
  }

  // ---------------------------------------------------------------------------
  // Single image

  /** The single-image path: `max(0, TOTAL - min(autos, TOTAL))` sent to the gate with no previous value. */
  method ProcessImage(sheet: Sheet, autos: nat, cfg: Settings, now: real, stamp: string, faults: Faults)
    modifies sheet
    ensures sheet.rows == Gate(old(sheet.rows), Reported(None, 0.0), FreeSpots(OccupiedSpots(autos, cfg.total), cfg.total),
                               now, cfg.rowId, cfg.total, stamp, faults).rows
  {
    var libres := FreeSpots(OccupiedSpots(autos, cfg.total), cfg.total);
    var _ := UpdateSheetIfNeeded(sheet, libres, Reported(None, 0.0), now, cfg.rowId, cfg.total, stamp, faults);
  }

  /** The single-image path always attempts the write, with a free count within the total. */
  lemma ImageAlwaysWrites(autos: nat, cfg: Settings)
    requires cfg.total >= 0
    ensures var libres := FreeSpots(OccupiedSpots(autos, cfg.total), cfg.total);
      ShouldWrite(libres, None) && 0 <= libres <= cfg.total
  {
  }
}
