/**
 * The detector adapter and the slot occupancy mapper of `ParkingDetector`:
 * the class filter applied to the raw boxes of the external detector, the
 * inclusive point-in-box test, and the assignment of detections to parking
 * slots by the centroid of their boxes.
 */
module Detector {
  import opened Wrappers

  /** An axis-aligned box `[x1, x2] x [y1, y2]` in pixel coordinates. */
  datatype Box = Box(x1: real, y1: real, x2: real, y2: real)

  /** One box as the external detector reports it: class id, corners, confidence. */
  datatype RawBox = RawBox(clsId: int, xyxy: Box, conf: real)

  /** The adapter's record for one kept box. */
  datatype Detection = Detection(clsId: int, clsName: string, conf: real, bbox: Box)

  /** A configured parking slot: its id and its box. */
  datatype Slot = Slot(id: int, box: Box)

  /** The result of the occupancy mapper. */
  datatype Occupancy = Occupancy(totalSlots: nat, occupiedSlots: nat, freeSlots: nat, occupiedSlotIds: seq<int>)

  // ---------------------------------------------------------------------------
  // Geometry

  /**
   * Inclusive containment of the point `(cx, cy)` in box `b`, on all four
   * edges; a box with its corners swapped contains no point.
   */
  predicate PointInBox(cx: real, cy: real, b: Box)
    ensures PointInBox(cx, cy, b) ==> b.x1 <= b.x2 && b.y1 <= b.y2
  {
    b.x1 <= cx <= b.x2 && b.y1 <= cy <= b.y2
  }

  function CentroidX(b: Box): real { (b.x1 + b.x2) / 2.0 }

  function CentroidY(b: Box): real { (b.y1 + b.y2) / 2.0 }

  /** Detection `d` marks slot `s`: the centroid of its box lies in the slot's box. */
  predicate Covers(d: Detection, s: Slot)
  {
    PointInBox(CentroidX(d.bbox), CentroidY(d.bbox), s.box)
  }

  lemma PointInBoxExamples()
    ensures PointInBox(5.0, 5.0, Box(0.0, 0.0, 10.0, 10.0))
    ensures !PointInBox(5.0, 5.0, Box(6.0, 0.0, 10.0, 10.0))
    ensures PointInBox(0.0, 10.0, Box(0.0, 0.0, 10.0, 10.0))
  {
  }

  /** The centroid of a well-formed box lies inside that box. */
  lemma CentroidInsideBox(b: Box)
    requires b.x1 <= b.x2 && b.y1 <= b.y2
    ensures PointInBox(CentroidX(b), CentroidY(b), b)
  {
  }

  // ---------------------------------------------------------------------------
  // Class filter

  /** A class passes the filter when there is no allow-list or it is on it. */
  predicate Allowed(classes: Option<seq<int>>, clsId: int)
  {
    classes.None? || clsId in classes.value
  }

  /** The record built for a raw box; `names` is the detector's class-name table. */
  function ToDetection(b: RawBox, names: int -> string): Detection
  {
    Detection(b.clsId, names(b.clsId), b.conf, b.xyxy)
  }

  /** All boxes of all results, result after result, in their original order. */
  function Flatten(results: seq<seq<RawBox>>): seq<RawBox>
  {
    if results == [] then [] else Flatten(results[..|results| - 1]) + results[|results| - 1]
  }

  /** The records of the boxes that pass the filter, in the order of `boxes`. */
  function Kept(boxes: seq<RawBox>, classes: Option<seq<int>>, names: int -> string): seq<Detection>
  {
    if boxes == [] then []
    else
      var last := boxes[|boxes| - 1];
      Kept(boxes[..|boxes| - 1], classes, names)
        + (if Allowed(classes, last.clsId) then [ToDetection(last, names)] else [])
  }

  /** Filtering a concatenation filters each part, keeping their order. */
  lemma {:induction false} KeptAppend(a: seq<RawBox>, b: seq<RawBox>, classes: Option<seq<int>>, names: int -> string)
    ensures Kept(a + b, classes, names) == Kept(a, classes, names) + Kept(b, classes, names)
    decreases |b|
  {
    if b == [] {
      assert a + b == a;
    } else {
      var b' := b[..|b| - 1];
      assert (a + b)[..|a + b| - 1] == a + b';
      assert (a + b)[|a + b| - 1] == b[|b| - 1];
      KeptAppend(a, b', classes, names);
    }
  }

  /** A record is kept iff it is built from some box whose class passes the filter. */
  lemma {:induction false} KeptMembership(boxes: seq<RawBox>, classes: Option<seq<int>>, names: int -> string, d: Detection)
    ensures d in Kept(boxes, classes, names) <==>
            exists b :: b in boxes && Allowed(classes, b.clsId) && d == ToDetection(b, names)
  {
    if boxes != [] {
      var init := boxes[..|boxes| - 1];
      KeptMembership(init, classes, names, d);
      assert boxes == init + [boxes[|boxes| - 1]];
      forall b | b in boxes ensures b in init || b == boxes[|boxes| - 1] {
      }
    }
  }

  /** Without an allow-list every box is kept, each at its own position. */
  lemma {:induction false} KeptWithoutFilter(boxes: seq<RawBox>, names: int -> string)
    ensures |Kept(boxes, None, names)| == |boxes|
    ensures forall k :: 0 <= k < |boxes| ==> Kept(boxes, None, names)[k] == ToDetection(boxes[k], names)
  {
    if boxes != [] {
      KeptWithoutFilter(boxes[..|boxes| - 1], names);
    }
  }

  lemma FlattenSnoc(results: seq<seq<RawBox>>, i: nat)
    requires i < |results|
    ensures Flatten(results[..i + 1]) == Flatten(results[..i]) + results[i]
  {
    assert results[..i + 1][..i] == results[..i];
  }

  /**
   * The class-filter loop of `detect`: every box of every result, kept when
   * its class passes the filter, appended in the order it was read.
   */
  method Detect(results: seq<seq<RawBox>>, classes: Option<seq<int>>, names: int -> string)
    returns (detections: seq<Detection>)
    ensures detections == Kept(Flatten(results), classes, names)
  {
    detections := [];
    for i := 0 to |results|
      invariant detections == Kept(Flatten(results[..i]), classes, names)
    {
      var boxes := results[i];
      for j := 0 to |boxes|
        invariant detections == Kept(Flatten(results[..i]), classes, names) + Kept(boxes[..j], classes, names)
      {
        var box := boxes[j];
        assert boxes[..j + 1][..j] == boxes[..j];
        if !Allowed(classes, box.clsId) {
          continue;
        }
        detections := detections + [ToDetection(box, names)];
      }
      assert boxes[..|boxes|] == boxes;
      FlattenSnoc(results, i);
      KeptAppend(Flatten(results[..i]), boxes, classes, names);
    }
    assert results[..|results|] == results;
  }

  // ---------------------------------------------------------------------------
  // Occupancy mapper

  /** The ids of the slots among `slots` whose box contains `(cx, cy)`. */
  function HitSlots(cx: real, cy: real, slots: seq<Slot>): set<int>
  {
    if slots == [] then {}
    else
      var last := slots[|slots| - 1];
      HitSlots(cx, cy, slots[..|slots| - 1]) + (if PointInBox(cx, cy, last.box) then {last.id} else {})
  }

  /** The union over all detections of the slots their centroids mark. */
  function OccupiedBy(detections: seq<Detection>, slots: seq<Slot>): set<int>
  {
    if detections == [] then {}
    else
      var d := detections[|detections| - 1];
      OccupiedBy(detections[..|detections| - 1], slots) + HitSlots(CentroidX(d.bbox), CentroidY(d.bbox), slots)
  }

  /** The ids of all configured slots. */
  function SlotIds(slots: seq<Slot>): set<int>
  {
    set s | s in slots :: s.id
  }

  predicate StrictlyIncreasing(s: seq<int>)
  {
    forall i, j :: 0 <= i < j < |s| ==> s[i] < s[j]
  }

  lemma {:induction false} HitSlotsIff(cx: real, cy: real, slots: seq<Slot>, id: int)
    ensures id in HitSlots(cx, cy, slots) <==> exists s :: s in slots && s.id == id && PointInBox(cx, cy, s.box)
  {
    if slots != [] {
      var init := slots[..|slots| - 1];
      HitSlotsIff(cx, cy, init, id);
      assert slots == init + [slots[|slots| - 1]];
      forall s | s in slots ensures s in init || s == slots[|slots| - 1] {
      }
    }
  }

  /**
   * A slot id is occupied iff some detection's centroid lies in the box of some
   * slot carrying that id; overlapping slots may all be marked by one detection.
   */
  lemma {:induction false} OccupiedByIff(detections: seq<Detection>, slots: seq<Slot>, id: int)
    ensures id in OccupiedBy(detections, slots) <==>
            exists d, s :: d in detections && s in slots && s.id == id && Covers(d, s)
  {
    if detections != [] {
      var init := detections[..|detections| - 1];
      var last := detections[|detections| - 1];
      OccupiedByIff(init, slots, id);
      HitSlotsIff(CentroidX(last.bbox), CentroidY(last.bbox), slots, id);
      assert detections == init + [last];
      if id in OccupiedBy(detections, slots) {
        if id in OccupiedBy(init, slots) {
          var d, s :| d in init && s in slots && s.id == id && Covers(d, s);
          assert d in detections;
        } else {
          var s :| s in slots && s.id == id && PointInBox(CentroidX(last.bbox), CentroidY(last.bbox), s.box);
          assert Covers(last, s);
        }
      }
      if exists d, s :: d in detections && s in slots && s.id == id && Covers(d, s) {
        var d, s :| d in detections && s in slots && s.id == id && Covers(d, s);
        assert d in init || d == last;
      }
    }
  }

  /** Every occupied id is the id of a configured slot. */
  lemma OccupiedAreSlotIds(detections: seq<Detection>, slots: seq<Slot>)
    ensures OccupiedBy(detections, slots) <= SlotIds(slots)
  {
    forall id | id in OccupiedBy(detections, slots) ensures id in SlotIds(slots) {
      OccupiedByIff(detections, slots, id);
    }
  }

  /** There are no more distinct slot ids than configured slots. */
  lemma {:induction false} SlotIdsBound(slots: seq<Slot>)
    ensures |SlotIds(slots)| <= |slots|
  {
    if slots != [] {
      var init := slots[..|slots| - 1];
      SlotIdsBound(init);
      assert slots == init + [slots[|slots| - 1]];
      assert SlotIds(slots) == SlotIds(init) + {slots[|slots| - 1].id};
    }
  }

  lemma HasElement(s: set<int>)
    requires s != {}
    ensures exists x :: x in s
  {
    if forall x :: x !in s {
      assert false;
    }
  }

  /** `m` is the least element of `s`. */
  predicate IsLeast(m: int, s: set<int>)
  {
    m in s && forall y :: y in s ==> m <= y
  }

  /** Every non-empty set of integers has a least element. */
  lemma {:induction false} HasMinimum(s: set<int>)
    requires s != {}
    ensures exists m :: IsLeast(m, s)
    decreases |s|
  {
    HasElement(s);
    var x :| x in s;
    var rest := s - {x};
    if rest == {} {
      forall y | y in s ensures x <= y {
        assert y == x || y in rest;
      }
      assert IsLeast(x, s);
    } else {
      HasMinimum(rest);
      var m :| IsLeast(m, rest);
      if x < m {
        forall y | y in s ensures x <= y {
          assert y == x || y in rest;
        }
        assert IsLeast(x, s);
      } else {
        forall y | y in s ensures m <= y {
          assert y == x || y in rest;
        }
        assert IsLeast(m, s);
      }
    }
  }

  /** The elements of a set of ids in ascending order (what `sorted(list(...))` returns). */
  ghost function SortedList(s: set<int>): (r: seq<int>)
    ensures StrictlyIncreasing(r)
    ensures forall x :: x in r <==> x in s
    ensures |r| == |s|
    decreases |s|
  {
    if s == {} then []
    else
      HasMinimum(s);
      var m :| IsLeast(m, s);
      [m] + SortedList(s - {m})
  }

  /** Two strictly ascending sequences with the same elements are equal. */
  lemma {:induction false} StrictlyIncreasingUnique(a: seq<int>, b: seq<int>)
    requires StrictlyIncreasing(a) && StrictlyIncreasing(b)
    requires forall x :: x in a <==> x in b
    ensures a == b
    decreases |a|
  {
    if a != [] {
      assert a[0] in a;
    }
    if b != [] {
      assert b[0] in b;
    }
    if a != [] && b != [] {
      assert a[0] in b && b[0] in a;
      assert a[0] == b[0];
      forall x ensures x in a[1..] <==> x in b[1..] {
        assert x in a[1..] <==> x in a && x != a[0];
        assert x in b[1..] <==> x in b && x != b[0];
      }
      StrictlyIncreasingUnique(a[1..], b[1..]);
      assert a == [a[0]] + a[1..] && b == [b[0]] + b[1..];
    }
  }

  /** What `compute_slot_occupancy` returns for these detections and slots. */
  ghost function OccupancyOf(detections: seq<Detection>, slots: seq<Slot>): Occupancy
  {
    var ids := OccupiedBy(detections, slots);
    var occupied := |ids|;
    Occupancy(|slots|, occupied, if |slots| - occupied > 0 then |slots| - occupied else 0, SortedList(ids))
  }

  /**
   * Counts of the snapshot: the total is the number of configured slots, the
   * occupied count is the number of distinct occupied ids and never exceeds
   * it, and free plus occupied is the total.
   */
  lemma OccupancyCounts(detections: seq<Detection>, slots: seq<Slot>)
    ensures var occ := OccupancyOf(detections, slots);
      && occ.totalSlots == |slots|
      && occ.occupiedSlots == |occ.occupiedSlotIds| <= occ.totalSlots
      && occ.freeSlots == occ.totalSlots - occ.occupiedSlots
  {
    OccupiedAreSlotIds(detections, slots);
    SlotIdsBound(slots);
    var ids := OccupiedBy(detections, slots);
    assert |ids| <= |SlotIds(slots)| by {
      SubsetCard(ids, SlotIds(slots));
    }
  }

  lemma SubsetCard(a: set<int>, b: set<int>)
    requires a <= b
    ensures |a| <= |b|
  {
    assert b == a + (b - a);
  }

  /**
   * The listed ids are strictly ascending, each is the id of a configured
   * slot, and an id is listed iff some detection's centroid lies in a slot
   * with that id.
   */
  lemma OccupancyIds(detections: seq<Detection>, slots: seq<Slot>, id: int)
    ensures StrictlyIncreasing(OccupancyOf(detections, slots).occupiedSlotIds)
    ensures id in OccupancyOf(detections, slots).occupiedSlotIds ==> id in SlotIds(slots)
    ensures id in OccupancyOf(detections, slots).occupiedSlotIds <==>
            exists d, s :: d in detections && s in slots && s.id == id && Covers(d, s)
  {
    OccupiedByIff(detections, slots, id);
  }

  /** With no detections nothing is occupied and every slot is free. */
  lemma NoDetectionsAllFree(slots: seq<Slot>)
    ensures OccupancyOf([], slots).occupiedSlotIds == []
    ensures OccupancyOf([], slots).freeSlots == |slots|
  {
  }

  /** The snapshot depends only on which detections there are, not on their order. */
  lemma OccupancyOrderIndependent(d1: seq<Detection>, d2: seq<Detection>, slots: seq<Slot>)
    requires multiset(d1) == multiset(d2)
    ensures OccupancyOf(d1, slots) == OccupancyOf(d2, slots)
  {
    forall id ensures id in OccupiedBy(d1, slots) <==> id in OccupiedBy(d2, slots) {
      OccupiedByIff(d1, slots, id);
      OccupiedByIff(d2, slots, id);
      forall d ensures d in d1 <==> d in d2 {
        assert d in d1 <==> d in multiset(d1);
        assert d in d2 <==> d in multiset(d2);
      }
    }
    assert OccupiedBy(d1, slots) == OccupiedBy(d2, slots);
  }

  /**
   * A lot of 16 slots where only slot 1 covers `(0, 0, 50, 50)`: one car whose
   * box is `(10, 10, 40, 40)` occupies slot 1 and leaves 15 free.
   */
  lemma SingleCarScenario(others: seq<Slot>)
    requires |others| == 15
    requires forall s :: s in others ==> s.id != 1 && s.box.x1 > 50.0
    ensures var slots := [Slot(1, Box(0.0, 0.0, 50.0, 50.0))] + others;
      var occ := OccupancyOf([Detection(2, "car", 0.9, Box(10.0, 10.0, 40.0, 40.0))], slots);
      occ.occupiedSlotIds == [1] && occ.freeSlots == 15
  {
    var slots := [Slot(1, Box(0.0, 0.0, 50.0, 50.0))] + others;
    var dets := [Detection(2, "car", 0.9, Box(10.0, 10.0, 40.0, 40.0))];
    forall id ensures id in OccupiedBy(dets, slots) <==> id == 1 {
      OccupiedByIff(dets, slots, id);
      assert Covers(dets[0], slots[0]);
    }
    assert OccupiedBy(dets, slots) == {1};
    StrictlyIncreasingUnique(SortedList({1}), [1]);
  }

  /** The ids of `s` in ascending order, by repeatedly taking the least remaining one. */
  method SortIds(s: set<int>) returns (r: seq<int>)
    ensures r == SortedList(s)
  {
    r := [];
    var rest := s;
    while rest != {}
      invariant rest <= s
      invariant forall x :: x in r <==> x in s && x !in rest
      invariant StrictlyIncreasing(r)
      invariant forall i, y :: 0 <= i < |r| && y in rest ==> r[i] < y
      decreases |rest|
    {
      HasMinimum(rest);
      var m :| IsLeast(m, rest);
      AppendLeast(r, m, rest);
      r := r + [m];
      rest := rest - {m};
    }
    StrictlyIncreasingUnique(r, SortedList(s));
  }

  lemma AppendLeast(r: seq<int>, m: int, rest: set<int>)
    requires StrictlyIncreasing(r)
    requires IsLeast(m, rest)
    requires forall i, y :: 0 <= i < |r| && y in rest ==> r[i] < y
    ensures StrictlyIncreasing(r + [m])
    ensures forall i, y :: 0 <= i < |r + [m]| && y in rest - {m} ==> (r + [m])[i] < y
  {
  }

  /**
   * `compute_slot_occupancy`: for every detection and every slot, mark the
   * slot when it contains the detection's centroid; then count and sort.
   */
  method ComputeSlotOccupancy(detections: seq<Detection>, slots: seq<Slot>) returns (occ: Occupancy)
    ensures occ == OccupancyOf(detections, slots)
  {
    var occupiedIds: set<int> := {};
    for i := 0 to |detections|
      invariant occupiedIds == OccupiedBy(detections[..i], slots)
    {
      var bbox := detections[i].bbox;
      var cx := (bbox.x1 + bbox.x2) / 2.0;
      var cy := (bbox.y1 + bbox.y2) / 2.0;
      for j := 0 to |slots|
        invariant occupiedIds == OccupiedBy(detections[..i], slots) + HitSlots(cx, cy, slots[..j])
      {
        assert slots[..j + 1][..j] == slots[..j];
        if PointInBox(cx, cy, slots[j].box) {
          occupiedIds := occupiedIds + {slots[j].id};
        }
      }
      assert slots[..|slots|] == slots;
      assert detections[..i + 1][..i] == detections[..i];
    }
    assert detections[..|detections|] == detections;
    var totalSlots := |slots|;
    var occupiedSlots := |occupiedIds|;
    var freeSlots := if totalSlots - occupiedSlots > 0 then totalSlots - occupiedSlots else 0;
    var ids := SortIds(occupiedIds);
    occ := Occupancy(totalSlots, occupiedSlots, freeSlots, ids);
  }
}
