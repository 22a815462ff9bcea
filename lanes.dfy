/**
 * The lane bookkeeping of the user-space monitor in gpiots_test.c: device i
 * feeds lane i / 2, even devices give the start timestamp and odd ones the
 * end; a lane whose end is set is evaluated once and then reset.
 */
module Lanes {
  import opened Time

  const LUSSEN := 2
  const NGPIOS := LUSSEN * 2

  /** What the monitor prints for an evaluated lane (the speed itself is floating point). */
  datatype Report = Speed(lusid: int, micros: int) | OutOfOrder(lusid: int)

  /** The initial state of lane `i`: its own id and no timestamps. */
  function EmptyLane(i: int): (r: Payload)
  {
    Payload(i, Zero, Zero)
  }

  /** A lane is evaluated once its end timestamp has a positive second count. */
  predicate Due(p: Payload)
  {
    p.tsEnd.sec > 0
  }

  /** Elapsed microseconds between a lane's start and end. */
  function Micros(p: Payload): (r: int)
  {
    Usecs(p.tsEnd) - Usecs(p.tsStart)
  }

  /** The line printed for a due lane: a speed when time moved forward, else out of order. */
  function Verdict(p: Payload): (r: Report)
  {
    if Micros(p) > 0 then Speed(p.lusid, Micros(p)) else OutOfOrder(p.lusid)
  }

  /** The lane after evaluation: a due lane has both timestamps reset. */
  function Evaluated(p: Payload): (r: Payload)
  {
    if Due(p) then p.(tsStart := Zero, tsEnd := Zero) else p
  }

  /** The reports one evaluation pass prints for `lanes`, in lane order. */
  function Reports(lanes: seq<Payload>): (r: seq<Report>)
  {
    if lanes == [] then []
    else
      var last := lanes[|lanes| - 1];
      Reports(lanes[..|lanes| - 1]) + (if Due(last) then [Verdict(last)] else [])
  }

  function EvaluatedAll(lanes: seq<Payload>): (r: seq<Payload>)
    ensures |r| == |lanes|
    ensures forall i :: 0 <= i < |lanes| ==> r[i] == Evaluated(lanes[i])
  {
    seq(|lanes|, i requires 0 <= i < |lanes| => Evaluated(lanes[i]))
  }

  /** Sets up `lus[]`: lane i has id i and both timestamps `{0, 0}`. */
  method InitLanes() returns (lus: array<Payload>)
    ensures fresh(lus) && lus.Length == LUSSEN
    ensures forall i :: 0 <= i < LUSSEN ==> lus[i] == EmptyLane(i)
  {
    lus := new Payload[LUSSEN];
    for i := 0 to LUSSEN
      invariant forall k :: 0 <= k < i ==> lus[k] == EmptyLane(k)
    {
      lus[i] := Payload(i, Zero, Zero);
    }
  }

  /**
   * Stores the timestamp read from device `i` into lane `i / 2`: the start
   * for an even device, the end for an odd one. No other lane changes.
   */
  method Dispatch(lus: array<Payload>, i: int, ts: Timespec)
    requires lus.Length == LUSSEN
    requires 0 <= i < NGPIOS
    modifies lus
    ensures var lane := old(lus[i / 2]);
      lus[..] == old(lus[..])[i / 2 := if i % 2 == 0 then lane.(tsStart := ts) else lane.(tsEnd := ts)]
  {
    var tsi := i / 2;
    if i % 2 == 0 {
      lus[tsi] := lus[tsi].(tsStart := ts);
    } else {
      lus[tsi] := lus[tsi].(tsEnd := ts);
    }
  }

  /**
   * One evaluation pass over the lanes: each due lane is reported and reset,
   * the others are left as they are.
   */
  method EvaluateLanes(lus: array<Payload>) returns (reports: seq<Report>)
    modifies lus
    ensures reports == Reports(old(lus[..]))
    ensures lus[..] == EvaluatedAll(old(lus[..]))
  {
    reports := [];
    ghost var before := lus[..];
    for i := 0 to lus.Length
      invariant reports == Reports(before[..i])
      invariant forall k :: 0 <= k < i ==> lus[k] == Evaluated(before[k])
      invariant forall k :: i <= k < lus.Length ==> lus[k] == before[k]
    {
      assert before[..i + 1][..i] == before[..i];
      if lus[i].tsEnd.sec > 0 {
        var micros := Usecs(lus[i].tsEnd) - Usecs(lus[i].tsStart);
        if micros > 0 {
          reports := reports + [Speed(lus[i].lusid, micros)];
        } else {
          reports := reports + [OutOfOrder(lus[i].lusid)];
        }
        lus[i] := lus[i].(tsStart := Zero, tsEnd := Zero);
      }
    }
    assert before[..lus.Length] == before;
  }

  /**
   * One round of the monitor on fresh lanes: device 0 delivers `start`,
   * device 1 delivers `end`, then the lanes are evaluated. Lane 0 is
   * reported once, exactly when its end second is positive, and lane 1,
   * which received nothing, is not reported.
   */
  method FirstLaneRound(start: Timespec, end: Timespec) returns (reports: seq<Report>)
    ensures end.sec > 0 ==> reports == [Verdict(Payload(0, start, end))]
    ensures end.sec <= 0 ==> reports == []
  {
    var lus := InitLanes();
    Dispatch(lus, 0, start);
    Dispatch(lus, 1, end);
    ghost var lanes := lus[..];
    assert lanes == [Payload(0, start, end), EmptyLane(1)];
    reports := EvaluateLanes(lus);
    assert lanes[..1] == [Payload(0, start, end)];
    assert lanes[..1][..0] == [];
    assert !Due(lanes[1]);
    assert reports == Reports(lanes[..1]);
    assert Reports(lanes[..1]) == Reports([]) + (if Due(lanes[0]) then [Verdict(lanes[0])] else []);
  }

  /** A due lane is reset to exactly its initial state. */
  lemma EvaluatedLaneIsEmpty(p: Payload)
    requires Due(p)
    ensures Evaluated(p) == EmptyLane(p.lusid)
    ensures !Due(Evaluated(p))
  {
  }

  /** A second evaluation pass right after the first prints nothing: each pair is reported once. */
  lemma {:induction false} ReportedOnce(lanes: seq<Payload>)
    ensures Reports(EvaluatedAll(lanes)) == []
  {
    if lanes != [] {
      var init := lanes[..|lanes| - 1];
      assert EvaluatedAll(lanes)[..|lanes| - 1] == EvaluatedAll(init);
      ReportedOnce(init);
    }
  }

  /** Every lane that is due produces exactly one report, and no other lane does. */
  lemma {:induction false} ReportCount(lanes: seq<Payload>)
    ensures |Reports(lanes)| == |set i | 0 <= i < |lanes| && Due(lanes[i])|
  {
    if lanes != [] {
      var n := |lanes| - 1;
      var init := lanes[..n];
      ReportCount(init);
      var dueInit := set i | 0 <= i < n && Due(init[i]);
      var dueAll := set i | 0 <= i < |lanes| && Due(lanes[i]);
      assert dueInit == set i | 0 <= i < n && Due(lanes[i]);
      if Due(lanes[n]) {
        assert dueAll == dueInit + {n};
      } else {
        assert dueAll == dueInit;
      }
    }
  }

  /** A speed is only ever reported for an end strictly later than the start. */
  lemma SpeedOnlyForLaterEnd(p: Payload)
    requires Normalized(p.tsStart) && Normalized(p.tsEnd)
    requires Verdict(p).Speed?
    ensures Earlier(p.tsStart, p.tsEnd)
    ensures Verdict(p).micros > 0
  {
    ElapsedSignFollowsOrder(p.tsStart, p.tsEnd);
  }

  /**
   * An end that arrives while no start is recorded is still evaluated against
   * `{0, 0}` and reported as a speed, not as out of order.
   */
  lemma EndWithoutStartGivesSpeed(p: Payload)
    requires p.tsStart.sec == 0 && p.tsStart.nsec == 0
    requires Normalized(p.tsEnd) && p.tsEnd.sec > 0
    ensures Due(p)
    ensures Verdict(p) == Speed(p.lusid, Usecs(p.tsEnd))
  {
    UsecsOfZero(p.tsStart);
    MicrosFromOrigin(p);
    UsecsOfPositiveSecond(p.tsEnd);
  }

  lemma MicrosOfEqualEnds(p: Payload)
    requires p.tsStart == p.tsEnd
    ensures Micros(p) == 0
  {
  }

  lemma MicrosFromOrigin(p: Payload)
    requires Usecs(p.tsStart) == 0
    ensures Micros(p) == Usecs(p.tsEnd)
  {
  }
}
