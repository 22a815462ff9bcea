/**
 * The pairing loop of the simpler monitor in test.c: `ts[i]` holds the last
 * timestamp read from device i; when device 3 is ready, channels 0/1 and 2/3
 * are compared. Unlike the lane monitor, slots are never reset after a
 * comparison and only a strictly negative difference is rejected.
 */
module Pairs {
  import opened Time
  import Lanes

  const NCHANNELS := 4

  /** What the monitor prints for a compared pair (the speed itself is floating point). */
  datatype PairReport = ChannelSpeed(channel: int, micros: int) | OutOfOrderPair

  /** The outcome of one device read: the timestamp delivered, or nothing. */
  datatype ReadResult = Got(ts: Timespec) | NoData

  /** Comparison of start channel `j` with end channel `j + 1`. */
  function PairVerdict(j: int, start: Timespec, end: Timespec): (r: PairReport)
  {
    var micros := Usecs(end) - Usecs(start);
    if micros < 0 then OutOfOrderPair else ChannelSpeed(j, micros)
  }

  /** The slot after a ready device was zeroed and then read into. */
  function Refreshed(outcome: ReadResult): (r: Timespec)
  {
    match outcome
    case Got(t) => t
    case NoData => Zero
  }

  /**
   * For each ready device, zeroes its slot and stores what the read
   * delivered; a failed read leaves `{0, 0}`. Slots of devices that were not
   * ready keep their old value.
   */
  method RefreshSlots(ts: array<Timespec>, ready: seq<bool>, outcomes: seq<ReadResult>)
    requires ts.Length == NCHANNELS && |ready| == NCHANNELS && |outcomes| == NCHANNELS
    modifies ts
    ensures forall i :: 0 <= i < NCHANNELS ==>
      ts[i] == (if ready[i] then Refreshed(outcomes[i]) else old(ts[i]))
  {
    for i := 0 to NCHANNELS
      invariant forall k :: 0 <= k < i ==>
        ts[k] == (if ready[k] then Refreshed(outcomes[k]) else old(ts[k]))
      invariant forall k :: i <= k < NCHANNELS ==> ts[k] == old(ts[k])
    {
      if ready[i] {
        ts[i] := Zero;
        match outcomes[i]
        case Got(t) => ts[i] := t;
        case NoData =>
      }
    }
  }

  /**
   * Compares both lanes (j = 0 and j = 2) in an iteration where device 3 was
   * ready, and nothing otherwise. `ts` is only read.
   */
  method EvaluatePairs(ts: array<Timespec>, lastReady: bool) returns (reports: seq<PairReport>)
    requires ts.Length == NCHANNELS
    ensures lastReady ==> reports == [PairVerdict(0, ts[0], ts[1]), PairVerdict(2, ts[2], ts[3])]
    ensures !lastReady ==> reports == []
  {
    reports := [];
    if lastReady {
      var j := 0;
      while j < NCHANNELS
        invariant 0 <= j <= NCHANNELS && j % 2 == 0
        invariant |reports| == j / 2
        invariant forall k :: 0 <= k < j / 2 ==> reports[k] == PairVerdict(2 * k, ts[2 * k], ts[2 * k + 1])
      {
        var usecs1 := Usecs(ts[j]);
        var usecs2 := Usecs(ts[j + 1]);
        var micros := usecs2 - usecs1;
        if micros < 0 {
          reports := reports + [OutOfOrderPair];
        } else {
          reports := reports + [ChannelSpeed(j, micros)];
        }
        j := j + 2;
      }
    }
  }

  /**
   * A pair is rejected only when its end is strictly earlier than its start,
   * and a pair whose end is later than its start is always accepted.
   */
  lemma RejectedOnlyWhenEndEarlier(j: int, start: Timespec, end: Timespec)
    requires Normalized(start) && Normalized(end)
    ensures PairVerdict(j, start, end).OutOfOrderPair? ==> Earlier(end, start)
    ensures Earlier(start, end) ==> PairVerdict(j, start, end) == ChannelSpeed(j, Usecs(end) - Usecs(start))
  {
    ElapsedSignFollowsOrder(end, start);
    ElapsedSignFollowsOrder(start, end);
  }

  /**
   * Equal timestamps are accepted here as a speed over zero microseconds,
   * while the lane monitor reports the same pair as out of order.
   */
  lemma ZeroElapsedTreatedDifferently(lusid: int, t: Timespec)
    requires t.sec > 0
    ensures PairVerdict(0, t, t) == ChannelSpeed(0, 0)
    ensures Lanes.Due(Time.Payload(lusid, t, t))
    ensures Lanes.Verdict(Time.Payload(lusid, t, t)) == Lanes.OutOfOrder(lusid)
  {
    Lanes.MicrosOfEqualEnds(Time.Payload(lusid, t, t));
  }
}
