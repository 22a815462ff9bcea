/**
 * The per-device logic of the GPIO time-stamping driver (gpio_stamp.c): an
 * exclusive open that empties the FIFO, release, a non-blocking read that
 * drains the FIFO, poll, and the interrupt handler that pushes one timestamp
 * while the device is open.
 *
 * Each spinlock-protected region, and each open and release, is one atomic
 * step here. The wait queue is reduced to a count of wake-ups and the
 * overflow message to a count of overflows. The clock reading is passed in
 * as `now`.
 */
module Driver {
  import opened Time
  import Ring

  const GPIO_TS_FIFO_SIZE := 128

  const ENOMEM := 12
  const EFAULT := 14
  const EBUSY := 16

  const IRQ_NONE := 0
  const IRQ_HANDLED := 1

  const POLLIN: bv32 := 0x0001
  const POLLPRI: bv32 := 0x0002

  /** What a device looks like from outside: open count, buffered timestamps, counters. */
  datatype DevView = DevView(opencount: int, queue: seq<Timespec>, capacity: nat, wakeups: nat, overflows: nat)

  /** The observable result of a read: new view, return value, records handed to the user. */
  datatype ReadOutcome = ReadOutcome(view: DevView, ret: int, delivered: seq<Timespec>)

  /** gpio_ts_open: busy while open; otherwise empty the FIFO and count the opener. */
  function OpenStep(v: DevView): (r: (DevView, int))
  {
    if v.opencount > 0 then (v, -EBUSY)
    else (v.(opencount := v.opencount + 1, queue := []), 0)
  }

  /** gpio_ts_release: the opener goes away; buffered timestamps stay until the next open. */
  function ReleaseStep(v: DevView): (r: DevView)
  {
    v.(opencount := v.opencount - 1)
  }

  /**
   * gpio_ts_handler on a device: ignored while the module unloads or nobody
   * has the device open; otherwise one timestamp is offered to the FIFO
   * (dropped if full) and waiters are woken either way.
   */
  function IrqStep(unloading: bool, v: DevView, now: Timespec): (r: (DevView, int))
  {
    if unloading || v.opencount <= 0 then (v, -IRQ_NONE)
    else if |v.queue| < v.capacity then (v.(queue := v.queue + [now], wakeups := v.wakeups + 1), IRQ_HANDLED)
    else (v.(overflows := v.overflows + 1, wakeups := v.wakeups + 1), IRQ_HANDLED)
  }

  /**
   * gpio_ts_read of `length` records: fails with -ENOMEM before touching the
   * FIFO when the bounce buffer cannot be allocated; otherwise drains up to
   * `length` records, oldest first. If copying them out fails the drained
   * records are lost and -EFAULT is returned.
   */
  function ReadStep(v: DevView, length: nat, allocOk: bool, copyOk: bool): (r: ReadOutcome)
  {
    if !allocOk then ReadOutcome(v, -ENOMEM, [])
    else
      var k := Ring.Min(length, |v.queue|);
      var drained := v.(queue := v.queue[k..]);
      if k > 0 && !copyOk then ReadOutcome(drained, -EFAULT, [])
      else ReadOutcome(drained, k, v.queue[..k])
  }

  /** gpio_ts_poll: readable exactly when something is buffered. */
  function PollMask(v: DevView): (r: bv32)
  {
    if v.queue != [] then POLLPRI | POLLIN else 0
  }

  /** `struct gpio_ts_devinfo`: the FIFO of one GPIO line and its open count. */
  class Device {
    const fifo: Ring.Fifo<Timespec>
    var opencount: int
    ghost var wakeups: nat
    ghost var overflows: nat

    ghost predicate Valid()
      reads this, fifo, fifo.data
    {
      fifo.Valid()
    }

    ghost function View(): (r: DevView)
      reads this, fifo, fifo.data
      requires Valid()
    {
      DevView(opencount, fifo.contents, fifo.Capacity(), wakeups, overflows)
    }

    /** The per-device setup in gpio_ts_init: a FIFO of GPIO_TS_FIFO_SIZE entries, not open. */
    constructor ()
      ensures Valid() && fresh(fifo) && fresh(fifo.data)
      ensures View() == DevView(0, [], GPIO_TS_FIFO_SIZE, 0, 0)
    {
      fifo := new Ring.Fifo<Timespec>.Create(GPIO_TS_FIFO_SIZE);
      opencount := 0;
      wakeups, overflows := 0, 0;
    }

    method Open() returns (r: int)
      requires Valid()
      modifies this, fifo
      ensures Valid()
      ensures (View(), r) == OpenStep(old(View()))
    {
      if opencount > 0 {
        return -EBUSY;
      }
      fifo.Clear();
      opencount := opencount + 1;
      return 0;
    }

    method Release()
      requires Valid()
      modifies this
      ensures Valid()
      ensures View() == ReleaseStep(old(View()))
    {
      opencount := opencount - 1;
    }

    /**
     * `allocOk` is whether the kernel buffer allocation succeeds and `copyOk`
     * whether the copy to user space does; `delivered` is what the user gets.
     */
    method Read(length: nat, allocOk: bool, copyOk: bool) returns (r: int, delivered: seq<Timespec>)
      requires Valid()
      modifies fifo
      ensures Valid()
      ensures ReadOutcome(View(), r, delivered) == ReadStep(old(View()), length, allocOk, copyOk)
    {
      if !allocOk {
        return -ENOMEM, [];
      }
      var kbuffer := new Timespec[length];
      var nread := fifo.Read(kbuffer, length);
      if nread > 0 && !copyOk {
        return -EFAULT, [];
      }
      return nread, kbuffer[..nread];
    }

    /** Reports readiness without changing anything. */
    method Poll() returns (mask: bv32)
      requires Valid()
      ensures mask == PollMask(View())
      ensures mask != 0 <==> fifo.contents != []
    {
      var haveData := fifo.DataAvailable();
      if haveData {
        return POLLPRI | POLLIN;
      }
      return 0;
    }
  }

  /** The module-wide state the interrupt handler consults. */
  class GpioTs {
    var moduleUnload: bool

    constructor ()
      ensures !moduleUnload
    {
      moduleUnload := false;
    }

    /** The first step of gpio_ts_exit: from now on every interrupt is ignored. */
    method BeginUnload()
      modifies this
      ensures moduleUnload
    {
      moduleUnload := true;
    }

    /** gpio_ts_handler for the device `devinfo` registered with the interrupt. */
    method Handler(devinfo: Device?, now: Timespec) returns (r: int)
      requires devinfo != null ==> devinfo.Valid()
      modifies if devinfo != null then {devinfo, devinfo.fifo, devinfo.fifo.data} else {}
      ensures devinfo == null ==> r == -IRQ_NONE
      ensures devinfo != null ==> devinfo.Valid()
      ensures devinfo != null ==> (devinfo.View(), r) == IrqStep(moduleUnload, old(devinfo.View()), now)
    {
      if moduleUnload {
        return -IRQ_NONE;
      }
      if devinfo == null {
        return -IRQ_NONE;
      }
      if devinfo.opencount <= 0 {
        return -IRQ_NONE;
      }
      ghost var before := devinfo.View();
      var stamp := new Timespec[1];
      stamp[0] := now;
      assert stamp[..1] == [now];
      var nwritten := devinfo.fifo.Write(stamp, 1);
      assert nwritten == 1 <==> |before.queue| < before.capacity;
      assert nwritten == 1 ==> devinfo.fifo.contents == before.queue + [now];
      assert nwritten != 1 ==> devinfo.fifo.contents == before.queue;
      if nwritten != 1 {
        devinfo.overflows := devinfo.overflows + 1;
      }
      devinfo.wakeups := devinfo.wakeups + 1;
      return IRQ_HANDLED;
    }
  }

  /** An open on an open device is refused and changes nothing. */
  lemma OpenWhileOpenIsBusy(v: DevView)
    requires v.opencount > 0
    ensures OpenStep(v) == (v, -EBUSY)
  {
  }

  /** Open, release, open: both opens succeed and the second starts with an empty FIFO. */
  lemma ReopenAfterRelease(v: DevView)
    requires v.opencount == 0
    ensures OpenStep(v).1 == 0
    ensures var v2 := ReleaseStep(OpenStep(v).0);
      OpenStep(v2).1 == 0 && OpenStep(v2).0.queue == [] && OpenStep(v2).0.opencount == 1
  {
  }

  /** While nobody has the device open, or while unloading, an interrupt changes nothing. */
  lemma IgnoredInterruptChangesNothing(unloading: bool, v: DevView, now: Timespec)
    requires unloading || v.opencount <= 0
    ensures IrqStep(unloading, v, now) == (v, -IRQ_NONE)
  {
  }

  /** The timestamps of interrupts `nows`, one after another. */
  function Interrupts(unloading: bool, v: DevView, nows: seq<Timespec>): (r: DevView)
  {
    if nows == [] then v
    else IrqStep(unloading, Interrupts(unloading, v, nows[..|nows| - 1]), nows[|nows| - 1]).0
  }

  /**
   * While the device is open and the FIFO has room, interrupts append their
   * timestamps in arrival order and wake the reader once each.
   */
  lemma {:induction false} InterruptsAppendInOrder(v: DevView, nows: seq<Timespec>)
    requires v.opencount > 0
    requires |v.queue| + |nows| <= v.capacity
    ensures Interrupts(false, v, nows).queue == v.queue + nows
    ensures Interrupts(false, v, nows).opencount == v.opencount
    ensures Interrupts(false, v, nows).capacity == v.capacity
    ensures Interrupts(false, v, nows).wakeups == v.wakeups + |nows|
  {
    if nows != [] {
      var init := nows[..|nows| - 1];
      InterruptsAppendInOrder(v, init);
      assert init + [nows[|nows| - 1]] == nows;
    }
  }

  /** Once the FIFO is full further interrupts are dropped: the buffered timestamps stay as they are. */
  lemma {:induction false} OverflowKeepsQueue(v: DevView, nows: seq<Timespec>)
    requires v.opencount > 0
    requires |v.queue| == v.capacity
    ensures Interrupts(false, v, nows).queue == v.queue
    ensures Interrupts(false, v, nows).opencount == v.opencount
    ensures Interrupts(false, v, nows).capacity == v.capacity
    ensures Interrupts(false, v, nows).overflows == v.overflows + |nows|
  {
    if nows != [] {
      OverflowKeepsQueue(v, nows[..|nows| - 1]);
    }
  }

  /**
   * While the device is open, interrupts fill the FIFO in arrival order until
   * it is full and every later one is dropped: the queue is the first
   * `capacity` entries of the old queue followed by the new timestamps.
   */
  lemma {:induction false} InterruptsFillThenDrop(v: DevView, nows: seq<Timespec>)
    requires v.opencount > 0
    requires |v.queue| <= v.capacity
    ensures Interrupts(false, v, nows).queue == (v.queue + nows)[..Ring.Min(|v.queue| + |nows|, v.capacity)]
    ensures Interrupts(false, v, nows).opencount == v.opencount
    ensures Interrupts(false, v, nows).capacity == v.capacity
  {
    if nows != [] {
      var init := nows[..|nows| - 1];
      var last := nows[|nows| - 1];
      InterruptsFillThenDrop(v, init);
      assert init + [last] == nows;
      var before := Interrupts(false, v, init);
      if |v.queue| + |init| < v.capacity {
        assert before.queue == v.queue + init;
        assert (v.queue + nows)[..|v.queue| + |nows|] == v.queue + init + [last];
      } else {
        assert (v.queue + init)[..v.capacity] == (v.queue + nows)[..v.capacity];
      }
    }
  }

  /**
   * A new reader never sees stale timestamps: after a successful open the
   * FIFO holds exactly the timestamps of the interrupts since that open, up to
   * its capacity; interrupts beyond that are dropped.
   */
  lemma FreshSessionSeesOnlyNewEvents(v: DevView, nows: seq<Timespec>)
    requires v.opencount == 0
    ensures OpenStep(v).1 == 0
    ensures Interrupts(false, OpenStep(v).0, nows).queue == nows[..Ring.Min(|nows|, v.capacity)]
  {
    InterruptsFillThenDrop(OpenStep(v).0, nows);
    assert [] + nows == nows;
  }

  /** Poll reports readiness exactly when a read of at least one record would deliver one. */
  lemma PollPredictsRead(v: DevView, length: nat)
    requires length > 0
    ensures PollMask(v) != 0 <==> ReadStep(v, length, true, true).ret > 0
    ensures PollMask(v) != 0 ==> ReadStep(v, length, true, true).delivered[0] == v.queue[0]
  {
  }

  /** What reaches the device from outside: the file operations and the interrupt. */
  datatype Event =
    | OpenCall
    | ReleaseCall
    | Interrupt(now: Timespec)
    | ReadCall(length: nat, allocOk: bool, copyOk: bool)
    | PollCall

  /** A device together with the number of files that currently hold it open. */
  datatype Session = Session(view: DevView, holders: nat)

  /**
   * One event. Release is only issued for a file whose open succeeded, so a
   * release with no holder does not occur and is treated as a no-op.
   */
  function Step(unloading: bool, s: Session, e: Event): (r: Session)
  {
    match e
    case OpenCall =>
      var (v, ret) := OpenStep(s.view);
      Session(v, if ret == 0 then s.holders + 1 else s.holders)
    case ReleaseCall =>
      if s.holders == 0 then s else Session(ReleaseStep(s.view), s.holders - 1)
    case Interrupt(now) => Session(IrqStep(unloading, s.view, now).0, s.holders)
    case ReadCall(length, allocOk, copyOk) => Session(ReadStep(s.view, length, allocOk, copyOk).view, s.holders)
    case PollCall => s
  }

  function Run(unloading: bool, s: Session, events: seq<Event>): (r: Session)
    decreases |events|
  {
    if events == [] then s else Run(unloading, Step(unloading, s, events[0]), events[1..])
  }

  /** The open count equals the number of holders, which is at most one; the FIFO never exceeds its capacity. */
  predicate Exclusive(s: Session)
  {
    s.view.opencount == s.holders && s.holders <= 1 && |s.view.queue| <= s.view.capacity
  }

  lemma StepKeepsExclusive(unloading: bool, s: Session, e: Event)
    requires Exclusive(s)
    ensures Exclusive(Step(unloading, s, e))
    ensures Step(unloading, s, e).view.capacity == s.view.capacity
  {
  }

  /** Over any sequence of events, at most one file holds the device and the FIFO stays bounded. */
  lemma {:induction false} RunKeepsExclusive(unloading: bool, s: Session, events: seq<Event>)
    requires Exclusive(s)
    ensures Exclusive(Run(unloading, s, events))
    ensures Run(unloading, s, events).view.capacity == s.view.capacity
    decreases |events|
  {
    if events != [] {
      StepKeepsExclusive(unloading, s, events[0]);
      RunKeepsExclusive(unloading, Step(unloading, s, events[0]), events[1..]);
    }
  }
}
