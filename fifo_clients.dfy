/**
 * gpiots_fifo.c is the ring buffer over `struct timespec64`: the same code as
 * the driver's copy, so it is `Ring.Fifo<Timespec>` here. These clients state
 * the round trip and the overflow behaviour a user of that copy relies on.
 */
module GpiotsFifo {
  import opened Time
  import Ring

  /** Copies `items` into a fresh array, as the caller's timestamp buffer. */
  method ToArray(items: seq<Timespec>) returns (a: array<Timespec>)
    ensures fresh(a) && a[..] == items
  {
    a := new Timespec[|items|](i requires 0 <= i < |items| => items[i]);
  }

  /**
   * Writing up to `capacity` timestamps into a new buffer and reading as many
   * back returns them all, in the order written.
   */
  method WriteThenRead(capacity: nat, items: seq<Timespec>) returns (written: int, read: int, out: seq<Timespec>)
    requires |items| <= capacity
    ensures written == |items| && read == |items|
    ensures out == items
  {
    var f := new Ring.Fifo<Timespec>.Create(capacity);
    var src := ToArray(items);
    written := f.Write(src, |items|);
    var dst := new Timespec[|items|];
    read := f.Read(dst, |items|);
    out := dst[..read];
  }

  /**
   * A write to a full buffer stores nothing: it returns 0, and draining the
   * buffer afterwards yields exactly what was there before.
   */
  method FullWriteKeepsContents(capacity: nat, items: seq<Timespec>, extra: Timespec)
    returns (rejected: int, out: seq<Timespec>)
    requires |items| == capacity
    ensures rejected == 0
    ensures out == items
  {
    var f := new Ring.Fifo<Timespec>.Create(capacity);
    var src := ToArray(items);
    var written := f.Write(src, |items|);
    var one := ToArray([extra]);
    rejected := f.Write(one, 1);
    var dst := new Timespec[capacity];
    var read := f.Read(dst, capacity);
    out := dst[..read];
  }
}

/**
 * fifo.c is the user-space copy of the ring buffer, storing `fifo_payload_t`
 * records: `Ring.Fifo<Payload>` here.
 */
module UserFifo {
  import opened Time
  import Ring

  /**
   * A buffer of capacity 3 (4 slots): three writes fit and a fourth is
   * refused; reading 2 gives the two oldest; two more writes then fit, and
   * reading 5 gives the remaining three in order.
   */
  method CapacityThreeScenario(a: Payload, b: Payload, c: Payload, d: Payload, e: Payload)
    returns (w1: int, w2: int, r1: seq<Payload>, w3: int, r2: seq<Payload>)
    ensures w1 == 3 && w2 == 0 && w3 == 2
    ensures r1 == [a, b]
    ensures r2 == [c, d, e]
  {
    var f := new Ring.Fifo<Payload>.Create(3);
    assert f.size == 4;
    var abc := new Payload[3](i requires 0 <= i < 3 => [a, b, c][i]);
    w1 := f.Write(abc, 3);
    assert abc[..3] == [a, b, c];
    var dd := new Payload[1](_ => d);
    w2 := f.Write(dd, 1);
    var out := new Payload[5];
    var n1 := f.Read(out, 2);
    r1 := out[..n1];
    var de := new Payload[2](i requires 0 <= i < 2 => [d, e][i]);
    w3 := f.Write(de, 2);
    assert de[..2] == [d, e];
    var n2 := f.Read(out, 5);
    r2 := out[..n2];
  }
}
