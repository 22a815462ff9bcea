/**
 * The bounded single-producer/single-consumer ring buffer used by the driver
 * (gpio_fifo.c), its timespec64 twin (gpiots_fifo.c) and the user-space copy
 * (fifo.c). The three copies differ only in the element type, so one generic
 * class models all of them.
 *
 * A buffer created for `capacity` entries owns `size == capacity + 1` slots;
 * `head` is the next slot to write, `tail` the next slot to read, and one slot
 * is always left free so that `head == tail` means empty.
 */
module Ring {

  function Min(a: int, b: int): (r: int)
    ensures r <= a && r <= b && (r == a || r == b)
  {
    if a <= b then a else b
  }

  /** The index after `i`, wrapping to 0 when it reaches `size`. */
  function Advance(i: int, size: int): (r: int)
    requires 0 <= i < size
    ensures 0 <= r < size
  {
    if i + 1 == size then 0 else i + 1
  }

  /** The slot holding the k-th oldest entry when the oldest is at `tail`. */
  function Idx(tail: int, k: int, size: int): (r: int)
  {
    if tail + k < size then tail + k else tail + k - size
  }

  /** Number of live entries between `tail` and `head`. */
  function Count(head: int, tail: int, size: int): (r: nat)
    requires 0 <= head < size && 0 <= tail < size
  {
    if tail <= head then head - tail else head - tail + size
  }

  /** The "no more room" test exactly as gpio_fifo.c:57 writes it. */
  predicate IsFull(head: int, tail: int, size: int)
  {
    head + 1 == tail || (head + 1 == size && tail == 0)
  }

  /** Entries a read of `n` takes when `avail` entries are buffered. */
  function Moved(avail: nat, n: int): (r: nat)
  {
    if n <= 0 then 0 else Min(n, avail)
  }

  /**
   * The value a read of `n` returns: the loop is never entered for n <= 0,
   * so `n` itself comes back; otherwise the number of entries copied.
   */
  function Returned(avail: nat, n: int): (r: int)
  {
    if n <= 0 then n else Min(n, avail)
  }

  /** The wrap-around increment is the increment modulo `size`. */
  lemma AdvanceIsModular(i: int, size: int)
    requires 0 <= i < size
    ensures Advance(i, size) == (i + 1) % size
  {
    if i + 1 == size {
      assert (i + 1) % size == 0;
    } else {
      assert 0 <= i + 1 < size;
    }
  }

  /** The linear count is the modular formula of fifo.c:65-66 and stays below `size`. */
  lemma CountIsModular(head: int, tail: int, size: int)
    requires 0 <= head < size && 0 <= tail < size
    ensures Count(head, tail, size) == (head - tail + size) % size
    ensures Count(head, tail, size) <= size - 1
  {
    var c := head - tail + size;
    if tail <= head {
      assert size <= c < 2 * size || c == size;
      assert c % size == c - size by {
        assert c - size >= 0 && c - size < size;
        assert c == size + (c - size);
      }
    } else {
      assert 0 <= c < size;
    }
  }

  /** The two-way full test of gpio_fifo.c:57 is the usual modular one. */
  lemma FullIsModular(head: int, tail: int, size: int)
    requires 0 <= head < size && 0 <= tail < size
    ensures IsFull(head, tail, size) <==> (head + 1) % size == tail
  {
    AdvanceIsModular(head, size);
  }

  /** The buffer is full exactly when it holds `size - 1` entries. */
  lemma FullIffAtCapacity(head: int, tail: int, size: int)
    requires 0 <= head < size && 0 <= tail < size
    ensures IsFull(head, tail, size) <==> Count(head, tail, size) == size - 1
  {
  }

  /** Empty exactly when the two indices meet. */
  lemma EmptyIffIndicesMeet(head: int, tail: int, size: int)
    requires 0 <= head < size && 0 <= tail < size
    ensures Count(head, tail, size) == 0 <==> head == tail
  {
  }

  class Fifo<T(0)> {
    const data: array<T>
    const size: int
    var head: int
    var tail: int
    /** The buffered entries, oldest first. */
    ghost var contents: seq<T>

    ghost predicate Valid()
      reads this, data
    {
      && size == data.Length && 1 <= size
      && 0 <= head < size && 0 <= tail < size
      && |contents| == Count(head, tail, size)
      && forall k :: 0 <= k < |contents| ==> contents[k] == data[Idx(tail, k, size)]
    }

    /** gpio_fifo_create: `capacity + 1` slots, both indices at 0. */
    constructor Create(capacity: nat)
      ensures Valid() && fresh(data)
      ensures size == capacity + 1 && head == 0 && tail == 0
      ensures contents == []
    {
      data := new T[capacity + 1];
      size := capacity + 1;
      head, tail := 0, 0;
      contents := [];
    }

    /** The number of entries the buffer can hold. */
    function Capacity(): (c: nat)
      reads this, data
      requires Valid()
      ensures |contents| <= c
    {
      CountIsModular(head, tail, size);
      size - 1
    }

    /** gpio_fifo_data_available: the indices differ exactly when data is buffered. */
    function DataAvailable(): (b: bool)
      reads this, data
      requires Valid()
      ensures b <==> contents != []
    {
      tail != head
    }

    /**
     * gpio_fifo_read: copies up to `n` entries, oldest first, into `out`,
     * advancing `tail`; returns the number copied (or `n` when n <= 0).
     */
    method Read(out: array<T>, n: int) returns (count: int)
      requires Valid()
      requires out != data
      requires n <= out.Length
      modifies this, out
      ensures Valid()
      ensures count == Returned(|old(contents)|, n)
      ensures var k := Moved(|old(contents)|, n);
        && out[..k] == old(contents)[..k]
        && out[k..] == old(out[k..])
        && contents == old(contents)[k..]
      ensures head == old(head)
      ensures old(contents) == [] ==> tail == old(tail)
    {
      var i := 0;
      while i < n
        invariant 0 <= i <= |old(contents)| && i <= out.Length
        invariant i <= (if n > 0 then n else 0)
        invariant Valid()
        invariant head == old(head)
        invariant contents == old(contents)[i..]
        invariant forall k :: 0 <= k < i ==> out[k] == old(contents)[k]
        invariant forall k :: i <= k < out.Length ==> out[k] == old(out[k])
        invariant old(contents) == [] ==> tail == old(tail)
      {
        if tail != head {
          out[i] := data[tail];
          tail := Advance(tail, size);
          contents := contents[1..];
          i := i + 1;
        } else {
          assert Count(head, tail, size) == 0;
          assert out[..i] == old(contents)[..i];
          assert out[i..] == old(out[i..]);
          return i;
        }
      }
      assert out[..i] == old(contents)[..i];
      assert out[i..] == old(out[i..]);
      return n;
    }

    /**
     * gpio_fifo_write: appends `src[..n]` in order until the buffer is full
     * and returns the number appended (or `n` when n <= 0); nothing buffered
     * is ever overwritten.
     */
    method Write(src: array<T>, n: int) returns (count: int)
      requires Valid()
      requires src != data
      requires n <= src.Length
      modifies this, data
      ensures Valid()
      ensures count == Returned(size - 1 - |old(contents)|, n)
      ensures contents == old(contents) + src[..Moved(size - 1 - |old(contents)|, n)]
      ensures tail == old(tail)
    {
      CountIsModular(head, tail, size);
      var i := 0;
      while i < n
        invariant 0 <= i <= size - 1 - |old(contents)| && i <= src.Length
        invariant i <= (if n > 0 then n else 0)
        invariant Valid()
        invariant tail == old(tail)
        invariant contents == old(contents) + src[..i]
      {
        FullIffAtCapacity(head, tail, size);
        if IsFull(head, tail, size) {
          return i;
        }
        CountIsModular(head, tail, size);
        WriteSlotIsFree(head, tail, size);
        data[head] := src[i];
        head := Advance(head, size);
        contents := contents + [src[i]];
        i := i + 1;
      }
      return n;
    }

    /** gpio_fifo_clear: both indices back to 0, every entry discarded. */
    method Clear()
      requires Valid()
      modifies this
      ensures Valid()
      ensures head == 0 && tail == 0 && contents == []
      ensures !DataAvailable()
    {
      tail, head := 0, 0;
      contents := [];
    }
  }

  /** The slot `head` is not one of the live slots, so writing it keeps every entry. */
  lemma WriteSlotIsFree(head: int, tail: int, size: int)
    requires 0 <= head < size && 0 <= tail < size
    requires Count(head, tail, size) < size - 1
    ensures Idx(tail, Count(head, tail, size), size) == head
    ensures forall k :: 0 <= k < Count(head, tail, size) ==> Idx(tail, k, size) != head
  {
  }
}
