/** The bounded single-producer single-consumer ring buffer, modelled
    sequentially.

    `head` and `tail` are free-running usize cursors (64-bit here) that wrap
    around modulo 2^64; the slot of a cursor is `cursor & mask` with
    `mask = capacity - 1` and a power-of-two capacity. The atomics only make
    the cursors visible across threads; one thread at a time is modelled, so
    they are plain fields. The ghost `Contents` is the queue as a sequence,
    oldest value first. */
module Spsc {
  import opened Types
  import opened Wrappers

  // ---------------------------------------------------------------------
  // Powers of two and the bitwise `&` of a cursor with the mask.

  function Pow2(k: nat): (p: nat)
    ensures p >= 1
  {
    if k == 0 then 1 else 2 * Pow2(k - 1)
  }

  /** `count_ones`: the number of set bits. */
  function CountOnes(n: nat): nat
  {
    if n == 0 then 0 else n % 2 + CountOnes(n / 2)
  }

  /** `usize::is_power_of_two`: exactly one bit is set. */
  predicate IsPowerOfTwo(n: nat)
  {
    CountOnes(n) == 1
  }

  /** Bitwise `&` on naturals, lowest bit first. */
  function And(x: nat, y: nat): nat
  {
    if x == 0 || y == 0 then 0
    else 2 * And(x / 2, y / 2) + (if x % 2 == 1 && y % 2 == 1 then 1 else 0)
  }

  lemma {:induction false} CountOnesPositive(n: nat)
    requires n > 0
    ensures CountOnes(n) >= 1
  {
    if n % 2 == 0 {
      CountOnesPositive(n / 2);
    }
  }

  lemma {:induction false} Pow2IsPowerOfTwo(k: nat)
    ensures IsPowerOfTwo(Pow2(k))
  {
    if k > 0 {
      Pow2IsPowerOfTwo(k - 1);
      assert Pow2(k) / 2 == Pow2(k - 1) && Pow2(k) % 2 == 0;
    }
  }

  /** A power of two other than 1 is twice a power of two. */
  lemma HalvePowerOfTwo(n: nat)
    requires IsPowerOfTwo(n) && n != 1
    ensures n > 1 && n % 2 == 0 && IsPowerOfTwo(n / 2)
  {
    if n / 2 > 0 {
      CountOnesPositive(n / 2);
    }
  }

  /** The exponent of a power of two. */
  ghost function Log2(n: nat): (k: nat)
    requires IsPowerOfTwo(n)
    ensures Pow2(k) == n
    decreases n
  {
    if n == 1 then 0
    else
      HalvePowerOfTwo(n);
      1 + Log2(n / 2)
  }

  lemma {:induction false} Pow2Add(a: nat, b: nat)
    ensures Pow2(a + b) == Pow2(a) * Pow2(b)
  {
    if a > 0 {
      Pow2Add(a - 1, b);
    }
  }

  lemma {:induction false} Pow2Grows(a: nat, b: nat)
    ensures a <= b ==> Pow2(a) <= Pow2(b)
  {
    if a < b {
      Pow2Grows(a, b - 1);
    }
  }

  lemma Pow2Of64()
    ensures Pow2(64) == U64_MODULUS
  {
    assert Pow2(8) == 256;
    Pow2Add(8, 8);
    assert Pow2(16) == 65536;
    Pow2Add(16, 16);
    assert Pow2(32) == 4294967296;
    Pow2Add(32, 32);
  }

  lemma ModHalves(x: nat, c: nat)
    requires c > 0
    ensures 2 * ((x / 2) % c) + x % 2 == x % (2 * c)
  {
    var q, r := (x / 2) / c, (x / 2) % c;
    assert x / 2 == q * c + r;
    assert x == q * (2 * c) + (2 * r + x % 2);
    ModUnique(x, q, 2 * r + x % 2, 2 * c);
  }

  /** With a mask of k low ones, `x & mask` is `x` modulo 2^k. */
  lemma {:induction false} AndLowMask(x: nat, k: nat)
    ensures And(x, Pow2(k) - 1) == x % Pow2(k)
  {
    if k > 0 && x > 0 {
      var c := Pow2(k - 1);
      var m := Pow2(k) - 1;
      assert m == 2 * (c - 1) + 1;
      assert m / 2 == c - 1 && m % 2 == 1;
      var low := if x % 2 == 1 then 1 else 0;
      assert low == x % 2;
      assert And(x, m) == 2 * And(x / 2, c - 1) + low;
      AndLowMask(x / 2, k - 1);
      ModHalves(x, c);
    }
  }

  /** Consecutive cursors fewer than `d` apart land in distinct slots. */
  lemma DistinctSlots(h: int, i: int, j: int, d: int)
    requires d > 0 && 0 <= i < j < d
    ensures (h + i) % d != (h + j) % d
  {
    var q, r := (h + i) / d, (h + i) % d;
    if r + (j - i) < d {
      ModUnique(h + j, q, r + (j - i), d);
    } else {
      ModUnique(h + j, q + 1, r + (j - i) - d, d);
    }
  }

  // ---------------------------------------------------------------------
  // Construction checks.

  /** The two `assert!`s of `SpscQueue::new`, in order, with their messages. */
  function CheckCapacity(capacity: u64): Result<(), string>
  {
    if capacity == 0 then Err("capacity must be greater than 0")
    else if !IsPowerOfTwo(capacity) then Err("capacity must be a power of 2")
    else Ok(())
  }

  /** A capacity is accepted exactly when it is a power of two 2^k. */
  lemma CapacityAccepted(capacity: u64)
    ensures CheckCapacity(capacity).Ok? <==> exists k: nat :: Pow2(k) == capacity
    ensures capacity == 0 ==> CheckCapacity(capacity) == Err("capacity must be greater than 0")
  {
    if CheckCapacity(capacity).Ok? {
      var k := Log2(capacity);
      assert Pow2(k) == capacity;
    } else if capacity > 0 {
      forall k: nat ensures Pow2(k) != capacity {
        Pow2IsPowerOfTwo(k);
      }
    }
  }

  /** An accepted capacity divides the cursor range 2^64, so a cursor's slot
      does not jump when the cursor wraps. */
  lemma AcceptedCapacityDividesModulus(capacity: u64)
    requires CheckCapacity(capacity).Ok?
    ensures Log2(capacity) < 64 && U64_MODULUS % capacity == 0
  {
    var k := Log2(capacity);
    Pow2Of64();
    Pow2Grows(64, k);
    assert k < 64;
    var p := Pow2(64 - k);
    Pow2Add(k, 64 - k);
    assert U64_MODULUS == capacity * p;
    ModUnique(U64_MODULUS, p, 0, capacity);
  }

  // ---------------------------------------------------------------------
  // The ring: the i-th queued value sits in the slot of cursor head + i.

  ghost predicate RingHolds<T>(contents: seq<T>, buf: seq<T>, head: int)
    requires |buf| > 0
  {
    forall i :: 0 <= i < |contents| ==> contents[i] == buf[(head + i) % |buf|]
  }

  /** The tail's slot is the first free one, so writing there and appending
      keeps every queued value where it was. */
  lemma PushKeepsRing<T>(contents: seq<T>, buf: seq<T>, h: u64, t: u64, v: T)
    requires 0 < |buf| && U64_MODULUS % |buf| == 0
    requires RingHolds(contents, buf, h) && |contents| < |buf|
    requires |contents| == WrappingSub(t, h) as int
    ensures RingHolds(contents + [v], buf[t as int % |buf| := v], h)
  {
    var cap, n := |buf|, |contents|;
    assert t as int % cap == (h as int + n) % cap by {
      if t as int != h as int + n {
        ModShift(h as int + n, -(U64_MODULUS / cap), cap);
      }
    }
    var c, b := contents + [v], buf[t as int % cap := v];
    forall i | 0 <= i < |c| ensures c[i] == b[(h as int + i) % cap] {
      if i < n {
        DistinctSlots(h as int, i, n, cap);
      }
    }
  }

  /** The head's slot holds the oldest value, and the rest stay in place
      relative to the advanced head. */
  lemma PopKeepsRing<T>(contents: seq<T>, buf: seq<T>, h: u64)
    requires 0 < |buf| && U64_MODULUS % |buf| == 0
    requires RingHolds(contents, buf, h) && |contents| > 0
    ensures contents[0] == buf[h as int % |buf|]
    ensures RingHolds(contents[1..], buf, WrappingAdd(h, 1))
  {
    var cap, h' := |buf|, WrappingAdd(h, 1);
    var c := contents[1..];
    forall i | 0 <= i < |c| ensures c[i] == buf[(h' as int + i) % cap] {
      assert c[i] == contents[i + 1];
      if h' as int != h as int + 1 {
        ModShift(h as int + (i + 1), -(U64_MODULUS / cap), cap);
      }
    }
  }

  // ---------------------------------------------------------------------
  // The queue.

  class SpscQueue<T(0)> {
    var head: u64
    var tail: u64
    const buffer: array<T>
    const mask: u64
    /** The queued values, oldest first. */
    ghost var Contents: seq<T>
    /** The capacity is 2^logCap. */
    ghost const logCap: nat

    ghost predicate Valid()
      reads this, buffer
    {
      && logCap < 64
      && buffer.Length == Pow2(logCap)
      && mask as int == buffer.Length - 1
      && buffer.Length <= U64_MAX
      && U64_MODULUS % buffer.Length == 0
      && |Contents| == WrappingSub(tail, head) as int <= buffer.Length
      && RingHolds(Contents, buffer[..], head)
    }

    /** `SpscQueue::new`: an empty queue of `capacity` slots (the unwritten
        slots hold the default value of `T`). */
    constructor (capacity: u64)
      requires CheckCapacity(capacity).Ok?
      ensures Valid() && fresh(buffer)
      ensures Contents == [] && buffer.Length == capacity && mask == capacity - 1
    {
      AcceptedCapacityDividesModulus(capacity);
      logCap := Log2(capacity);
      buffer := new T[capacity];
      mask := capacity - 1;
      head, tail := 0, 0;
      Contents := [];
    }

    /** `len`: `tail - head` with wrap-around, which is the number of queued values. */
    function Len(): (n: u64)
      reads this, buffer
      requires Valid()
      ensures n as int == |Contents| <= buffer.Length
    {
      WrappingSub(tail, head)
    }

    /** `is_empty`. */
    function IsEmpty(): (e: bool)
      reads this, buffer
      requires Valid()
      ensures e <==> Contents == []
    {
      Len() == 0
    }

    /** `capacity`: the buffer length, which is `mask + 1` and a power of two. */
    function Capacity(): (c: u64)
      reads this, buffer
      requires Valid()
      ensures c as int == buffer.Length == mask as int + 1
      ensures IsPowerOfTwo(c)
    {
      Pow2IsPowerOfTwo(logCap);
      buffer.Length as u64
    }

    /** The slot of cursor `c`: `c & mask`, which is `c` modulo the capacity. */
    function Slot(c: u64): (s: nat)
      reads this, buffer
      requires Valid()
      ensures s == c as int % buffer.Length < buffer.Length
    {
      AndLowMask(c, logCap);
      And(c, mask)
    }

    /** `push`: on a full queue hand the value back and change nothing;
        otherwise store it at the tail's slot and advance the tail. */
    method Push(value: T) returns (r: Result<(), T>)
      requires Valid()
      modifies this, buffer
      ensures Valid() && head == old(head)
      ensures old(|Contents|) == buffer.Length ==>
                r == Err(value) && Contents == old(Contents) && tail == old(tail) && buffer[..] == old(buffer[..])
      ensures old(|Contents|) < buffer.Length ==>
                r == Ok(()) && Contents == old(Contents) + [value]
    {
      var t, h := tail, head;
      if WrappingSub(t, h) == buffer.Length {
        return Err(value);
      }
      var slot := Slot(t);
      PushKeepsRing(Contents, buffer[..], h, t, value);
      buffer[slot] := value;
      tail := WrappingAdd(t, 1);
      Contents := Contents + [value];
      r := Ok(());
    }

    /** `pop`: on an empty queue return nothing and change nothing;
        otherwise read the head's slot and advance the head. */
    method Pop() returns (r: Option<T>)
      requires Valid()
      modifies this
      ensures Valid() && tail == old(tail)
      ensures old(Contents) == [] ==> r == None && Contents == [] && head == old(head)
      ensures old(Contents) != [] ==> r == Some(old(Contents)[0]) && Contents == old(Contents)[1..]
    {
      var h, t := head, tail;
      if h == t {
        return None;
      }
      var slot := Slot(h);
      PopKeepsRing(Contents, buffer[..], h);
      var value := buffer[slot];
      head := WrappingAdd(h, 1);
      Contents := Contents[1..];
      r := Some(value);
    }

    /** `Drop`: pop until the queue is empty. */
    method Drain()
      requires Valid()
      modifies this
      ensures Valid() && Contents == []
    {
      var r := Pop();
      while r.Some?
        invariant Valid()
        invariant r.None? ==> Contents == []
        decreases |Contents| + (if r.Some? then 1 else 0)
      {
        r := Pop();
      }
    }
  }

  // ---------------------------------------------------------------------
  // What a single thread using the queue observes.

  /** The producer pushes `xs` in order; whenever the queue is full the
      consumer takes one value, after which the push succeeds; finally the
      consumer drains the queue. The consumer sees exactly `xs`, in order,
      whatever the capacity and however often the cursors wrap. */
  method PassThrough<T(0)>(capacity: u64, xs: seq<T>) returns (ys: seq<T>)
    requires CheckCapacity(capacity).Ok?
    ensures ys == xs
  {
    var q := new SpscQueue<T>(capacity);
    ys := [];
    for i := 0 to |xs|
      invariant q.Valid() && fresh(q.buffer)
      invariant ys + q.Contents == xs[..i]
    {
      var r := q.Push(xs[i]);
      if r.Err? {
        var y := q.Pop();
        ys := ys + [y.value];
        r := q.Push(xs[i]);
        assert r.Ok?;
      }
    }
    var y := q.Pop();
    while y.Some?
      invariant q.Valid() && fresh(q.buffer)
      invariant y.Some? ==> ys + [y.value] + q.Contents == xs
      invariant y.None? ==> ys == xs
      decreases |q.Contents| + (if y.Some? then 1 else 0)
    {
      ys := ys + [y.value];
      y := q.Pop();
    }
  }

  /** Each value is pushed and immediately popped: every push succeeds and
      every pop returns the value just pushed. */
  method PushPopPairs<T(0)>(capacity: u64, xs: seq<T>) returns (ys: seq<T>)
    requires CheckCapacity(capacity).Ok?
    ensures ys == xs
  {
    var q := new SpscQueue<T>(capacity);
    ys := [];
    for i := 0 to |xs|
      invariant q.Valid() && fresh(q.buffer)
      invariant q.Contents == [] && ys == xs[..i]
    {
      var r := q.Push(xs[i]);
      var y := q.Pop();
      ys := ys + [y.value];
    }
  }
}
