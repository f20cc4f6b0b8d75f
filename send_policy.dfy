/**
 * The send-queue policies of `TransceiverManager` (`FIFO`, `LATEST_ONLY`, `LIMITED_FIFO`):
 * what `send_packet` does to the queue when the background sender is on, and how
 * `set_send_mode` re-normalises a populated queue. The queue is oldest-first.
 */
module SendPolicy {
  import opened Wrappers
  import opened Sequences

  datatype SendMode = Fifo | LatestOnly | LimitedFifo

  /** Queueing `p` in `send_packet`. In `LimitedFifo` the oldest packet is dropped when the queue
      has reached `maxSize`; the drop is skipped on an empty queue (see EnqueueAsWritten). */
  function Enqueue<T>(mode: SendMode, maxSize: nat, q: seq<T>, p: T): (r: seq<T>)
    ensures r != [] && r[|r| - 1] == p
  {
    match mode
    case LatestOnly => [p]
    case LimitedFifo => (if |q| >= maxSize && q != [] then q[1..] else q) + [p]
    case Fifo => q + [p]
  }

  /** The `LIMITED_FIFO` branch exactly as written: it pops whenever `size() >= max_queue_size`.
      Popping an empty `std::queue` is undefined behaviour, shown here as `None`. */
  function EnqueueAsWritten<T>(mode: SendMode, maxSize: nat, q: seq<T>, p: T): (r: Option<seq<T>>)
    ensures r.None? ==> q == [] && mode == LimitedFifo
    ensures r.Some? ==> r.value != [] && r.value[|r.value| - 1] == p
  {
    match mode
    case LatestOnly => Some([p])
    case LimitedFifo =>
      if |q| >= maxSize then (if q == [] then None else Some(q[1..] + [p]))
      else Some(q + [p])
    case Fifo => Some(q + [p])
  }

  /** With `max_queue_size == 0` the first packet queued pops an empty queue. */
  lemma AsWrittenPopsEmptyQueue<T>(p: T)
    ensures EnqueueAsWritten(LimitedFifo, 0, [], p) == None
  {
  }

  /** That is the only input on which the written code misbehaves; everywhere else it agrees
      with Enqueue. */
  lemma AsWrittenAgreesElsewhere<T>(mode: SendMode, maxSize: nat, q: seq<T>, p: T)
    ensures EnqueueAsWritten(mode, maxSize, q, p) == None <==> mode == LimitedFifo && maxSize == 0 && q == []
    ensures EnqueueAsWritten(mode, maxSize, q, p).Some? ==> EnqueueAsWritten(mode, maxSize, q, p).value == Enqueue(mode, maxSize, q, p)
  {
  }

  /** With the drop guarded, a bound of zero behaves like a bound of one from a queue of at
      most one packet: the new packet replaces whatever was queued. */
  lemma LimitedZeroKeepsLatest<T>(q: seq<T>, p: T)
    requires |q| <= 1
    ensures Enqueue(LimitedFifo, 0, q, p) == [p]
    ensures Enqueue(LimitedFifo, 0, q, p) == Enqueue(LimitedFifo, 1, q, p)
  {
  }

  /** `set_send_mode`: `LatestOnly` keeps only the last packet, `LimitedFifo` drops the oldest
      packets until at most `maxSize` remain, `Fifo` keeps everything. */
  function Normalize<T>(mode: SendMode, maxSize: nat, q: seq<T>): (r: seq<T>)
    ensures |r| <= |q| && r == q[|q| - |r|..]
    ensures mode != LimitedFifo ==> (r == [] <==> q == [])
  {
    if mode == LatestOnly && q != [] then [q[|q| - 1]]
    else if mode == LimitedFifo && |q| > maxSize then q[|q| - maxSize..]
    else q
  }

  /** The invariant each policy keeps on the queue. */
  predicate Conforms<T>(mode: SendMode, maxSize: nat, q: seq<T>) {
    match mode
    case LatestOnly => |q| <= 1
    case LimitedFifo => |q| <= maxSize
    case Fifo => true
  }

  /** Re-normalising keeps the newest packets, in order, and establishes the new policy. */
  lemma NormalizeKeepsNewest<T>(mode: SendMode, maxSize: nat, q: seq<T>)
    ensures mode == LatestOnly ==> Normalize(mode, maxSize, q) == Newest(q, 1)
    ensures mode == LimitedFifo ==> Normalize(mode, maxSize, q) == Newest(q, maxSize)
    ensures mode == Fifo ==> Normalize(mode, maxSize, q) == q
    ensures Conforms(mode, maxSize, Normalize(mode, maxSize, q))
  {
  }

  /** `send_packet` keeps each policy's invariant, given a bound of at least one. */
  lemma EnqueuePreserves<T>(mode: SendMode, maxSize: nat, q: seq<T>, p: T)
    requires Conforms(mode, maxSize, q) && (mode == LimitedFifo ==> maxSize >= 1)
    ensures Conforms(mode, maxSize, Enqueue(mode, maxSize, q, p))
  {
  }

  /** The queue after sending each of `ps` in turn. */
  function EnqueueAll<T>(mode: SendMode, maxSize: nat, q: seq<T>, ps: seq<T>): (r: seq<T>)
    decreases |ps|
  {
    if ps == [] then q
    else Enqueue(mode, maxSize, EnqueueAll(mode, maxSize, q, ps[..|ps| - 1]), ps[|ps| - 1])
  }

  /** `Fifo` loses nothing: the queue is the old queue followed by every packet sent. */
  lemma {:induction false} EnqueueAllFifo<T>(maxSize: nat, q: seq<T>, ps: seq<T>)
    ensures EnqueueAll(Fifo, maxSize, q, ps) == q + ps
    decreases |ps|
  {
    if ps != [] {
      var init := ps[..|ps| - 1];
      EnqueueAllFifo(maxSize, q, init);
      assert q + ps == q + init + [ps[|ps| - 1]];
    }
  }

  /** `LatestOnly`: after any non-empty run of sends only the last packet is queued. */
  lemma EnqueueAllLatest<T>(maxSize: nat, q: seq<T>, ps: seq<T>)
    requires ps != []
    ensures EnqueueAll(LatestOnly, maxSize, q, ps) == [ps[|ps| - 1]]
  {
  }

  /** `LimitedFifo` with bound `n >= 1`: the queue never exceeds `n` and always holds the `n`
      most recently queued packets, in the order they were sent. */
  lemma {:induction false} EnqueueAllLimited<T>(n: nat, q: seq<T>, ps: seq<T>)
    requires n >= 1 && |q| <= n
    ensures EnqueueAll(LimitedFifo, n, q, ps) == Newest(q + ps, n)
    decreases |ps|
  {
    if ps != [] {
      var init := ps[..|ps| - 1];
      var x := ps[|ps| - 1];
      EnqueueAllLimited(n, q, init);
      var before := Newest(q + init, n);
      assert EnqueueAll(LimitedFifo, n, q, ps) == Enqueue(LimitedFifo, n, before, x);
      assert ps == init + [x];
      assert q + ps == (q + init) + [x];
      if |before| >= n {
        assert Enqueue(LimitedFifo, n, before, x) == before[1..] + [x];
        NewestDropOne(before, n);
        NewestOfNewest(q + init, n, n - 1);
        NewestSnoc(q + init, x, n);
      } else {
        assert before == q + init;
        assert Enqueue(LimitedFifo, n, before, x) == q + ps;
      }
    }
  }
}
